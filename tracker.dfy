/**
 * The state of the tracker screen and the actions that change it: the
 * once-a-second tick that recomputes the interval to (or from) the
 * milestone date, the two pickers, and the "New Quote" button.
 * Instants are seconds on one time line (`real`); the clock reading and
 * the random draw are passed in.
 */
module Tracker {
  import opened Options
  import opened TimeFormat

  /** The fixed list of motivational quotes. */
  const Quotes: seq<string> := [
    "Believe in yourself and all that you are!",
    "Every step forward is a step towards success.",
    "The journey of a thousand miles begins with one step.",
    "You are stronger than you think.",
    "Your future is created by what you do today."
  ]

  /** The quote shown when the screen first appears. */
  const InitialQuote: string := "Believe in yourself and all that you are!"

  /** The default milestone lies this many days after the screen first appears. */
  const DefaultMilestoneDays: nat := 30

  /**
   * `xs.randomElement()`: `nil` on an empty list, otherwise some element.
   * The random draw is the parameter `choice`.
   */
  function RandomElement<T>(xs: seq<T>, choice: nat): (r: Option<T>)
    ensures r.None? <==> xs == []
    ensures r.Some? ==> r.value in xs
  {
    if xs == [] then None else Some(xs[choice % |xs|])
  }

  /** Every element of a non-empty list is a possible draw. */
  lemma RandomElementReachesEvery<T>(xs: seq<T>, i: nat)
    requires i < |xs|
    ensures RandomElement(xs, i) == Some(xs[i])
  {
  }

  /** `quotes.randomElement() ?? motivationalQuote`. */
  function NextQuote(quotes: seq<string>, choice: nat, current: string): (q: string)
    ensures quotes != [] ==> q in quotes
    ensures quotes == [] ==> q == current
  {
    RandomElement(quotes, choice).GetOr(current)
  }

  /**
   * The interval the tick stores: `targetDate.timeIntervalSince(now)` in
   * countdown mode, `now.timeIntervalSince(targetDate)` in elapsed mode.
   */
  function Delta(now: real, target: real, isReversedMode: bool): (r: real)
    ensures isReversedMode ==> now + r == target
    ensures !isReversedMode ==> target + r == now
  {
    if isReversedMode then target - now else now - target
  }

  /** The two modes store exact negations of each other. */
  lemma ModesAreNegations(now: real, target: real)
    ensures Delta(now, target, true) == -Delta(now, target, false)
  {
  }

  /** For the same instants, at most one of the two modes shows a non-zero duration. */
  lemma AtMostOneModeShowsTime(now: real, target: real)
    ensures Remaining(Delta(now, target, true)) == 0 || Remaining(Delta(now, target, false)) == 0
  {
  }

  /** Once the milestone is reached, countdown mode shows all zeros (no separate "reached" state). */
  lemma CountdownShowsZeroFromMilestone(now: real, target: real)
    requires target <= now
    ensures FormatInterval(Delta(now, target, true)) == ZeroText
  {
    UnderOneSecondShowsZero(Delta(now, target, true));
  }

  /** Before the milestone date, elapsed mode shows all zeros. */
  lemma ElapsedShowsZeroBeforeMilestone(now: real, target: real)
    requires now <= target
    ensures FormatInterval(Delta(now, target, false)) == ZeroText
  {
    UnderOneSecondShowsZero(Delta(now, target, false));
  }

  /** As time goes on, the elapsed seconds shown never go down. */
  lemma ElapsedNeverDecreases(now1: real, now2: real, target: real)
    requires now1 <= now2
    ensures Remaining(Delta(now1, target, false)) <= Remaining(Delta(now2, target, false))
  {
    TruncateMonotone(now1 - target, now2 - target);
  }

  /** As time goes on, the countdown seconds shown never go up. */
  lemma CountdownNeverIncreases(now1: real, now2: real, target: real)
    requires now1 <= now2
    ensures Remaining(Delta(now2, target, true)) <= Remaining(Delta(now1, target, true))
  {
    TruncateMonotone(target - now2, target - now1);
  }

  /**
   * A countdown tick at the very instant the default milestone was set shows
   * thirty days, zero hours, minutes and seconds. The target `now + 30 * 86400`
   * stands for the constructor's `calendarTarget` when the calendar answers
   * with exactly thirty days of seconds; `UpdateTime(now)` then stores this `Delta`.
   */
  lemma DefaultMilestoneShowsThirtyDays(now: real)
    ensures ParseDisplay(FormatInterval(Delta(now, now + (DefaultMilestoneDays * SecondsPerDay) as real, true)))
            == Some(Duration(30, 0, 0, 0))
  {
    var t := Delta(now, now + (DefaultMilestoneDays * SecondsPerDay) as real, true);
    assert t == 2592000.0;
    assert Remaining(t) == TotalSeconds(Duration(30, 0, 0, 0));
    DecomposeOfTotal(Duration(30, 0, 0, 0));
    RenderReadsBack(Duration(30, 0, 0, 0));
  }

  /**
   * The timer first fires one period (a second or more) after the screen
   * appears, and until then the stored interval is 0. Whatever milestone the
   * calendar chose, a countdown tick at least one second later shows strictly
   * fewer seconds than a tick at the instant the milestone was set would have,
   * as long as that milestone was at least a second away.
   */
  lemma TickAfterASecondShowsLess(now: real, elapsed: real, target: real)
    requires elapsed >= 1.0 && target - now >= 1.0
    ensures Remaining(Delta(now + elapsed, target, true)) < Remaining(Delta(now, target, true))
  {
    TruncateMonotone(target - now - elapsed, target - now - 1.0);
  }

  /** The screen's state. */
  class TrackerState {
    /** The milestone date chosen with the date picker. */
    var targetDate: real
    /** The interval stored by the last tick, in seconds. */
    var timeRemaining: real
    /** `true` for countdown mode, `false` for elapsed mode. */
    var isReversedMode: bool
    /** The quote on screen. */
    var motivationalQuote: string
    /** The quotes the button draws from. */
    const quotes: seq<string>

    /** The quote list is the fixed one, and the quote on screen is always one of it. */
    ghost predicate Valid()
      reads this
    {
      quotes == Quotes && motivationalQuote in quotes
    }

    /**
     * The screen as it first appears at instant `now`. `calendarTarget` is
     * the calendar's answer for "30 days after now", `None` if it had none,
     * in which case the milestone is `now` itself.
     */
    constructor (now: real, calendarTarget: Option<real>)
      ensures Valid()
      ensures targetDate == calendarTarget.GetOr(now)
      ensures timeRemaining == 0.0
      ensures isReversedMode
      ensures motivationalQuote == InitialQuote == Quotes[0]
    {
      targetDate := calendarTarget.GetOr(now);
      timeRemaining := 0.0;
      isReversedMode := true;
      motivationalQuote := InitialQuote;
      quotes := Quotes;
    }

    /** The text shown for the stored interval (`formattedTime()`). */
    function FormattedTime(): (s: string)
      reads this
      ensures var r := ParseDisplay(s);
              r.Some? && WellFormed(r.value) && TotalSeconds(r.value) == Remaining(timeRemaining)
    {
      FormatIntervalReadsBack(timeRemaining);
      FormatInterval(timeRemaining)
    }

    /** One timer tick at instant `now` (`updateTime()`): only the stored interval changes. */
    method UpdateTime(now: real)
      requires Valid()
      modifies this`timeRemaining
      ensures Valid()
      ensures timeRemaining == Delta(now, targetDate, isReversedMode)
      ensures targetDate == old(targetDate) && isReversedMode == old(isReversedMode)
      ensures motivationalQuote == old(motivationalQuote)
    {
      if isReversedMode {
        timeRemaining := targetDate - now;
      } else {
        timeRemaining := now - targetDate;
      }
    }

    /** The "New Quote" button; `choice` is the random draw. */
    method NewQuote(choice: nat)
      requires Valid()
      modifies this`motivationalQuote
      ensures Valid()
      ensures motivationalQuote == NextQuote(quotes, choice, old(motivationalQuote))
      ensures targetDate == old(targetDate) && timeRemaining == old(timeRemaining)
      ensures isReversedMode == old(isReversedMode)
    {
      motivationalQuote := RandomElement(quotes, choice).GetOr(motivationalQuote);
    }

    /** The date picker: a new milestone date; the shown interval waits for the next tick. */
    method SelectTargetDate(date: real)
      requires Valid()
      modifies this`targetDate
      ensures Valid()
      ensures targetDate == date
      ensures timeRemaining == old(timeRemaining) && isReversedMode == old(isReversedMode)
      ensures motivationalQuote == old(motivationalQuote)
    {
      targetDate := date;
    }

    /** The mode picker: countdown (`true`) or elapsed (`false`); the shown interval waits for the next tick. */
    method SelectMode(reversed: bool)
      requires Valid()
      modifies this`isReversedMode
      ensures Valid()
      ensures isReversedMode == reversed
      ensures targetDate == old(targetDate) && timeRemaining == old(timeRemaining)
      ensures motivationalQuote == old(motivationalQuote)
    {
      isReversedMode := reversed;
    }
  }
}
