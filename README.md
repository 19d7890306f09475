# Sobriety Tracker: the milestone timer, in Dafny

The Sobriety Tracker is a one-screen SwiftUI app. The user picks a milestone
date and a mode. In **countdown** mode the screen shows the time left until
the date. In **elapsed** mode it shows the time since the date. A timer fires
once a second. Each tick stores the signed interval in `timeRemaining`. The
view prints that interval as `"<d> days <h> hours <m> minutes <s> seconds"`.
A "New Quote" button replaces the motivational quote with one drawn at random
from a fixed list of five.

This project models that logic and proves properties of it:

- `options.dfy`, module `Options`: Swift optionals and `??` (`GetOr`).
- `decimal.dfy`, module `Decimal`: the numeral Swift prints for a
  non-negative `Int` (`NatToString`). A reader of numerals
  (`ValueOf`, `ParseNumeral`) shows that printing loses nothing: the two are proved to be inverse bijections
  between `nat` and canonical numerals.
- `time_format.dfy`, module `TimeFormat`: `formattedTime()` as pure
  functions. `Truncate` is `Int(x)` (toward zero), `Remaining` is the clamp
  `max(0, …)`, `Decompose` splits into days, hours, minutes and seconds, and
  `Render` builds the text. A reader of the displayed text
  (`ParseDisplay`) checks the output: the round trip `ParseDisplay(Render(d)) == Some(d)` shows
  that all four components are shown, in order, and nothing is lost.
- `tracker.dfy`, module `Tracker`: the screen's `@State` as the class
  `TrackerState`. Its methods are the timer tick (`UpdateTime`), the quote
  button (`NewQuote`) and the two pickers. Beside it are lemmas about the two
  modes.

Instants and intervals are seconds on one time line, as `real`. The clock
reading (`Date()`) is the parameter `now`. The calendar's "30 days later"
is a constructor parameter. The random draw of `randomElement()` is a
parameter `choice`.

The code stores the signed interval in `timeRemaining` (ContentView.swift:137, 139)
and clamps only when formatting (ContentView.swift:145). The model stores
the signed value too (`UpdateTime`) and clamps in `Remaining`.

Swift's `/` and `%` truncate toward zero, while Dafny's are Euclidean. They
are only applied to the clamped, non-negative value, where the two agree.

## Model

| member | source | states |
|---|---|---|
| `Options.Option.GetOr` | SobreityTracker/ContentView.swift:90 | `x ?? default` (here and in the `?? Date()` fallback at line 12): the wrapped value when there is one, and `default` when there is none |
| `Decimal.NatToString` | SobreityTracker/ContentView.swift:150 | The interpolated numeral of a non-negative count is canonical (digits only, no leading zero) and denotes exactly that count |
| `Decimal.NatToStringOfValue` | SobreityTracker/ContentView.swift:150 | Every canonical numeral is the one printed for its value, so printing is onto the canonical numerals |
| `Decimal.NatToStringInjective` | SobreityTracker/ContentView.swift:150 | Two counts print the same numeral if and only if they are equal |
| `Decimal.ParseNumeralOfNatToString` | SobreityTracker/ContentView.swift:150 | A printed numeral followed by text that does not start with a digit reads back as its count, with the following text intact |
| `TimeFormat.Truncate` | SobreityTracker/ContentView.swift:145 | `Int(timeRemaining)` rounds toward zero: for x >= 0 it is the largest whole number <= x, for x < 0 the smallest whole number >= x |
| `TimeFormat.TruncateMonotone` | SobreityTracker/ContentView.swift:145 | Truncation never decreases as its argument grows |
| `TimeFormat.Remaining` | SobreityTracker/ContentView.swift:144-145 | The clamped seconds are never negative; they are 0 exactly when the interval is under one second (every negative interval included); otherwise they are the whole seconds in the interval |
| `TimeFormat.Decompose` | SobreityTracker/ContentView.swift:146-149 | Days, hours, minutes and seconds add back up to the clamped total exactly, with hours < 24, minutes < 60, seconds < 60 and days unbounded |
| `TimeFormat.Render` | SobreityTracker/ContentView.swift:150 | The interpolated text; by `RenderReadsBack` it always carries the four components in the order days, hours, minutes, seconds, and reading it back gives each one unchanged |
| `TimeFormat.FormatInterval` | SobreityTracker/ContentView.swift:143-152 | `formattedTime()` for a stored interval; by `FormatIntervalReadsBack` its text reads back as in-range components whose total is exactly the clamped, truncated interval |
| `TimeFormat.DecomposeOfTotal` | SobreityTracker/ContentView.swift:146-149 | The decomposition is the only one within those bounds: decomposing the total of any in-range duration gives that duration back |
| `TimeFormat.RenderReadsBack` | SobreityTracker/ContentView.swift:150 | The text always carries all four components, in the order days, hours, minutes, seconds, zeros included, and reading it back recovers each one |
| `TimeFormat.FormatIntervalReadsBack` | SobreityTracker/ContentView.swift:143-152 | The text shown for any interval reads back as in-range components whose total is exactly the clamped, truncated interval |
| `TimeFormat.FormatIntervalSameIff` | SobreityTracker/ContentView.swift:143-152 | Two intervals show the same text if and only if they have the same clamped whole seconds |
| `TimeFormat.UnderOneSecondShowsZero` | SobreityTracker/ContentView.swift:144-150 | An interval of zero, or any negative one, or any under one second, shows `0 days 0 hours 0 minutes 0 seconds` |
| `TimeFormat.ZeroRendersAsZeroText` | SobreityTracker/ContentView.swift:150 | The all-zero duration prints as `0 days 0 hours 0 minutes 0 seconds` |
| `TimeFormat.OneOfEachExample` | SobreityTracker/ContentView.swift:145-150 | 90061 seconds shows `1 days 1 hours 1 minutes 1 seconds` |
| `Tracker.Delta` | SobreityTracker/ContentView.swift:136-140 | In countdown mode the stored interval is the time from now to the target; in elapsed mode it is the time from the target to now |
| `Tracker.ModesAreNegations` | SobreityTracker/ContentView.swift:136-140 | For the same instants, the two modes store exact negations of each other |
| `Tracker.AtMostOneModeShowsTime` | SobreityTracker/ContentView.swift:136-145 | For the same instants, at most one of the two modes shows a non-zero duration |
| `Tracker.CountdownShowsZeroFromMilestone` | SobreityTracker/ContentView.swift:136-150 | Once now reaches the milestone, countdown mode shows all zeros; there is no separate "milestone reached" display |
| `Tracker.ElapsedShowsZeroBeforeMilestone` | SobreityTracker/ContentView.swift:136-150 | Before the milestone, elapsed mode shows all zeros |
| `Tracker.ElapsedNeverDecreases` | SobreityTracker/ContentView.swift:138-145 | As now advances, the elapsed seconds shown never go down |
| `Tracker.CountdownNeverIncreases` | SobreityTracker/ContentView.swift:136-145 | As now advances, the countdown seconds shown never go up |
| `Tracker.DefaultMilestoneShowsThirtyDays` | SobreityTracker/ContentView.swift:12 | With the default milestone 30 days ahead, a countdown tick at the same instant shows 30 days, 0 hours, 0 minutes, 0 seconds |
| `Tracker.TickAfterASecondShowsLess` | SobreityTracker/ContentView.swift:12-18 | For any milestone at least a second ahead, a countdown tick one second or more later (as the first timer tick always is) shows strictly fewer seconds than a tick at the instant the milestone was set |
| `Tracker.RandomElement` | SobreityTracker/ContentView.swift:90 | `randomElement()` gives nothing exactly when the list is empty, and otherwise an element of the list |
| `Tracker.RandomElementReachesEvery` | SobreityTracker/ContentView.swift:90 | Every element of a non-empty list is a possible draw |
| `Tracker.NextQuote` | SobreityTracker/ContentView.swift:90 | The next quote is a member of the list, or the current quote when the list is empty |
| `Tracker.TrackerState.constructor` | SobreityTracker/ContentView.swift:12-31 | Initial state: milestone = the calendar's answer or now, interval 0, countdown mode, and the first quote of the list on screen |
| `Tracker.TrackerState.FormattedTime` | SobreityTracker/ContentView.swift:143-152 | The shown text reads back as in-range components totalling the clamped, truncated stored interval |
| `Tracker.TrackerState.UpdateTime` | SobreityTracker/ContentView.swift:134-142 | A tick stores the countdown or elapsed interval for the current mode; milestone, mode and quote are unchanged |
| `Tracker.TrackerState.NewQuote` | SobreityTracker/ContentView.swift:88-91 | The button puts a quote from the list on screen and changes nothing else; the shown quote stays in the list |
| `Tracker.TrackerState.SelectTargetDate` | SobreityTracker/ContentView.swift:48 | The date picker sets only the milestone; the stored interval waits for the next tick |
| `Tracker.TrackerState.SelectMode` | SobreityTracker/ContentView.swift:56-59 | The mode picker sets only the mode; the stored interval waits for the next tick |

## Left out

- SwiftUI layout and styling (ContentView.swift:33-132 apart from the bindings and actions above), the mode headline text (line 65), the static milestone-step texts (lines 111-115) and the preview provider (lines 155-159): presentation only.
- The Combine `Timer.publish` tick (lines 18, 71-73): it is a host-driven callback. Each tick is an explicit `UpdateTime(now)` call.
- `Date()` and `Calendar.current.date(byAdding:)` (lines 12, 135): they depend on the clock, the time zone and the OS. `now` and the calendar's answer are parameters.
- Tracker.DefaultMilestoneShowsThirtyDays: assumes the calendar's answer is exactly 30 × 86400 seconds after now, which ignores daylight-saving changes.
- Tracker.Delta: `TimeInterval` is a `Double`, but the model uses exact `real` arithmetic, so floating-point rounding of the subtraction is not modelled.
- TimeFormat.Truncate: `Int(x)` traps on NaN, infinities and values outside the 64-bit range. Reals have no NaN or infinities. Beyond ±2^63 the model's `Truncate` returns the unbounded whole part where Swift traps. No date the picker offers comes near that.
- TimeFormat.Decompose: Swift's `Int` is 64 bits wide; the model's integers are unbounded. No overflow is possible on the clamped, truncated value.
- The randomness of `randomElement()`: only the chosen element is modelled. The draw is the parameter `choice`, with no distribution.
