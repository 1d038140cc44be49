# Festival countdown — verified model of the countdown arithmetic

The festival site shows a countdown to a target instant: days, hours, minutes
and seconds left, each rendered as a zero-padded number, and each digit group
animates when its value changes from one one-second tick to the next. This
project models that countdown in Dafny:

- `time_left.dfy` (module `TimeLeftCalc`): the `TimeLeft` record and
  `CalculateTimeLeft`, which floors the millisecond difference `target - now`
  into days, hours, minutes and seconds and clamps a non-positive difference
  to all zeros. The current time is a parameter instead of a clock read.
- `format_number.dfy` (module `NumberFormat`): `FormatNumber`, the decimal
  representation of a non-negative integer left-padded with `'0'` to at
  least two characters, with the decimal reader `ParseDecimal` as its partner.
- `countdown_timer.dfy` (module `CountdownTimer`): the per-display state
  (`prev`, the previous tick's value, initially all `-1`; `shown`, the
  displayed value, initially all `0`) as a class whose `Tick(now)` computes
  the new value, returns the set of fields that changed (those that animate)
  and overwrites both `prev` and `shown`, and whose `Retarget(target, now)`
  replaces the target and ticks at once, as a new target date does.

Some consequences of the code worth knowing:
- `padStart(2, "0")` only pads, so 100 days or more keep all their digits
  (lemma `FormatNumberWide`).
- The display reads all zeros once less than one second is left (lemma
  `ZeroIffUnderOneSecond`).
- Three days minus 90 061 000 ms is shown as 1:22:58:59 (lemma
  `ThreeDaysAhead`).
- The display starts at all zeros. The page reads the clock to set the
  target before the countdown takes its first sample, so the first tick's
  value, which replaces the initial zeros, is normally 2:23:59:59 (lemma
  `FirstSampleAfterTarget`); 3:00:00:00 appears only when both clock reads
  fall in the same millisecond.
- A new target keeps the previous tick's value, so only the fields that
  differ animate, and a display at zeros can count again (`Retarget`).

## Model

| member | source | states |
|---|---|---|
| `TimeLeftCalc.CalculateTimeLeft` | src/components/CountdownTimer.tsx:60-73 | every result is in clock range (days ≥ 0, hours < 24, minutes and seconds < 60); a difference ≤ 0 gives exactly all zeros |
| `TimeLeftCalc.Reconstruction` | src/components/CountdownTimer.tsx:67-72 | for a positive difference d, d equals the fields in milliseconds plus a remainder in [0, 1000); days is the number of whole days in d |
| `TimeLeftCalc.Uniqueness` | src/components/CountdownTimer.tsx:60-73 | any in-range value whose milliseconds lie within one second below the difference is the computed value (the decomposition is the only one) |
| `TimeLeftCalc.MixedRadixUnique` | src/components/CountdownTimer.tsx:68-71 | two in-range values standing for the same number of whole seconds are equal |
| `TimeLeftCalc.FieldsOfWholeSeconds` | src/components/CountdownTimer.tsx:68-71 | the fields of an in-range value are the base 60/60/24 digits of its whole seconds, as the floor/modulo formulas compute them |
| `TimeLeftCalc.WholeSecondsLeft` | src/components/CountdownTimer.tsx:61-72 | the whole seconds shown are the whole seconds in the difference, or 0 once the difference is ≤ 0 |
| `TimeLeftCalc.Monotonic` | src/components/CountdownTimer.tsx:61-72 | for a fixed target a later `now` never shows more whole seconds |
| `TimeLeftCalc.ZeroIffUnderOneSecond` | src/components/CountdownTimer.tsx:61-72 | the result is all zeros exactly when less than 1000 ms are left |
| `TimeLeftCalc.ExpiryIsPermanent` | src/components/CountdownTimer.tsx:61-65 | once all zeros are shown, every later `now` shows all zeros |
| `TimeLeftCalc.OneSecondLater` | src/components/CountdownTimer.tsx:71 | while at least a second is left, a sample 1000 ms later shows exactly one whole second less and a different seconds field |
| `TimeLeftCalc.ThreeDaysAhead` | src/app/page.tsx:10-12 | with the target three days after a sample taken in the same millisecond as the page's clock read: 3:00:00:00 then, 1:22:58:59 after 90 061 000 ms, zeros at and after the target |
| `TimeLeftCalc.FirstSampleAfterTarget` | src/app/page.tsx:10-12 | with the target three days after the page's clock read, a first sample taken 1 to 1000 ms later shows 2:23:59:59 |
| `NumberFormat.DigitChar` | src/components/CountdownTimer.tsx:102 | a digit value becomes a decimal digit character that reads back as that value |
| `NumberFormat.ToDecimal` | src/components/CountdownTimer.tsx:102 | `toString` of a non-negative integer: at least one decimal digit, leading '0' only for zero |
| `NumberFormat.ParseToDecimal` | src/components/CountdownTimer.tsx:102 | reading the decimal representation back gives the number |
| `NumberFormat.DecimalLength` | src/components/CountdownTimer.tsx:102 | one digit exactly below 10, two digits for 10..99, three or more exactly from 100 on |
| `NumberFormat.Repeat` | src/components/CountdownTimer.tsx:102 | k copies of the fill character |
| `NumberFormat.PadStart` | src/components/CountdownTimer.tsx:102 | `padStart`: length is max(width, length of input), the input is the suffix, everything before it is the fill character |
| `NumberFormat.LeadingZeros` | src/components/CountdownTimer.tsx:102 | prefixing zeros keeps a digit string all digits and does not change its value |
| `NumberFormat.AllZeros` | src/components/CountdownTimer.tsx:102 | a run of '0' padding reads as zero |
| `NumberFormat.FormatNumber` | src/components/CountdownTimer.tsx:101-103 | the rendered field is all digits and has length max(2, number of decimal digits) |
| `NumberFormat.FormatNumberRoundTrip` | src/components/CountdownTimer.tsx:101-103 | the rendered field reads back as the field's value |
| `NumberFormat.FormatNumberTwoDigits` | src/components/CountdownTimer.tsx:101-103 | values below 100 render as exactly two characters, with a leading '0' exactly when below 10 |
| `NumberFormat.FormatNumberWide` | src/components/CountdownTimer.tsx:101-103 | from 100 on nothing is added or dropped: the rendering is the plain decimal representation |
| `CountdownTimer.ChangedFields` | src/components/CountdownTimer.tsx:78-89 | a field is flagged exactly when its value differs between previous and new value; nothing is flagged exactly when the two are equal |
| `CountdownTimer.FirstTickFlagsAll` | src/components/CountdownTimer.tsx:33-38 | against the initial all -1 previous value every computed value flags all four fields |
| `CountdownTimer.ExpiredTickFlagsNone` | src/components/CountdownTimer.tsx:78-89 | once the display has reached all zeros, a later tick flags no field |
| `CountdownTimer.CountingTickFlagsSeconds` | src/components/CountdownTimer.tsx:78-80 | while at least a second is left, a tick one second later flags the seconds field |
| `CountdownTimer.Countdown.constructor` | src/components/CountdownTimer.tsx:20-38 | a new display has previous value all -1 and shows all zeros |
| `CountdownTimer.Countdown.Tick` | src/components/CountdownTimer.tsx:75-93 | after a tick previous and shown values both equal the newly computed value; the returned set is exactly the fields that changed; the first tick flags all, a tick from zeros with under a second left flags none; the target does not change |
| `CountdownTimer.Countdown.Retarget` | src/components/CountdownTimer.tsx:75-99 | a new target date replaces the target and ticks at once; the previous value is kept, so exactly the fields that differ from it are flagged, and afterwards previous and shown values both equal the time left to the new target |
| `CountdownTimer.Mount` | src/components/CountdownTimer.tsx:95 | mounting and the immediate first tick leave previous and shown values both equal to the time left and animate all four fields |

## Left out

- Animation: the gsap tweens of `animateDigit` and all markup are not modelled; `Tick` returns the set of fields that would be animated.
- Timer scheduling: `setInterval` / `clearInterval` are not modelled; each tick is one call of `Tick` with the sample time as a parameter, so interval drift and teardown are not represented.
- Clock reads: `new Date().getTime()` is the parameter `now`; the target date is an opaque integer, so the calendar arithmetic that sets it three days ahead (local time, daylight-saving changes) is not modelled.
- React state: `setTimeLeft` is modelled as an immediate assignment to `shown`; render scheduling and batching are not represented.
- TimeLeftCalc.CalculateTimeLeft: does not model JavaScript floating point; the arithmetic is exact on integers, which matches the source while the difference is below 2^52 ms, about 142 000 years (there the rounding of the double divisions, including the twice-rounded `difference / 1000 / 60`, cannot carry a quotient across an integer).
- NumberFormat.ToDecimal: does not model the exponent notation `toString` uses from 10^21 on, nor negative numbers; displayed fields are never negative and never that large.
- The other components of the site (menu, navbar, scroll reveal, smooth scrolling, sponsors, timeline, footer) are presentation and are not part of this model.
