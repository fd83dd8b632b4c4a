# GC composition window scan, modelled in Dafny

The script `gc.py` plots a GC metric along a nucleotide sequence. It slides a
window of fixed size along the sequence with a fixed step, applies a ratio
function to each window, and collects one number per window. There are two
ratio functions. The GC ratio is `(G + C) / window length`. The GC skew is
`(G - C) / (G + C)`. This project models that scan (`calc`), the two ratio
functions (`calc_gc_ratio`, `calc_gc_skew_ratio`) and the `ratio_funcs`
registry that selects one by name.

Modules:

- `Wrappers` (`wrappers.dfy`): `Option` and `Result`.
- `Errors` (`errors.dfy`): the three ways a run stops without a series. Two
  are the checks that `error()` reports: "Wrong window size" and "Wrong step".
  The third is the `ZeroDivisionError` that a ratio function raises.
- `Nucleotides` (`nucleotides.dfy`): `Count`, which models `str.count` for a
  single character, and the G+C count.
- `Ratios` (`ratios.dfy`): `GcRatio`, `GcSkew`, and the closed registry
  `RatioFunc`. `RatioFunc` is a datatype with a name, a metric function
  (`Func`) and a name lookup (`FromName`). `Apply` runs a metric and turns a
  division by zero into a `ZeroDivision` failure.
- `Sliding` (`sliding.dfy`): the geometry of the scan. `WindowCount` is the
  number of cursor positions the loop visits, in closed form. `Windows`
  gives window k, the slice that ends at cursor `w + k * step`.
- `Scan` (`scan.dfy`): three models of `calc`.
  - `Calc` is the functional specification. It uses the corrected step check
    described under Findings.
  - `CalcLoop` is the imperative while loop of the script, proved equal to
    `Calc`.
  - `CalcAsWritten` runs the loop exactly as written for a bounded number of
    passes. It is proved equal to `Calc` whenever the step is positive. For a
    zero step and a window shorter than the sequence, it is proved never to
    return when the first window's metric is defined, and to raise that
    window's error on the first pass when it is not.

Metric values are exact rationals (`real`). `calc` receives the ratio function
as an argument, so the scan is generic over a `Metric` (a function from a
window to a value or an error).

In the worked example, `"ACGTACGTAC"` with window 4 and step 2, the cursor
visits 4, 6 and 8, then stops at 10 because the loop test `cur_pos < len(seq)`
is strict. The result is therefore three values `[0.5, 0.5, 0.5]`. The window
`"CGTA"`, which ends exactly at 10, the end of the sequence, is not evaluated.

## Model

| member | source | states |
|---|---|---|
| Nucleotides.Count | gc.py:40 | the count of a symbol equals its multiplicity in the sequence's multiset |
| Nucleotides.GcCountBounds | gc.py:40 | G+C count is at most the length; it equals the length iff every symbol is G or C, and is 0 iff none is |
| Ratios.GcRatio | gc.py:39-40 | ratio times length is the G+C count; it lies in [0, 1]; it is 0 iff the window has no G/C and 1 iff the window is all G/C |
| Ratios.SkewOf | gc.py:44 | skew of counts g, c (g + c > 0) times (g + c) is g - c; it lies in [-1, 1]; it is 1 iff c = 0, -1 iff g = 0, 0 iff g = c |
| Ratios.GcSkew | gc.py:43-44 | skew lies in [-1, 1]; it is 1 iff the window has no C, -1 iff no G, 0 iff the G and C counts are equal |
| Ratios.GcSkewValue | gc.py:44 | the skew of a window with a G or C is (G count - C count) / (G count + C count) |
| Ratios.Apply | gc.py:39-44 | the ratio fails (division by zero) iff the window is empty; the skew fails iff the window has no G and no C; otherwise the value is in range |
| Ratios.AppendNonGcNeverRaises | gc.py:40 | appending a symbol other than upper-case G/C keeps the G+C count and never raises the GC ratio |
| Ratios.LowerCaseNotCounted | gc.py:39-44 | lower-case g/c are not counted: "gcgc" has ratio 0 and its skew divides by zero |
| Ratios.FromName | gc.py:76-89 | a name lookup that succeeds returns the entry with that name; it fails only for names outside the registry |
| Ratios.NameRoundTrip | gc.py:76-89 | every registry entry is found again under its own name |
| Sliding.CursorBelowLength | gc.py:56-60 | cursor w + k*step passes the loop test iff k < WindowCount; WindowCount is 0 when w equals the length |
| Sliding.WindowCountBound | gc.py:56-60 | the loop makes at most len - w passes |
| Sliding.Windows | gc.py:57-58 | one window per visited cursor; window k has length w, starts at k*step and ends strictly before the end of the sequence |
| Sliding.CursorWindow | gc.py:57-60 | the slice taken at the k-th cursor is window k, and the next cursor is the (k+1)-th |
| Scan.EvalAll | gc.py:57-60 | success gives one value per window in order, each the metric of its window; failure is the error of the first window whose metric fails |
| Scan.EvalAllFirstFailure | gc.py:58 | if windows before k succeed and window k fails, the scan fails with window k's error |
| Scan.EvalAllDefined | gc.py:57-60 | if every window's metric is defined, the scan returns exactly those values |
| Scan.Calc | gc.py:47-62 | len < w gives "Wrong window size" whatever the other arguments; w < step (or step <= 0) gives "Wrong step" whatever the content; on success result k is the metric of window k and there are WindowCount results; a failure after valid checks is the error of the first window whose metric fails |
| Scan.CalcLoop | gc.py:55-62 | the while loop (cursor from w, strict test, advance by step, invariant cursor = w + len(results)*step) returns exactly `Calc` |
| Scan.CalcEvaluatesWindows | gc.py:55-62 | once both checks pass, the result is the in-order evaluation of the windows |
| Scan.RunLoopKeepsCollected | gc.py:56-60 | the loop as written (`RunLoop`) only appends: a returned series starts with what was already collected and gains at most one value per pass |
| Scan.CalcAsWritten | gc.py:47-62 | the script's own checks: len < w gives "Wrong window size", w < step gives "Wrong step", w = len gives an empty series |
| Scan.RunLoopMatchesWindows | gc.py:55-60 | from the k-th cursor on, the loop as written produces the metrics of windows k, k+1, ... appended to what it has collected |
| Scan.AsWrittenAgreesForPositiveStep | gc.py:47-62 | for any positive step, the script's calc returns within len passes and equals the corrected `Calc` |
| Scan.RunLoopStuck | gc.py:56-60 | with step 0 the cursor never moves, so the loop never returns once the first window is defined |
| Scan.StepZeroHangs | gc.py:50-51 | the script lets step 0 through when w < len and, once the first window's metric is defined, never returns; the corrected `Calc` refuses it with "Wrong step" |
| Scan.StepZeroRaises | gc.py:50-60 | with step 0, w < len and a first window whose metric is undefined, the script raises the division by zero on its first pass; the corrected `Calc` refuses with "Wrong step" |
| Scan.StepZeroRaisesExamples | gc.py:50-60 | "AAAAA", window 4, step 0 under the skew and "A", window 0, step 0 under the ratio both raise the division by zero on the first pass |
| Scan.StepZeroExample | gc.py:50-60 | "ACGTA" with window 4 and step 0 never returns under the script's checks |
| Scan.FullWindowGivesNothing | gc.py:57 | a window as long as the sequence is never evaluated: the result is empty |
| Scan.ExampleWindows | gc.py:55-60 | "ACGTACGTAC", window 4, step 2 evaluates exactly "ACGT", "GTAC", "ACGT" |
| Scan.ExampleHalf | gc.py:39-40 | "ACGT" and "GTAC" each have GC ratio 1/2 |
| Scan.ExampleScan | gc.py:55-60 | for any metric giving 1/2 on "ACGT" and "GTAC", the scan of "ACGTACGTAC", window 4, step 2 is exactly three halves |
| Scan.ExampleThreeWindows | gc.py:47-62 | the scan of "ACGTACGTAC", window 4, step 2, GC ratio is exactly [0.5, 0.5, 0.5] |
| Scan.GcRatioScanSucceeds | gc.py:39-40 | with valid parameters the GC-ratio scan never divides by zero and every value lies in [0, 1] |
| Scan.GcSkewScanDefined | gc.py:43-44 | with valid parameters the GC-skew scan succeeds iff every window holds a G or C; otherwise it fails with division by zero |

## Left out

- `download_seq` (gc.py:14-26): the remote fetch and the cache-file check and write are network and file I/O through a foreign library.
- `get_seq` (gc.py:29-36): the file existence check and FASTA parsing are foreign calls. The model takes the sequence as given input.
- `gc_plot` and the `title`, `ylim` and `ylabel` entries of `ratio_funcs` (gc.py:65-89): plotting and display metadata only.
- The command-line block (gc.py:92-102): argument parsing glue. Its `choices` restriction corresponds to `FromName`.
- `error` (gc.py:9-11): printing and process exit become a `Failure` value. `Error.Message` gives the message passed to `error` (the script prints it after `[ERROR] `).
- The `not ratio_func` check (gc.py:52-53): the metric is chosen from a closed datatype, so the check cannot fail.
- Floating point: the divisions are exact rationals. IEEE-754 rounding is not modelled.
- CalcAsWritten: window sizes and steps are naturals. A negative window or step makes Python slices index from the end of the string, and that is not modelled. The corrected `Calc` takes any integers and refuses these cases.
- CalcAsWritten: non-termination is modelled as "still running after any number of passes" (`Running` for every fuel), not as a diverging function.

## Findings

| source | as written | input that shows it | evidently intended | confidence | as-written member | corrected member |
|---|---|---|---|---|---|---|
| gc.py:50-51 | the step check refuses only `window_size < step`, so a zero step reaches the loop and the cursor never advances | seq "ACGTA", window 4, step 0: the cursor stays at 4 < 5 for ever | refuse a non-positive step as "Wrong step", so the scan always ends | not executed | Scan.StepZeroHangs | Scan.Calc |

The corrected `Calc` is the one the rest of the model uses. `CalcLoop`
implements it as a terminating loop. `AsWrittenAgreesForPositiveStep` shows
that the correction changes nothing for positive steps. Where the step is
zero the two differ in three ways. With w < len and a defined first window, the
script never returns (`StepZeroHangs`). With w < len and an undefined first
window, for example `"AAAAA"` with window 4 under the skew, the script raises
the division by zero on its first pass (`StepZeroRaises`). With a window as
long as the sequence, the script returns an empty series. In all three cases
the corrected check refuses the call with "Wrong step".
