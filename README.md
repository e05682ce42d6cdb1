# tddft_process in Dafny

A model of `extract-tddft-process.py`, which post-processes the log of a
TD-DFT calculation. The script works in four steps:

1. It selects the lines that start with ` Excited State `.
2. `clean_data` tokenises each line with `strip().split()`. It then keeps
   tokens 2, 4, 6, 8 and 9 as state number, energy, wavelength, oscillator
   strength and `<S**2>`, and converts them with `int`/`float`.
3. `filter_real_excited` keeps the states with `<S**2> <= 2.6`.
4. It builds a synthetic spectrum over the integer wavelengths 200..1100 nm:
   - one Lorentzian line per state (`HWHM = 18`, `SCALER = 1`), peaked at the
     state's wavelength with the state's strength as height;
   - the lines summed at every grid point;
   - the spectrum divided by its maximum (`get_T`);
   - `-log10(1 - x)` of the raw spectrum (`get_abs`).

The project has five modules:

- `Wrappers` (`wrappers.dfy`): `Option` and `Result`.
- `Text` (`text.dfy`): Python's whitespace set, `strip()`, `split()`, and the
  `grep` line predicate.
- `Numbers` (`numbers.dfy`): `int(s)` and `float(s)` as left-to-right
  scanners over the whitespace-free tokens.
- `ExcitedStates` (`states.dfy`): the record type, the per-line conversion,
  `clean_data`, and `filter_real_excited`.
- `Spectrum` (`spectrum.dfy`): the line shape, `map_reduce_peaks`,
  `gen_spec`, the grid, `get_T`, and `gen_whole_set` together with its error
  paths.

All numbers are exact: a Dafny `real` stands for the double the program
computes. The modelled errors are:

- `IndexError` when no row reaches token 9;
- a missing cell in a short row;
- `ValueError` from a failed conversion, reported for the first column (in
  the order `clean_data` converts them) that fails in any row;
- `ZeroDivisionError` in `get_T`;
- the `log10` domain error in `get_abs`.

`clean_data` converts column by column. `ExcitedStates.ConvertLines` works
line by line instead and keeps the lowest-ranked error it has seen. Its
contract shows that this gives the same verdict.

## Model

| member | source | states |
|---|---|---|
| Text.TrimLeft | extract-tddft-process.py:35 | the result is a suffix of the input, everything dropped is whitespace, and the result does not start with whitespace |
| Text.TrimRight | extract-tddft-process.py:35 | the result is a prefix of the input, everything dropped is whitespace, and the result does not end with whitespace |
| Text.Split | extract-tddft-process.py:35 | every token is non-empty and free of whitespace |
| Text.SplitConcat | extract-tddft-process.py:35 | the tokens written one after another are the line with its whitespace removed (nothing but whitespace is lost) |
| Text.SplitJoin | extract-tddft-process.py:35 | splitting undoes joining whitespace-free tokens with a whitespace separator |
| Text.SplitSkipsLeading | extract-tddft-process.py:35 | leading whitespace does not change the tokens |
| Text.SplitSkipsTrailing | extract-tddft-process.py:35 | trailing whitespace does not change the tokens |
| Text.StripThenSplit | extract-tddft-process.py:35 | `strip()` before `split()` yields the same tokens as `split()` alone |
| Text.SplitInterleave | extract-tddft-process.py:35 | whatever non-empty whitespace runs stand before the tokens, splitting recovers exactly the tokens |
| Text.TokenOfPrefix | extract-tddft-process.py:35 | a whitespace-free run followed by whitespace or the end is exactly the next token |
| Text.GrepExcited | extract-tddft-process.py:25-26 | every printed line matches `^ Excited State `, and there are at most as many as input lines |
| Text.GrepExcitedExact | extract-tddft-process.py:25 | a line is printed iff it is in the input and matches the pattern |
| Text.GrepExcitedAppend | extract-tddft-process.py:25-26 | the selection works line by line and keeps order: it distributes over concatenation |
| Text.SelectedLineTokens | extract-tddft-process.py:25-35 | a selected line's first two tokens are `Excited` and `State` |
| Numbers.ScanDigits | extract-tddft-process.py:39 | digits are accepted iff the text is all digits, and their value is read most-significant first |
| Numbers.ParseIntAccepts | extract-tddft-process.py:39 | `int` accepts exactly an optional sign followed by one or more digits |
| Numbers.ParseIntRoundTrip | extract-tddft-process.py:39 | `int(str(i)) == i` for every integer |
| Numbers.NatToStringRoundTrip | extract-tddft-process.py:39 | the decimal rendering of `n` reads back as `n` |
| Numbers.ScanIntDigits | extract-tddft-process.py:40-43 | the float scanner reads a run of integer digits into the mantissa |
| Numbers.ScanFracDigits | extract-tddft-process.py:40-43 | the float scanner reads fraction digits into the mantissa and counts them |
| Numbers.ScanFixed | extract-tddft-process.py:40-43 | scanning `<ip>.<frac>` yields mantissa `ip·10^|frac| + frac` with `|frac|` fraction digits and no exponent |
| Numbers.ParseFloatUnsigned | extract-tddft-process.py:40-43 | without a sign, `float(s)` is the value of what the scanner read |
| Numbers.ParseFixedRoundTrip | extract-tddft-process.py:40-43 | `float` of a signed fixed-point text such as `-0.0012` is its exact decimal value |
| ExcitedStates.DropLast | extract-tddft-process.py:39 | `s[:-1]` drops exactly the last character, and leaves `""` as `""` |
| ExcitedStates.DropFirst | extract-tddft-process.py:42-43 | `s[k:]` drops exactly the first k characters, and is `""` when the text is shorter |
| ExcitedStates.ParseTokens | extract-tddft-process.py:37-43 | a row is short iff it has fewer than 10 tokens; any other failure is a conversion error |
| ExcitedStates.ParseLine | extract-tddft-process.py:35-43 | the same, for a whole line after tokenising |
| ExcitedStates.ParseTokensAccepts | extract-tddft-process.py:37-43 | a row gives a record iff it has at least 10 tokens and all five selected cells convert (state without its last character through `int`, energy and wavelength through `float`, strength and S**2 without their affixes through `float`) |
| ExcitedStates.ParseTokensReports | extract-tddft-process.py:39-43 | a full row reports column c iff c's cell fails to convert and every column converted before it (state, wavelength, energy, strength, S**2) succeeds |
| ExcitedStates.ParseLineAccepts | extract-tddft-process.py:35-43 | ParseTokensAccepts for a log line's tokens |
| ExcitedStates.ParseLineReports | extract-tddft-process.py:35-43 | ParseTokensReports for a log line's tokens |
| ExcitedStates.OnlySelectedTokensMatter | extract-tddft-process.py:37 | only tokens 2, 4, 6, 8 and 9 affect a row's record |
| ExcitedStates.FieldsOfRow | extract-tddft-process.py:37-43 | a row whose state, energy, wavelength, strength and S**2 cells convert gives exactly the record of those values |
| ExcitedStates.StateNumberRoundTrip | extract-tddft-process.py:39 | a state token `<n>:` gives state number n |
| ExcitedStates.SampleRecord | extract-tddft-process.py:37-43 | the tokens of the log line ` Excited State   1:  Singlet-A  3.5937 eV  345.00 nm  f=0.0012  <S**2>=0.000` give state 1, 3.5937 eV, 345 nm, strength 0.0012, S**2 0 |
| ExcitedStates.SampleLineRecord | extract-tddft-process.py:35-43 | any line made of those tokens, each preceded by a non-empty run of whitespace (such as the line above), converts to that record |
| ExcitedStates.ConvertLines | extract-tddft-process.py:36-43 | the table comes out iff every line converts, with one record per line in order; otherwise: IndexError iff every row is short, the missing cell iff some rows are short and some are not, else an error that occurs in some line and whose column comes first in conversion order |
| ExcitedStates.CleanData | extract-tddft-process.py:30-44 | `clean_data`: the same contract, stated for tokenised log lines through ParseLine |
| ExcitedStates.FilterRealExcited | extract-tddft-process.py:46-47 | every kept record has `<S**2> <= 2.6`, and there are at most as many as input records |
| ExcitedStates.KeptPositionsIncrease | extract-tddft-process.py:46-47 | the kept positions lie inside the table and increase strictly |
| ExcitedStates.KeptPositionsExact | extract-tddft-process.py:46-47 | a position is kept iff its record has `<S**2> <= 2.6` |
| ExcitedStates.FilterAtKeptPositions | extract-tddft-process.py:46-47 | the filtered table is the input read at the kept positions |
| ExcitedStates.FilterIsSubsequence | extract-tddft-process.py:46-47 | the filter's result is the order-preserving subsequence of exactly the records with `<S**2> <= 2.6` |
| ExcitedStates.FilterAppend | extract-tddft-process.py:46-47 | filtering distributes over concatenation |
| ExcitedStates.FilterKeepsReal | extract-tddft-process.py:46-47 | a table whose records all pass is unchanged |
| ExcitedStates.FilterIdempotent | extract-tddft-process.py:46-47 | filtering twice is filtering once |
| Spectrum.LorentzianAtPeak | extract-tddft-process.py:56 | at the peak the line equals intensity·SCALER |
| Spectrum.LineShapeSymmetric | extract-tddft-process.py:56 | the line shape is symmetric in the distance from the peak |
| Spectrum.LorentzianMirror | extract-tddft-process.py:56 | two wavelengths mirrored about the peak get the same value |
| Spectrum.LorentzianBounds | extract-tddft-process.py:56 | a line of non-negative intensity lies between 0 and its height |
| Spectrum.LorentzianHalfMaximum | extract-tddft-process.py:12-56 | HWHM = 18 nm from the peak, the line is at half its height |
| Spectrum.LineShapeFalls | extract-tddft-process.py:56 | a line of positive intensity falls strictly with the distance from its peak |
| Spectrum.SumMonotone | extract-tddft-process.py:68 | `sum` is monotone in its terms |
| Spectrum.SumNonNegative | extract-tddft-process.py:68 | a `sum` of non-negative terms is non-negative |
| Spectrum.SumScale | extract-tddft-process.py:68 | `sum` commutes with scaling by a constant |
| Spectrum.SumAtLeastTerm | extract-tddft-process.py:68 | a `sum` of non-negative terms is at least each term |
| Spectrum.MapReduceNoPeaks | extract-tddft-process.py:60-68 | without peaks or without intensities the value is 0 |
| Spectrum.MapReduceAddPeak | extract-tddft-process.py:60-68 | one more peak adds exactly its own line |
| Spectrum.MapReduceBounds | extract-tddft-process.py:60-68 | with non-negative intensities the value lies between 0 and SCALER times the total intensity of the paired peaks |
| Spectrum.MapReduceAtLeastEachLine | extract-tddft-process.py:60-68 | with non-negative intensities the value is at least each peak's own line |
| Spectrum.GenSpec | extract-tddft-process.py:70-76 | one value per wavelength, in order; without peaks the spectrum is flat zero; with non-negative intensities every value lies between 0 and SCALER times the total intensity of the paired peaks |
| Spectrum.MapReduceBoundsEverywhere | extract-tddft-process.py:60-68 | with non-negative intensities the bounds of MapReduceBounds hold at every wavelength |
| Spectrum.Grid | extract-tddft-process.py:16-17 | `range(WAVE_START, WAVE_END + 1)` (line 92): 901 increasing wavelengths, exactly the integers from 200 to 1100 |
| Spectrum.Max | extract-tddft-process.py:79 | `max` returns an element that bounds every element |
| Spectrum.GetTFails | extract-tddft-process.py:78-79 | `get_T` fails iff there are values and their maximum is 0 |
| Spectrum.GetTInverse | extract-tddft-process.py:78-79 | `get_T` keeps the length, and multiplying back by the maximum restores the spectrum |
| Spectrum.GetTNormalises | extract-tddft-process.py:78-79 | maximal values map to 1; with a positive maximum nothing exceeds 1, and non-negative values stay non-negative |
| Spectrum.DivideByBound | extract-tddft-process.py:79 | dividing by a non-zero upper bound sends the bound to 1 and, for a positive bound, keeps values at most 1 and non-negative values non-negative |
| Spectrum.GenWholeSetShape | extract-tddft-process.py:85-96 | ZeroDivisionError iff the spectrum's maximum is 0; the `log10` domain error iff the maximum is not 0 and some raw spectrum value is at least 1; otherwise the columns are the grid, the spectrum and its normalisation, with 901 rows |
| Spectrum.NoStatesNoSpectrum | extract-tddft-process.py:85-96 | with no excited states left, `gen_whole_set` divides by zero |
| Spectrum.StrongLineBreaksAbsorbance | extract-tddft-process.py:81-94 | with non-negative strengths, a state of strength at least 1 at an integer wavelength on the grid makes `get_abs` fail |

## Left out

- Running `grep` through a subprocess, reading `sys.argv`, decoding the output and `splitlines()`: `Text.GrepExcited` works on a list of lines that is already split.
- Text.GrepExcited: when no line matches, `grep` exits with status 1 and `check_output` raises `CalledProcessError`; the model returns the empty list instead, which `clean_data` then reports as the IndexError (NoColumns).
- Writing the CSV files, plotting, and the final `pd.concat` of the script's main block: these are output only.
- `gen_whole_set`'s `pd.concat` and column naming: the model returns the three modelled columns as a record.
- Spectrum.GenWholeSet: the `Absorbance` values (`-log10(1 - x)`) are not modelled, because there is no logarithm over exact reals; only when `get_abs` fails is modelled.
- Floating point: every value is an exact real. Rounding, the float32 downcast of `pd.to_numeric(..., downcast='float')` and double overflow are not captured.
- ExcitedStates.CleanData: a ragged table, where some rows are shorter than 10 tokens but others are not, is reported as the ShortRow error. pandas would instead pad such rows with missing values, and conversion then fails or yields NaN. NaN is not modelled.
- Numbers.ParseInt: the integers are unbounded. The int64 overflow of `astype(int)` is not modelled.
- Numbers.ParseInt and Numbers.ParseFloat accept only ASCII digits. They do not model underscores between digits, `inf`/`nan` spellings, non-ASCII digits, or the surrounding whitespace that `int`/`float` tolerate (tokens never contain whitespace).
- `pd.to_numeric` on the energy and wavelength columns is modelled as `float`. Its own extensions to the grammar are not modelled.
- ExcitedStates.ConvertLines: when rows are short and some other column also fails, the missing cell is taken to be reported first.
- Spectrum.Max: Python's `max` returns the first maximal element. Over exact reals only its value matters, and the model states only that value.
