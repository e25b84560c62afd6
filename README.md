# Cpk calculator — a verified model of the calculation core

The calculator reads a column of measurements, summarizes it and reports
the process capability index Cpk against optional lower and upper
specification limits (LSL, USL). The measurements come either from one
column of a CSV file or from text the user pastes. This project models the
calculation core of `app.py` in Dafny and proves what it computes:

- `numbers.dfy`, module `Numbers`. A "float that may be NaN" is
  `Num = Option<real>`: None stands for the source's NaN and None. The
  module also holds a few facts about real arithmetic: square, quotient
  and monotonicity.
- `tokenizer.dfy`, module `Tokenizer`. The free-text tokenizer (app.py:141)
  in four steps:
  - newlines become commas;
  - the text is split on commas with Python's `split` semantics;
  - every piece is stripped of Python's `isspace` whitespace;
  - blank pieces are dropped.
- `statistics.dfy`, module `Statistics`. `summarize` (app.py:33-50):
  - missing entries are dropped;
  - count, mean, sample standard deviation (divisor n − 1), minimum and
    maximum are reported, each None where there is too little data.
- `capability.dfy`, module `Capability`. `compute_cpk` (app.py:14-30),
  modelled as a method that builds the list of one-sided indices by
  conditional appends and reduces it with a NaN-propagating minimum. The
  method is proved equal to the textbook definition of Cpk: the distance
  from the mean to the nearer limit over three sigma.
- `calculator.dfy`, module `Calculator`. The two entry points:
  - the CSV column path (app.py:99-105);
  - the pasted-text path (app.py:141-148).
  Both are tokens → numbers → `summarize` → `compute_cpk`.

Two details of the code that the model follows:

- The code turns newlines into commas and splits once (app.py:141).
  `Tokenizer.TokensAppend` shows that a newline and a comma cut the text in
  the same way, so splitting on newlines and then on commas gives the same
  tokens.
- Tokens that fail conversion stay in `values` as NaN (app.py:142). Only
  `summarize` drops them (app.py:35). `Calculator.PresentAfterConvert`
  shows the statistics see exactly the tokens that parse, in order.

Two operations of the numeric libraries are parameters, because they are
foreign code:

- the square root applied by `np.std`, as `sqrt: real -> real`. Properties
  of `std` hold whenever `IsSquareRoot(sqrt)`: the result is non-negative
  and squares back to its argument.
- the number parser of `pd.to_numeric(..., errors="coerce")`, as
  `parse: string -> Num`.

## Model

| member | source | states |
|---|---|---|
| Tokenizer.NewlinesToCommas | app.py:141 | same length; no newline left; every other character kept; a comma in the result exactly where the text had a comma or a newline |
| Tokenizer.NewlinesToCommasAppend | app.py:141 | a delimiter between two texts becomes a single comma between their converted forms |
| Tokenizer.Split | app.py:141 | splitting always yields at least one piece, as Python's split does on an empty string |
| Tokenizer.SplitAvoids | app.py:141 | no piece contains the separator, nor any character absent from the text |
| Tokenizer.JoinSplit | app.py:141 | joining the pieces with the separator gives the text back |
| Tokenizer.SplitJoin | app.py:141 | splitting a join of separator-free pieces gives the pieces back, empty pieces included |
| Tokenizer.SplitWithoutSeparator | app.py:141 | a text without the separator is one piece |
| Tokenizer.SplitAppend | app.py:141 | an occurrence of the separator cuts the pieces there: pieces of a + sep + b are the pieces of a then those of b |
| Tokenizer.TrimStart | app.py:141 | the result is a suffix of the text; what was removed is all whitespace; the result does not start with whitespace |
| Tokenizer.TrimEnd | app.py:141 | the result is a prefix of the text; what was removed is all whitespace; the result does not end with whitespace |
| Tokenizer.Strip | app.py:141 | the stripped text is empty or non-empty with no whitespace at either end |
| Tokenizer.StripBlank | app.py:141 | stripping leaves nothing exactly when the text is all whitespace, which is when the comprehension's filter drops the piece |
| Tokenizer.StripChars | app.py:141 | every character of the stripped text occurs in the text |
| Tokenizer.StripPadded | app.py:141 | whitespace around a text without surrounding whitespace is exactly what stripping removes |
| Tokenizer.StripIdempotent | app.py:141 | stripping twice is stripping once |
| Tokenizer.KeepNonBlank | app.py:141 | no more tokens than pieces; every token is non-empty without whitespace at either end |
| Tokenizer.KeepNonBlankAvoids | app.py:141 | a character absent from every piece is absent from every token |
| Tokenizer.KeepNonBlankAppend | app.py:141 | tokens of concatenated piece lists are the concatenated tokens, so order is kept |
| Tokenizer.Tokens | app.py:141 | every token is non-empty, has no leading or trailing whitespace, and contains no comma or newline |
| Tokenizer.TokensAppend | app.py:141 | tokens of a + delimiter + b are the tokens of a followed by those of b, for a comma or a newline |
| Tokenizer.TokensOfField | app.py:141 | a delimiter-free field gives no token if blank, otherwise exactly its stripped self |
| Tokenizer.TokensOfPaddedField | app.py:141 | a value padded with whitespace inside a field is recovered exactly as one token |
| Statistics.Present | app.py:35 | keeps exactly the present values; never longer than the input; as long as the input exactly when nothing is missing |
| Statistics.PresentAppend | app.py:35 | dropping missing entries commutes with concatenation, so order is kept |
| Statistics.Mean | app.py:46 | the mean times the number of values is their sum; the mean of equal values is that value |
| Statistics.SampleVariance | app.py:47 | the variance with divisor n − 1, whose square root `np.std(arr, ddof=1)` reports: never negative, and n − 1 times it is the sum of squared deviations from the mean |
| Statistics.Minimum | app.py:48 | the minimum is one of the values and no value is below it |
| Statistics.Maximum | app.py:49 | the maximum is one of the values and no value is above it |
| Statistics.Summarize | app.py:33-50 | count is the number of present entries; mean, min and max are None exactly when count is 0; std is present exactly when count is at least 2 |
| Statistics.MeanBetweenExtremes | app.py:46-49 | minimum ≤ mean ≤ maximum for every non-empty list |
| Statistics.SingleValue | app.py:46-49 | a single value is its own mean, minimum and maximum |
| Statistics.SampleVarianceSign | app.py:47 | the sample variance (divisor n − 1) is never negative, and is zero exactly when all values are equal |
| Statistics.SummarizeLocation | app.py:44-49 | with count ≥ 1: mean is the mean of the present values; min ≤ mean ≤ max; min and max are present values bounding all the others |
| Statistics.SummarizeSingle | app.py:44-49 | with count = 1: mean = min = max = the single present value |
| Statistics.SummarizeSpread | app.py:47 | with count ≥ 2 and a square root: std ≥ 0 and std² is the sample variance; std = 0 exactly when all present values are equal, positive otherwise |
| Statistics.SummarizeIgnoresMissing | app.py:34-35 | inserting a missing entry anywhere leaves the whole summary unchanged |
| Statistics.SummarizeExample | app.py:33-50 | 1, NaN, 2, 3 gives count 3, mean 2, min 1, max 3, std = sqrt(1) |
| Capability.UpperIndex | app.py:24-25 | present exactly when the mean is; non-negative exactly when the mean is not above USL |
| Capability.LowerIndex | app.py:26-27 | present exactly when the mean is; non-negative exactly when the mean is not below LSL |
| Capability.NanMin | app.py:30 | present exactly when every entry is; then it is an entry and no entry is below it |
| Capability.CapabilityIndex | app.py:16-17 | defined exactly when sigma is usable, the mean is known and a limit is given; then 3σ·Cpk fits inside every given limit and reaches one of them exactly |
| Capability.ComputeCpk | app.py:14-30 | None when sigma is absent or not positive, or no limit is given; the one-sided index when one limit is given; with both, present exactly when the mean is, ≤ both one-sided indices and equal to one of them; always equal to the textbook Cpk |
| Capability.OneSidedMinimum | app.py:23-30 | the minimum of the two one-sided indices is the distance to the nearer limit over 3σ |
| Capability.CapabilityAtLeast | app.py:16-17 | Cpk ≥ c exactly when every given limit lies at least c·3σ from the mean on its own side |
| Capability.CapabilityNonNegative | app.py:16-17 | Cpk ≥ 0 exactly when the mean lies within every given limit |
| Capability.CapabilityExample | app.py:16 | mean 0, σ 0.1, limits ±0.3 give Cpk 1 |
| Calculator.Convert | app.py:142 | one value per token, each the parser's verdict on that token |
| Calculator.PresentAfterConvert | app.py:142-143 | the statistics see exactly the tokens the parser accepts, in order; failures are dropped |
| Calculator.Analyze | app.py:99-105 | stats is the summary of the column; Cpk is the textbook Cpk of its mean and std; None with fewer than two values or no limit; with a square root, present exactly when there are at least two values, not all equal, and a limit |
| Calculator.AnalyzeText | app.py:141-148 | the tokens are those of the text; count is the number of tokens that parse, at most the number of tokens; Cpk present exactly when at least two parsed values are not all equal and a limit is given |

## Left out

- The Streamlit interface (page setup, radio buttons, number inputs, tables, metrics, histogram, footer) and the CSV export with its download button: presentation and I/O.
- Reading the CSV file, the header/no-header fallback and the column choice: these are library parsing and user interaction. The model starts from the column's converted values.
- The conversion `pd.to_numeric` and the square root in `np.std` are parameters (`parse`, `sqrt`). Nothing is proved about their numerical behaviour.
- Floating point: values are unbounded reals. Rounding, infinities, and NaN arising from arithmetic (inf − inf) are not modelled. NaN in the inputs is modelled as None.
- Statistics.Summarize: the std properties hold only for a `sqrt` that is a square root (`IsSquareRoot`), because the square root is a parameter.
- Calculator.Analyze: "Cpk is None when all values are equal" holds over reals only. In IEEE doubles the mean of equal values can be off by one rounding step (0.1, 0.1, 0.1 has mean 0.10000000000000002), `np.std` then returns a tiny positive number, and the source reports a huge finite Cpk instead of NaN.
- Calculator.AnalyzeText: the same reals-only caveat applies to its "not all equal" condition for Cpk.
- Calculator.AnalyzeText: the check that the button was pressed and the display of the results are not modelled.
