# Aspect-ratio picker: a Dafny model

The extension adds a row of aspect-ratio buttons next to the width and height
fields of an image-generation web UI. It has two pieces of logic, and this
project models both and proves properties about them:

* **The button arithmetic** (`ARButton.apply`). A button stores a ratio `ar`.
  When it is clicked, it keeps one of the current dimensions and derives the
  other one:
  * a wide ratio (`ar > 1`) keeps the height and sets the width to `ar * h`;
  * a narrow ratio (`ar < 1`) keeps the width and sets the height to `ar * w`;
  * the square ratio sets both to the smaller dimension.

  Both results are then rounded. Module `ArButton` models this with `real`
  numbers. Python's `round` is a parameter `round: real -> int`, so every
  property holds for any rounding rule. Where a property needs something of
  `round`, the lemma says so: `Monotone` (rounding never swaps the order of two
  values) or `KeepsIntegers` (whole numbers stay as they are).
* **The ratio table** (`AspectRatioScript`). Two parallel class-level lists,
  `aspect_ratios` and `aspect_ratio_labels`, start with 1:1, 3:2, 4:3 and 16:9.
  Every time the UI is built, they are extended from `aspect_ratios.txt`:
  * a line whose first character is `#` is skipped;
  * any other line is stripped and split on `,` into exactly a label and a ratio;
  * the ratio is cut at its first `#` and converted with `float`;
  * the pair is appended unless its label or its ratio is already listed;
  * a line that cannot be unpacked into two fields, or whose ratio is not a
    number, raises `ValueError`, which ends the read. The pairs appended
    before that line stay.

  Module `AspectRatios` models this part:
  * the class `AspectRatioScript`, with `seq` fields and a looping method `ReadAspectRatios`;
  * the value-level functions that specify that method: `ParseLine`, `Merged`, `FirstError` and `Read`;
  * the lemmas about those functions.

  Module `Text` models the Python string built-ins the reader uses: `strip`,
  `split`, the cut at `#`, and the decimal part of `float`.

The source and the extension's design notes disagree in three places. The
model follows the source in each:

* A malformed line aborts the read. It is not skipped.
* A blank line is malformed, since it splits into one empty field. It is not skipped.
* A ratio written as a fraction (`16/9`) is not evaluated. `float` rejects it.

The design notes also cover resolution presets, ratio reduction for display,
a two-point calculator and writing default files. None of these exists in
scripts/sd-webui-ar.py, so none is modelled.

## Model

| member | source | states |
|---|---|---|
| `ArButton.Min` | scripts/sd-webui-ar.py:24 | `min([w, h])` is at most both values and equal to one of them |
| `ArButton.Resize` | scripts/sd-webui-ar.py:19-25 | the pair before rounding: `ar > 1` keeps the height and the width is `ar` times it; `ar < 1` keeps the width and the height is `ar` times it; `ar == 1` gives the smaller dimension twice |
| `ArButton.ApplyRatio` | scripts/sd-webui-ar.py:18-27 | `ar > 1`: height is `round(h)`, width is `round(ar*h)`. `ar < 1`: width is `round(w)`, height is `round(ar*w)`, a multiplication. `ar == 1`: both are `round(min(w, h))` |
| `ArButton.ResizeRatioAsWritten` | scripts/sd-webui-ar.py:19-25 | before rounding, width/height equals `ar` when `ar >= 1`. When `0 < ar < 1` it equals `1/ar`: height/width is `ar` |
| `ArButton.ApplyRatioNeverPortrait` | scripts/sd-webui-ar.py:18-27 | for non-negative sizes and a monotone `round`, the returned width is never below the returned height, whatever `ar` is |
| `ArButton.ApplyRatioTwice` | scripts/sd-webui-ar.py:18-27 | on whole-number sizes, clicking the same button again returns the same pair (when `round` keeps integers) |
| `ArButton.ApplyRatioNarrowCounterexample` | scripts/sd-webui-ar.py:21-22 | a 9:16 button (`ar = 0.5625`) on 1024 x 1024 gives 1024 x 576, which is 16:9 |
| `ArButton.ApplyRatioIntended` | scripts/sd-webui-ar.py:18-27 | corrected `apply`: as `ApplyRatio`, except that for `ar < 1` the height is `round(w / ar)` |
| `ArButton.ResizeIntendedRatio` | scripts/sd-webui-ar.py:19-25 | corrected: before rounding, width/height equals `ar` for every positive ratio, and one given dimension is kept |
| `ArButton.ApplyRatioIntendedOrientation` | scripts/sd-webui-ar.py:18-27 | corrected: with a monotone `round`, a narrow ratio gives width <= height and a wide or square one gives width >= height |
| `Text.LeadingSpace` | scripts/sd-webui-ar.py:47 | the whitespace that `strip()` removes in front: every character before the returned index is whitespace, and the character at it (if any) is not |
| `Text.TrailingSpace` | scripts/sd-webui-ar.py:47 | the whitespace that `strip()` removes at the end: every character from the returned index on is whitespace, and the one before it (if any) is not |
| `Text.Strip` | scripts/sd-webui-ar.py:47 | `str.strip()`: the result neither starts nor ends with whitespace |
| `Text.StripSlice` | scripts/sd-webui-ar.py:47 | `strip()` returns a slice of its argument, and only whitespace lies outside that slice |
| `Text.StripKeepsCount` | scripts/sd-webui-ar.py:47 | stripping keeps every comma, so the field count is decided by the raw line |
| `Text.StripAround` | scripts/sd-webui-ar.py:47 | stripping a text around a non-space character strips each side separately |
| `Text.StripPadding` | scripts/sd-webui-ar.py:47 | `strip()` ignores whitespace padding on both sides |
| `Text.Split` | scripts/sd-webui-ar.py:47-49 | `str.split(sep)`: at least one part, no part holds `sep`, and the first part is the text before the first `sep` |
| `Text.SplitJoin` | scripts/sd-webui-ar.py:47-49 | joining the parts of a split with the separator gives back the input, so nothing is lost or reordered |
| `Text.SplitCount` | scripts/sd-webui-ar.py:47 | `split` gives one more part than there are separators |
| `Text.SplitNoSeparator` | scripts/sd-webui-ar.py:47 | a text without the separator splits into itself alone |
| `Text.SplitAppend` | scripts/sd-webui-ar.py:47 | a tail without separators only lengthens the last part |
| `Text.BeforeHash` | scripts/sd-webui-ar.py:48-49 | the ratio field cut at `#` is its longest prefix without `#`, and the cut is made at a `#` |
| `Text.BeforeHashIgnoresComment` | scripts/sd-webui-ar.py:48-49 | whatever follows a `#` does not change the cut text |
| `Text.ParseUnsigned` | scripts/sd-webui-ar.py:50 | the unsigned part of `float`: never negative. Its value for each form is given by the lemmas below |
| `Text.ParseDecimal` | scripts/sd-webui-ar.py:50 | `float(ratio)`: blank text is rejected, and only a leading `-` gives a negative number |
| `Text.ParseDecimalOfNat` | scripts/sd-webui-ar.py:50 | `float` of the decimal digits of a natural number `n` is `n` |
| `Text.ParseDecimalOfDecimal` | scripts/sd-webui-ar.py:50 | `float` of `whole.fraction` (digits on either side, not both sides empty) is `whole + fraction / 10^len(fraction)`, so `1.5` is 3/2 |
| `Text.ParseDecimalNegative` | scripts/sd-webui-ar.py:50 | a `-` in front of an unsigned number that ends in a non-space gives its negation |
| `Text.ParseDecimalPadding` | scripts/sd-webui-ar.py:50 | `float` ignores whitespace around the number (the model's whitespace is the `str.isspace` set, see the `Text.ParseDecimal` line under "## Left out"), as in `"3:2, 1.5 # c"` |
| `AspectRatios.ParseLine` | scripts/sd-webui-ar.py:44-50 | a line is skipped exactly when its raw first character is `#`, and a parsed label never holds a comma |
| `AspectRatios.ParseFields` | scripts/sd-webui-ar.py:47-50 | unpacking fails exactly when the split does not have two fields. An entry's label is field 0, and its ratio is `float` of field 1 cut at `#` |
| `AspectRatios.ParseLineFieldCount` | scripts/sd-webui-ar.py:47 | a non-comment line fails to unpack exactly when it does not hold exactly one comma |
| `AspectRatios.ParseLineWellFormed` | scripts/sd-webui-ar.py:43-50 | `label,ratio` plus a trailing newline reads back as that label and `float(ratio)`. If the ratio is not a number, the line fails with that ratio text |
| `Text.SplitAround` | scripts/sd-webui-ar.py:47 | `a,b` with no comma in `a` or `b` splits into exactly `[a, b]` |
| `AspectRatios.ParseLineIgnoresComment` | scripts/sd-webui-ar.py:47-49 | the text after a `#` does not change how a line is read, as long as it holds no comma |
| `AspectRatios.ParseDecimalRejectsFraction` | scripts/sd-webui-ar.py:50 | `float("16/9")` fails: ratio expressions are not evaluated |
| `AspectRatios.ParseLineExampleBlank` | scripts/sd-webui-ar.py:47 | a blank line has one field and fails to unpack |
| `AspectRatios.Defaults` | scripts/sd-webui-ar.py:31-32 | the built-in lists: four aligned pairs, no label and no ratio listed twice |
| `AspectRatios.AddIfNew` | scripts/sd-webui-ar.py:52-56 | one entry: appended to both lists exactly when neither its label nor its ratio is listed (otherwise nothing changes), and afterwards it is covered |
| `AspectRatios.Fold` | scripts/sd-webui-ar.py:43-56 | the loop on parsed lines: both old lists are prefixes of the new ones and grow by the same number of entries |
| `AspectRatios.Stop` | scripts/sd-webui-ar.py:43-50 | on parsed lines: no failure exactly when no line is malformed. Otherwise it names the first malformed line and its reason |
| `AspectRatios.FirstError` | scripts/sd-webui-ar.py:43-50 | the read fails exactly when some line is malformed, and it reports the first such line and why |
| `AspectRatios.Merged` | scripts/sd-webui-ar.py:43-56 | reading only appends: the old lists are prefixes of the new ones, both grow by the same number of entries, and aligned lists stay aligned |
| `AspectRatios.Read` | scripts/sd-webui-ar.py:34-56 | a missing file leaves the lists unchanged and reports nothing. Otherwise the lists only grow, and a failure names a line of the file |
| `AspectRatios.MergedSnoc` | scripts/sd-webui-ar.py:43-56 | line by line: after lines that all read well, one more line appends its entry exactly when the entry is new to the lists read so far, and changes nothing otherwise |
| `AspectRatios.FoldKeepsFirst` | scripts/sd-webui-ar.py:52-56 | of two entries with the same label, the first one wins: when the first entry is new it is appended, and the later entry then adds nothing, whatever its ratio |
| `AspectRatios.MergedInFileOrder` | scripts/sd-webui-ar.py:43-56 | the appended (label, ratio) pairs are entries of the file, in file order, each label next to the ratio of its own line |
| `AspectRatios.MergedCovers` | scripts/sd-webui-ar.py:52-53 | after reading, every entry before the first bad line has its label or its ratio listed. An entry is left out only as a duplicate |
| `AspectRatios.MergedKeepsDistinct` | scripts/sd-webui-ar.py:52-56 | reading never creates a duplicate label or a duplicate ratio |
| `AspectRatios.ReadIdempotent` | scripts/sd-webui-ar.py:34-56 | reading the same file a second time leaves both lists unchanged and fails, if at all, at the same line |
| `AspectRatios.MergedStopsAtError` | scripts/sd-webui-ar.py:47-50 | after a failed read, the lists are what reading only the lines before the failing one gives, and those lines read without failure |
| `AspectRatios.MergedSkipsComment` | scripts/sd-webui-ar.py:44-45 | inserting a `#` line anywhere leaves the lists unchanged. The read fails exactly when it did before, for the same reason, on the same line counted with the inserted one |
| `AspectRatios.DefaultsWellFormed` | scripts/sd-webui-ar.py:31-32 | starting from the built-in lists, the lists stay aligned and free of duplicate labels and ratios after any sequence of reads |
| `AspectRatios.AspectRatioScript.constructor` | scripts/sd-webui-ar.py:31-32 | the lists start as the four built-in entries |
| `AspectRatios.AspectRatioScript.ReadAspectRatios` | scripts/sd-webui-ar.py:34-56 | a missing file changes nothing. Otherwise the new lists are `Merged` of the old ones, the reported failure is `FirstError` of the file, and aligned lists stay aligned |
| `AspectRatios.BuildTwice` | scripts/sd-webui-ar.py:65 | building the UI twice with the same file leaves the same lists both times |

## Left out

- The UI wiring is not modelled: `title`, `show`, the row and buttons built in `ui`, the `click` binding and `after_component` (scripts/sd-webui-ar.py:58-80). It is host-framework plumbing.
- javascript/sd-webui-ar.js is not part of this model. It is a tooltip table and a DOM loop of the UI.
- File I/O is not modelled. `Path.exists`, `open` and `readlines` become the parameter `file: Option<seq<string>>`, where `None` is a missing file and each line keeps the newline `readlines` leaves on it.
- The exception is not modelled as an exception. The `ValueError` that escapes `read_aspect_ratios` and `ui` is returned as a `Failure` value. `BuildTwice` does not model that the host then gives up on the build.
- Floating point is not modelled. Ratios and sizes are exact reals, so duplicate ratios are compared exactly. In Python, `4/3` and `float("1.3333333333333333")` are equal floats; here they are different numbers. NaN and infinities do not exist.
- Text.ParseDecimal: it accepts only an optional sign with `digits`, `digits.`, `.digits` or `digits.digits`, surrounded by whitespace. It rejects exponents, `inf`/`nan`, underscores between digits and non-ASCII digits, which Python's `float` accepts. On such a line the model reports `NotANumber` where the source would go on. The other way round, the model strips the same whitespace around the number as `str.strip` (every `str.isspace` character), while `float` strips only space, `\t`, `\n`, `\v`, `\f` and `\r`. A ratio padded with another such character, such as U+001C in `a,\x1c1.5`, reads as 1.5 in the model, while in the source `float` raises `ValueError` and the read stops.
- ArButton.ApplyRatio: Python's `round` (round half to even) is left abstract as a parameter. No property depends on the rounding rule.
- ArButton.ResizeIntended: the corrected formula divides by `ar`, so it requires `ar != 0`. The corrected code would raise `ZeroDivisionError` for a ratio of 0.
- The per-instance view of the class attributes is not modelled. One `AspectRatioScript` object stands for the lists that all instances share. An instance-level rebinding of those attributes, which the source never does, is not modelled.
- The `ToolButton` and `scripts.Script` base classes are not part of this model.

## Findings

| source | as written | input that shows it | evidently intended | confidence | as-written member | corrected member |
|---|---|---|---|---|---|---|
| scripts/sd-webui-ar.py:22 | `h = self.ar*w`: for a narrow ratio the new height is `ar` times the width, so height/width is `ar` and width/height is `1/ar` | `ar = 0.5625` (9:16), `w = h = 1024`: the result is 1024 x 576, a 16:9 picture that is wider than tall | `h = w / ar`, so that width/height is `ar`, as in the wide branch | high (not executed) | `ArButton.ApplyRatioNarrowCounterexample` | `ArButton.ResizeIntendedRatio` |
