# XML to config converter, modelled in Dafny

The converter reads an XML document and writes a small configuration
language. It walks the element tree in document order (pre-order):

- a `comment` element becomes a `{{!--` / text / `--}}` block;
- a `const` element is checked and bound, and becomes `(def name value)`;
- a `dictionary` element becomes `$[`, one `  name : value,` line per `entry`
  child, and `]`, and binds every entry as a constant;
- an `expr` element holds a prefix expression such as `|+ a 10|`. It is
  evaluated against the constants bound so far and becomes
  `{{!-- |+ a 10| : 15 --}}`.

Names must match `^[a-zA-Z][a-zA-Z0-9]*$` and values `^\d+$`. The operators
are `+` (any number of operands), `-`, `*`, `/` (floor division), `mod` (floor
remainder) and `max` (any number of operands). The first error aborts the
whole conversion, and the output lines are joined with newlines.

The model has six modules:

- `Outcomes` (outcomes.dfy): `Option`, `Result`, and one `Error` variant per
  way the source fails.
- `Lexical` (lexical.dfy): the name and number grammars, as Python's anchored
  `re.match` reads them; decimal conversion both ways (`int`, `str`); and
  `str.strip`, `str.split()` and `str.join`.
- `Evaluator` (evaluator.dfy): `evaluate_expression`. Operands are an explicit
  union of integer and unresolved token. Results are an integer or, where
  Python produces one, a string.
- `Documents` (document.dfy): the element tree and its pre-order listing
  (`tree.iter()`).
- `Transcoder` (transcoder.dfy): `xml_to_config`.
  - `Step` and `Run` are the reference definition: one element's effect on
    the state (the constants and the output lines), and the left fold of
    that over the elements, stopping at the first error.
  - `Transcode` and `DictionaryBlock` are the source's two loops, written as
    loops and proved equal to that definition.
- `TranscoderProperties` (transcoder_properties.dfy): what each tag does and
  what the whole walk guarantees. A dictionary is also described a second
  way, as "pick the `entry` children, check them, print and bind the
  pairs", and that description is proved equal to the loop's fold.

Python's operators and regular expressions behave as follows, and the
model follows them:

- `*` with one integer and one unresolved token is Python string repetition,
  not a type error.
- `max` over operands that are all unresolved tokens is the lexicographically
  largest token.
- A name or value followed by one final newline passes its regular
  expression, because Python's `$` also matches before a final newline.
- A missing attribute, or a `comment` without text, fails the conversion.
  Python raises a `TypeError` or an `AttributeError` on `None` there.

## Model

| member | source | states |
|---|---|---|
| `Lexical.AnchorAllowsFinalNewline` | main.py:11-12 | a name (a number) is accepted exactly when it is one, or is one followed by a single newline |
| `Lexical.NumberValue` | main.py:63 | `int(value)` of an accepted value is its decimal value; a value accepted only because of its final newline is read without that newline |
| `Lexical.NatToStringReadsBack` | main.py:86 | `str(n)` is a digit string that reads back as n, with no leading zero, and `str(0)` is `0` |
| `Lexical.IntToStringReadsBack` | main.py:86 | `str(n)` is the numeral of n without leading zeros, preceded by `-` when n is negative |
| `Lexical.StripTrims` | main.py:16 | strip returns a slice of the input with only matching characters cut off before and after it; the result is empty exactly when every character matches, otherwise neither end matches, and a string with no matching end is unchanged |
| `Lexical.SplitTokens` | main.py:16 | every token of `str.split()` is non-empty and free of whitespace |
| `Lexical.SplitTakesWord` | main.py:16 | a maximal run of non-whitespace characters, followed by whitespace or the end, is exactly one token, ahead of the tokens of the rest |
| `Lexical.SplitSkipsSpace` | main.py:16 | whitespace before the tokens is skipped |
| `Lexical.SplitKeepsCharacters` | main.py:16 | the tokens together are exactly the non-whitespace characters of the input, in order |
| `Lexical.JoinShape` | main.py:88 | `"\n".join` has the lines' total length plus one separator per gap, returns a single line unchanged, and ends with the last line |
| `Lexical.JoinAppend` | main.py:88 | joining two non-empty runs of lines is joining each with one separator between them, so every line appears in order |
| `Evaluator.TokensOfAddition` | main.py:16 | `|+ a 10|` is read as the tokens `+`, `a`, `10` |
| `Evaluator.EvaluateAddition` | main.py:15-39 | `|+ a 10|` with a bound to 5 evaluates to 15 |
| `Evaluator.ShortExpressionRejected` | main.py:16-18 | fewer than three tokens is a malformed expression, and nothing else is |
| `Evaluator.OperandResolution` | main.py:22-24 | each operand is its binding if it has one; failing that, a digit string is its value; anything else stays unresolved |
| `Evaluator.EvaluateReadsOnlyItsOperands` | main.py:22 | two constant maps that agree on the expression's tokens give the same result |
| `Evaluator.ApplyOutcomes` | main.py:26-39 | an unknown operator is reported exactly when the operator is not one of the six; division by zero exactly when `/` or `mod` gets an integer and a zero divisor; only `*` and `max` yield a string |
| `Evaluator.UnknownOperatorRejected` | main.py:38-39 | an expression fails with the unknown-operator error exactly when its first token is not a supported operator |
| `Evaluator.AddIsSum` | main.py:26-27 | `+` is the sum of all operands, splits over any cut of the operand list, and is a type error if any operand is unresolved |
| `Evaluator.SumAppend` | main.py:27 | the sum of a concatenation is the sum of the sums |
| `Evaluator.BinaryIgnoresExtraOperands` | main.py:28-35 | `-`, `*`, `/` and `mod` depend only on the first two operands |
| `Evaluator.UnresolvedOperandFails` | main.py:26-35 | an unresolved operand read by `+`, `-`, `/` or `mod` is a type error |
| `Evaluator.RepeatShape` | main.py:30-31 | repeating s n times has length n times that of s (empty for n <= 0), starts with s, and has period of s's length |
| `Evaluator.SubtractMultiplyIntegers` | main.py:28-31 | `-` of two integers is the first minus the second, and `*` is their product |
| `Evaluator.MultiplyRepeatsToken` | main.py:30-31 | `*` of an integer and a token is that repetition in either order; `*` of any two tokens is a type error |
| `Evaluator.FloorDivRounds` | main.py:32-33 | `//` rounds toward negative infinity, for either sign of the divisor |
| `Evaluator.FloorModRemainder` | main.py:34-35 | `%` satisfies a == (a // b) * b + (a % b), with the remainder in the divisor's sign range |
| `Evaluator.DivModIdentity` | main.py:32-35 | `/` and `mod` on integers fail on a zero divisor and otherwise satisfy the division identity with the floor remainder |
| `Evaluator.MaxIntIsMaximum` | main.py:37 | the maximum of integers is one of them and no smaller than any |
| `Evaluator.MaxTextIsMaximum` | main.py:37 | the maximum of strings is one of them and no string is greater in lexicographic order |
| `Evaluator.LexLessTransitive` | main.py:37 | the string order that `max` uses is transitive |
| `Evaluator.LexLessTotal` | main.py:37 | any two distinct strings are ordered one way or the other |
| `Evaluator.LexLessIrreflexive` | main.py:37 | no string is less than itself |
| `Evaluator.MaxIsLargest` | main.py:36-37 | `max` succeeds exactly when the operands are all integers or all tokens, and yields an operand that no operand exceeds |
| `Documents.DescendantsAreListed` | main.py:52 | every element nested anywhere under the root is visited by the walk |
| `Documents.FlattenFromContains` | main.py:52 | every element under a later child is among the listing of the later children |
| `Documents.FlatDocument` | main.py:52 | a root whose children have no children is visited as the root followed by its children in order |
| `Documents.FlattenSize` | main.py:52 | the walk has exactly one visit per element of the tree |
| `Documents.ListedExactly` | main.py:52 | the walk visits the root and the elements of its children's subtrees, and nothing else |
| `Documents.ChildBlock` | main.py:52 | pre-order: the root comes first, and each child's subtree is visited as one contiguous block right after the subtrees of the earlier children |
| `Transcoder.Binding` | main.py:57-62 | a `const` or `entry` passes exactly when its name and value both match their patterns, and then yields its own two attribute strings |
| `Transcoder.DictionaryBlock` | main.py:67-81 | the dictionary loop computes exactly the dictionary block of the reference definition |
| `Transcoder.Transcode` | main.py:48-88 | the conversion loop computes exactly the reference conversion: the joined lines, or the first error |
| `Transcoder.AbortAt` | main.py:48-88 | an element that fails aborts the whole conversion with its own error |
| `Transcoder.RunStopsAtError` | main.py:52 | nothing after a failing element is processed |
| `Transcoder.EntryFoldStopsAtError` | main.py:68-75 | nothing after a failing entry is processed |
| `TranscoderProperties.Entries` | main.py:68-69 | the selected children are exactly the `entry` children |
| `TranscoderProperties.EntriesAppend` | main.py:68-69 | the entries of a concatenation are those of each part, in order: none is dropped, merged or moved |
| `TranscoderProperties.Bindings` | main.py:69-75 | checking a list of entries succeeds exactly when every entry passes, and then yields each entry's own pair, in order |
| `TranscoderProperties.BindingsFirstError` | main.py:69-75 | when checking fails, some entry fails with exactly that error and every entry before it passes |
| `TranscoderProperties.EntryFoldMatchesEntries` | main.py:68-79 | the loop over a dictionary's children equals checking the `entry` children, then printing one line per pair and binding the pairs in order |
| `TranscoderProperties.DictionaryStepMatchesEntries` | main.py:66-81 | a dictionary block is `$[`, the entry lines and `]`, with the pairs bound, or the first failing entry's error |
| `TranscoderProperties.BindAllKeys` | main.py:78 | binding pairs in turn adds exactly their names and leaves every other name's value alone |
| `TranscoderProperties.BindAllLastWins` | main.py:78 | a name bound more than once keeps the value of its last binding |
| `TranscoderProperties.LineFormats` | main.py:7-8 | the comment block, entry line and expression line have the exact text of the source's f-strings |
| `TranscoderProperties.CommentEmitsBlock` | main.py:53-54 | a `comment` appends one block with its whitespace-stripped text and binds nothing; without text it fails |
| `TranscoderProperties.ConstBindsAndEmits` | main.py:56-64 | a `const` succeeds exactly when name and value match; it then binds the name, overwriting any earlier value and keeping the others, and appends `(def name value)`; a bad name is reported before a bad value |
| `TranscoderProperties.DictionaryAcceptsExactly` | main.py:66-75 | a `dictionary` succeeds exactly when all its `entry` children pass, and otherwise fails with the first failing entry's error |
| `TranscoderProperties.DictionaryEmitsEntries` | main.py:66-81 | a `dictionary` that succeeds appends `$[`, the entry lines in document order, then `]`, and binds all entries in order over the existing constants |
| `TranscoderProperties.LinesOfEntries` | main.py:70-79 | when every entry passes, there is one line per entry, holding that entry's own name and value |
| `TranscoderProperties.ExprEmitsResult` | main.py:83-86 | an `expr` appends its expression and result, or fails with the evaluation's error; it binds nothing |
| `TranscoderProperties.OtherTagsAreInert` | main.py:52-86 | an element with any other tag changes nothing |
| `TranscoderProperties.StepExtendsOutput` | main.py:53-86 | one element only appends to the output |
| `TranscoderProperties.RunExtendsOutput` | main.py:52-86 | the output is append-only over the walk |
| `TranscoderProperties.RunAppend` | main.py:52 | walking a concatenation walks the second part from the state the first part leaves |
| `TranscoderProperties.RunThrough` | main.py:52 | a successful walk got through each of its prefixes, whose lines begin its output |
| `TranscoderProperties.ExprSeesEarlierBindings` | main.py:83-86 | an `expr` is evaluated against exactly the bindings made before it in document order, and its line follows their lines |
| `TranscoderProperties.NewlineNamesAreUnreachable` | main.py:16 | a name accepted with its final newline can never be an expression token |
| `TranscoderProperties.ConstThenExprDocument` | main.py:48-88 | a root holding `const a=5` and the expression `|+ a 10|` converts to `(def a 5)` and `{{!-- |+ a 10| : 15 --}}` on two lines |
| `TranscoderProperties.SingleConstDocument` | main.py:56-88 | a document that is one valid `const` converts to exactly `(def n v)`; a bad name or value fails it |

## Left out

- `parse_xml` and XML syntax errors: the model starts from the parsed element tree. Attribute-value normalisation and entity handling belong to the XML parser and are not modelled.
- `main`, argument parsing, and reading and writing files: I/O outside the conversion.
- `test.py` is not part of this model.
- Error message texts (they are in Russian in the source). Each failure is an `Error` variant carrying the offending name, value or operator.
- Only ASCII is modelled. Python's `\d` also accepts other Unicode decimal digits. `str.isdigit` accepts those and also digits such as `²`, which `int()` then rejects with `ValueError`. Where the model leaves such an operand unresolved, Python fails. Python's `str.split()` and `str.strip()` also treat `\x1c`-`\x1f` and Unicode spaces as whitespace.
- `Evaluator.ApplyOutcomes`: for `mod`, an unresolved left operand that contains `%` is a printf-style format in Python and can succeed. The model reports a type error for every unresolved left operand of `mod`.
- `Evaluator.RepeatShape`: Python raises `MemoryError` for a repetition too large to allocate, and `OverflowError` for a count beyond `sys.maxsize` or a result too long to represent. The model has unbounded strings and counts.
- `Lexical.NumberValue`, `Lexical.DigitsValue`, `Transcoder.Render`: recent Python versions (3.11 and the 2022 security releases of 3.7-3.10) raise `ValueError` for `int()` of a digit string longer than 4300 digits, and for `str()` of an integer that large, as in an f-string. This affects main.py:24, 63, 78 and 86. The model has no such limit and succeeds on both.
