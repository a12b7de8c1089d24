# mdoc tokenizer — a Dafny model

mdoc is a small document language: `"""` multi-line comments, `;` single-line
comments, `$name: value` variable definitions, `#`/`##`/`###` headings closed by
the same marks and a blank line, `@name(key=value, ...)` widgets, and empty
lines. `mdoc/parser.py` turns a text into a list of tokens. Its `parse` function
tries six readers, in a fixed order, on the text that is still unread. The first
reader that recognises its construct either raises a `SyntaxError` or hands back
three things: the rest of the text, the new offset, and a token. Every reader is
built on an anchored regular expression, and `read_value` classifies a literal as
a STRING, FLOAT, INTEGER, BOOLEAN or IDENTIFIER.

The model is a set of modules:

- **Lexemes** holds the character classes and the scanning primitives that stand
  in for the regular expressions. Each one reports where a run, a line or a
  blank-line tail starting at a position stops.
- **Values** models `read_value`. Its partner is `Literal`, the canonical
  spelling of a value.
- **Widgets** is the recognizer for the parameter list of `WIDGET_INLINE_REGEXP`.
  It backtracks over string values the way Python's engine does. It also
  collects the parameter dictionary.
- **Readers** models the six readers. Each returns `Skip` (Python's `None`),
  `Fail` (the raised `SyntaxError`, with its kind and offset) or
  `Next(rest, offset, token)`.
- **Parser** models `parse`. `Dispatch` and the method `Respond` model the inner
  `for` loop over the readers. The method `Parse` is the outer `while` loop; it
  is proved equal to the recursive definition `Tokenize`.
- **ReaderLaws** and **WidgetLaws** hold the round trips. A construct written in
  its documented shape is read back as the token it was written from.

Points where the code's behaviour is easy to misread, which the model follows
as written:

- the widget sigil is `@`;
- a widget never has a body;
- there is no paragraph reader;
- empty lines produce `EMPTY_LINE` tokens;
- a repeated widget key keeps its last value;
- leading zeros are accepted in integers.

## Model

| member | source | states |
|---|---|---|
| Values.Decimal | mdoc/parser.py:19-20 | the canonical spelling of a natural number is a digit run with no leading zero, except for 0 itself |
| Values.ReadValue | mdoc/parser.py:91-107 | read_value yields a value exactly when one of the five literal patterns spans the whole literal; the value is well-formed, and for everything but an integer its canonical literal is the input itself |
| Values.PatternsDisjoint | mdoc/parser.py:13-23 | the STRING, FLOAT, INTEGER, BOOLEAN and IDENTIFIER patterns are pairwise exclusive, so at most one of them spans a literal |
| Values.ReadLiteral | mdoc/parser.py:91-107 | reading the canonical literal of any value read_value can produce gives back that value |
| Values.DecimalRoundTrip | mdoc/parser.py:98-99 | `int()` of the canonical decimal spelling of n is n |
| Values.LeadingZero | mdoc/parser.py:19-20 | a leading zero does not change the integer a digit run denotes |
| Values.QuotedIsString | mdoc/parser.py:13-14 | any line-free text between double quotes is a STRING holding exactly that text, even when it contains quotes or looks like a number |
| Values.DigitsAreInteger | mdoc/parser.py:16-20 | a digit run, with or without `-`, is an INTEGER with its decimal value, negated after `-`; it is never a FLOAT |
| Values.BlankIsNoValue | mdoc/parser.py:107 | a whitespace-only literal has no value |
| Values.LiteralShape | mdoc/parser.py:11 | a canonical literal is non-empty, neither starts nor ends with whitespace, and holds no line break, as the VARIABLE value group needs |
| Readers.FindCloser | mdoc/parser.py:4 | finds the first `"""` at or after k that only whitespace follows on its line, and reports that none exists when there is none |
| Readers.FindCloserIs | mdoc/parser.py:4 | the lazy `(.*?)` stops at the earliest closing `"""` |
| Readers.ReadMultilineComment | mdoc/parser.py:32-41 | declines exactly when the text does not start with `"""`; raises at the offset when no closing `"""` exists; otherwise the token holds the text up to the first closer, and the reader consumes through the end of the closer's line and its newline |
| Readers.ReadSinglelineComment | mdoc/parser.py:44-50 | never raises; applies exactly when the first line holds a `;`; the token is the text after the first `;`; the new text has the same length and offset, keeps everything before the `;`, blanks the `;` and the rest of the line with spaces, and has no `;` left on its first line |
| Readers.ReadEmptyLine | mdoc/parser.py:53-59 | never raises; applies exactly when the first line is blank; it consumes a whitespace prefix ending at a newline and leaves text whose first line is not blank |
| Readers.ReadVariable | mdoc/parser.py:110-120 | declines exactly when the text does not start with `$`; fails at the offset as a broken definition or a broken value; otherwise it yields the name after `$` and a well-formed value |
| Readers.VariableValue | mdoc/parser.py:114-120 | once a value starts on the line, the reader takes the rest of that line without its trailing whitespace as the literal; it fails exactly when read_value finds no pattern for that literal, otherwise the token holds read_value's value, and the reader consumes the blank lines that follow |
| Readers.HeadingClose | mdoc/parser.py:25 | the greedy `(.*)` picks the last position on the line where a space, the same run of marks and a blank line follow (Readers.ClosesHeading); none closes after it, and when it finds none, no position on the line closes |
| Readers.HeadingAfterMarks | mdoc/parser.py:62-69 | after n marks and a space, the reader fails at the offset exactly when no position on the line closes the heading; otherwise it yields a level-n heading whose line-free text is framed by the marks, ends the text at the last closing position, and consumes through the last blank line of the whitespace after the closing marks |
| Readers.HeadingCloseIs | mdoc/parser.py:25 | the last closing position is the one the heading pattern takes |
| Readers.CloseFound | mdoc/parser.py:25 | the greedy search finds a closing position exactly when some position on the first line closes the heading |
| Readers.AfterMarksOutcome | mdoc/parser.py:62-69 | after the marks and a space, the heading succeeds exactly when some position on the line closes it, and then it takes the last such position and consumes through the blank line after it |
| Readers.HeadingOutcome | mdoc/parser.py:62-69 | for text opening with `#`, the reader succeeds exactly when the opening run has at most three marks, is followed by a space, and some position on the line closes the heading; in every other case it raises |
| Readers.ReadHeading | mdoc/parser.py:62-69 | declines exactly when the text does not start with `#`; raises at the offset; otherwise yields a level 1 to 3 heading with line-free text, written as marks, space, text, space, marks, and the consumed text ends with a blank line |
| Readers.ReadWidget | mdoc/parser.py:71-88 | declines exactly when the text does not start with `@`; raises at the offset; otherwise yields the name after `@`, no body, and a dictionary whose keys are names and whose values are well-formed |
| Readers.WidgetNext | mdoc/parser.py:82-88 | the widget token carries the name up to `(`, no body, and exactly the dictionary Widgets.Collect builds from the recognised pairs; the reader consumes the text up to the end of the parameter list |
| Readers.WidgetOutcome | mdoc/parser.py:71-88 | for text opening with `@`, the reader succeeds exactly when a non-empty name is followed by `(` and a parameter list the recognizer accepts; it then yields the dictionary collected from that list and consumes up to a `)` followed only by blanks to the end of its line; in every other case it raises |
| Widgets.WidgetArgs | mdoc/parser.py:30 | a recognised parameter list ends after its start and within the text; that it ends after `)` and the blanks that follow is stated by Widgets.WidgetArgsClosed |
| Widgets.WidgetArgsClosed | mdoc/parser.py:30 | a recognised parameter list ends where a `)` is followed only by blanks up to the end of its line |
| Widgets.Param | mdoc/parser.py:27 | a recognised parameter list holds at least one pair and ends within the text |
| Widgets.ParamValue | mdoc/parser.py:27 | an accepted parameter ends within the text, and the first collected pair has the key written before `=` |
| Widgets.TryValue | mdoc/parser.py:27 | an accepted value ends within the text and the first pair keeps the key written before `=`; the order of the patterns is stated by Widgets.LiteralEnd and Widgets.OtherMatch |
| Widgets.TryString | mdoc/parser.py:27 | an accepted string value ends within the text and the first pair keeps the key written before `=`; which closing quote is chosen is stated by Widgets.StringFirst |
| Widgets.Attempt | mdoc/parser.py:27-30 | a result other than the next alternative's takes the candidate span as the first value, and keeps the key written before `=` |
| Widgets.NumberParts | mdoc/parser.py:16-20 | the integer pattern spans the sign and the digits; the float pattern spans that digit run, a `.` and at least one further digit |
| Widgets.MatchesLexical | mdoc/parser.py:16-23 | every value the widget pattern matches is a literal read_value classifies |
| Widgets.QuoteLexical | mdoc/parser.py:13-14 | a quoted stretch on one line is a string literal |
| Widgets.ParamValid | mdoc/parser.py:27 | every collected pair has a name key and a classifiable literal |
| Widgets.WidgetArgsValid | mdoc/parser.py:84-87 | read_value gives a value for every literal the widget pattern accepted, so the dictionary never holds None |
| Widgets.NoContinuation | mdoc/parser.py:27-30 | no list continuation starts with a name character or `.`, so shorter matches of numbers and names never succeed |
| Widgets.StringFirst | mdoc/parser.py:27 | the string value is closed by the last quote on the line whose continuation matches |
| Widgets.LiteralEnd | mdoc/parser.py:27 | a canonical literal followed by a delimiter is taken whole as the value |
| Widgets.OtherMatch | mdoc/parser.py:16-23 | a canonical non-string literal is matched whole by the first applicable pattern and by none before it |
| Widgets.ValueAt | mdoc/parser.py:27 | the blanks after `=` are skipped before the value |
| Widgets.Collect | mdoc/parser.py:87 | the dictionary has exactly the collected keys, and each key maps to the value of its last occurrence |
| Widgets.CollectWellFormed | mdoc/parser.py:87 | every value in the dictionary is well-formed |
| Parser.FirstApplicable | mdoc/parser.py:136-143 | the result is None exactly when every reader declines; otherwise it is the response of the first reader that does not decline |
| Parser.FirstFrom | mdoc/parser.py:136-143 | the same, over the readers from position j onward |
| Parser.StepFacts | mdoc/parser.py:123-146 | every reader declines exactly when its opening test fails, raises at the current offset, and on success advances the offset by what it consumed while reducing the loop measure |
| Parser.Dispatch | mdoc/parser.py:136-144 | the reader that answers is the first in the list order that does not decline; its failure is at the offset; a success shortens the text or removes a `;` from the first line |
| Parser.Respond | mdoc/parser.py:136-143 | the `for` loop over the readers returns the first response that is not None |
| Parser.Tokenize | mdoc/parser.py:123-146 | `parse` as a recursive definition: every token of a successful run is well-formed, and a raised error points at an offset inside the text |
| Parser.Parse | mdoc/parser.py:123-146 | the `while` loop produces the token list, or the first error, of the recursive definition |
| Parser.PrefixedAppend | mdoc/parser.py:141 | appending tokens one at a time gives the same outcome as prefixing them together |
| Parser.StepWellFormed | mdoc/parser.py:32-120 | every token a reader returns has the shape its reader builds |
| Parser.UnknownSyntaxAt | mdoc/parser.py:143-144 | text that every reader declines raises "unknown syntax" at the current offset |
| Parser.BlankText | mdoc/parser.py:53-59 | non-empty whitespace-only text parses to a single EMPTY_LINE token |
| ReaderLaws.VariableLine | mdoc/parser.py:110-120 | `$name:`, blanks, a literal, then blanks to the end of the line, reads back as the variable with that literal's value |
| ReaderLaws.VariableOfValue | mdoc/parser.py:110-120 | `$name: ` followed by the canonical literal of a value reads back as that variable and value |
| ReaderLaws.VariableUnclassified | mdoc/parser.py:107-120 | a variable line whose literal no pattern spans (such as `$x: hello`) raises a broken value at the offset |
| ReaderLaws.VariableWithoutColon | mdoc/parser.py:114-116 | `$` with no name character after it (as in `$: 5`), or a name followed by neither `:` nor a name character, raises a broken definition at the offset |
| ReaderLaws.VariableWithoutValue | mdoc/parser.py:110-120 | `$name:` followed only by whitespace fails: as a broken value when the whitespace has a character other than a newline, as a broken definition otherwise |
| ReaderLaws.HeadingOfLine | mdoc/parser.py:62-69 | marks, space, text, space, the same marks, blanks and a blank line read back as a heading of that level and text |
| ReaderLaws.HeadingAt | mdoc/parser.py:62-69 | a heading laid out in the text reads back as its level and text |
| ReaderLaws.HeadingClosesAt | mdoc/parser.py:25 | the closing marks of a written heading are the ones the greedy group stops at |
| ReaderLaws.NoLaterClose | mdoc/parser.py:25 | no later position on the line closes the heading |
| ReaderLaws.HeadingTooDeep | mdoc/parser.py:62-67 | four or more `#` raise a broken heading |
| ReaderLaws.HeadingNeedsBlankLine | mdoc/parser.py:62-67 | a heading with no blank line anywhere after it raises a broken heading |
| ReaderLaws.CommentOfLines | mdoc/parser.py:32-41 | `"""`, a quote-free body, `"""` and blanks to the end of the line read back as that comment, and the line break after it is consumed |
| ReaderLaws.CommentAt | mdoc/parser.py:32-41 | a comment laid out in the text reads back as its body |
| ReaderLaws.CommentUnterminated | mdoc/parser.py:36-38 | `"""` with no further quote raises a broken comment at the offset |
| WidgetLaws.WidgetRoundTrip | mdoc/parser.py:71-88 | a widget written as `@name(` with `key=literal` pairs separated by `,` and whitespace, then `)` at the end of its line, reads back as that name and the dictionary of its pairs, with no body |
| WidgetLaws.WidgetAt | mdoc/parser.py:71-88 | a written parameter list between `@name(` and `)` reads back as that widget |
| WidgetLaws.EmptyWidget | tests/test_parser.py:17-18 | `@name(` with only whitespace before `)` reads back as that name with an empty dictionary |
| WidgetLaws.WidgetMissingValue | mdoc/parser.py:78-80 | a parameter whose `=` is followed only by whitespace and `)` matches no value pattern, so the reader raises a broken widget at the offset |
| WidgetLaws.CollectPairs | mdoc/parser.py:87 | the dictionary binds exactly the written keys, each to the value written for its last occurrence |
| WidgetLaws.PairsRead | mdoc/parser.py:87 | every written literal reads back as the value it was written from |
| WidgetLaws.ParamsAt | mdoc/parser.py:27-30 | the recognizer collects exactly the written pairs, in order, and ends after the closing `)` |
| WidgetLaws.ListArgs | mdoc/parser.py:30 | a written non-empty list is recognised as that list of pairs |
| WidgetLaws.OneParam | mdoc/parser.py:27 | one written `key=literal` followed by a delimiter is collected as that pair |
| WidgetLaws.JoinListAt | mdoc/parser.py:27-30 | a written list placed in the text lies there entry by entry |
| WidgetLaws.ListNoQuote | mdoc/parser.py:27 | a list of non-string entries contains no quote |
| WidgetLaws.StringRest | mdoc/parser.py:27 | after a written string value, no quote remains on its line, so the greedy string value stops at its own closing quote |

## Left out

- Reading the file named on the command line and running `parse` on it (lines 149-151) is I/O. It is not modelled.
- The debug prints in `read_widget` (lines 83 and 85) and in `parse` (line 145) are output only. They are not modelled.
- The texts of the `SyntaxError` messages are not modelled, including the first 20 characters they quote. An error is modelled as its kind plus the offset it reports.
- A literal that `read_value` cannot classify is modelled as a `BrokenValue` error. Line 107 builds a `SyntaxError` without raising it, so `read_value` returns `None`. Unpacking that `None` at line 120 then raises a `TypeError`, which the model does not distinguish. The widget reader never reaches this case (`Widgets.WidgetArgsValid`).
- FLOAT values are kept as their sign and digit strings, not as the binary floating-point number `float()` gives (line 96). Floating point is not modelled.
- Readers.ReadWidget: collects the pairs while it recognises the list instead of running `findall` a second time over the matched group (line 84). The two agree: `findall`'s greedy string value stops at the last quote of its line inside the list, and that is the quote the recognizer chooses.
- Widgets.TryValue: together with Widgets.FloatMatch, Widgets.IntegerMatch, Widgets.BooleanMatch and Widgets.IdentifierMatch, tries only the longest match of each number and name pattern. The regex engine would also backtrack into shorter ones. A shorter match leaves a digit, a name character or `.` next, and no continuation of the list starts with one (`Widgets.NoContinuation`).
- WidgetLaws.WidgetRoundTrip: covers only pairs written as `key=literal` with no blanks around `=` or before `,`. Two string values on one line also need a line break between them: otherwise the greedy string value merges them into one, as in the source. The recognizer itself accepts all of these forms.
- ReaderLaws.VariableOfValue: covers only the canonical literal of each value. An integer with leading zeros is covered by `Values.LeadingZero` and `Values.DigitsAreInteger` instead.
- The renderers (`mdoc/renderers/`) consume the tokens and are outside this model.
- Python strings are modelled as sequences of characters, and `\s` as the characters for which `str.isspace()` holds. Case folding and normalisation play no part in the patterns.
