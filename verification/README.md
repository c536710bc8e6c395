# SIMAS compiler/decompiler model

`decomp.py` turns SIMAS assembly source into a `.csa` file and back. The
compile path:

1. tokenizes the source into one record per non-blank line (`simas_to_json`);
2. writes the records as compact JSON (`json.dumps` with `separators=(',', ':')`);
3. obscures the text by XOR-ing every code point with the key 71 (`xstring`).

The decompile path:

1. reveals the text with the same XOR;
2. parses the JSON, where a parse failure is the only error;
3. formats every record as its tokens joined by single spaces plus `;`, with the lines joined by `\n` (`json_to_simas`).

This project models that pure pipeline in Dafny and proves the properties below.
Modules:

- **`Wrappers`** has `Option` and `Result`.
- **`Strings`** has Python's whitespace and line-break character classes and `Join`.
- **`Obfuscation`** has `xstring` with a bitwise XOR on naturals.
- **`Simas`** has the tokenizer and the formatter. It models `str.splitlines`, `str.strip`, `str.split` and the one-semicolon rule as Python defines them.
- **`Json`** has a concrete encoder and decoder for the one shape the program stores: an array of arrays of strings. It follows sections 5 and 7 of RFC 8259 and Python's defaults (`ensure_ascii`, lower-case `\uXXXX` escapes, surrogate pairs above U+FFFF).
- **`Pipeline`** has `compile`/`decompile` and the universal-newline read of the stored file.
- **`TokenizerExamples`** has worked instances of the tokenizer on concrete lines, proved from the general lemmas.

Text is a sequence of Unicode scalar values, which is what Python holds after it decodes a UTF-8 file.

## Model

| member | source | states |
|---|---|---|
| Strings.IsLineBreak | decomp.py:14 | every character `splitlines` breaks at is also whitespace for `strip`/`split` |
| Obfuscation.XorInvolutive | decomp.py:8 | XOR-ing a code point twice with the same key gives it back |
| Obfuscation.XorMoves | decomp.py:8 | XOR with a non-zero key always changes the code point |
| Obfuscation.XorKeyStaysInBlock | decomp.py:5 | the key 71 is below 128, so XOR moves a code point only inside its aligned block of 128 |
| Obfuscation.XorChar | decomp.py:8 | `chr(ord(c) ^ 71)` is a valid character in the same 128-block as `c` (never a surrogate, never at or above 0x110000) and differs from `c` |
| Obfuscation.XorCharInvolutive | decomp.py:8 | the per-character transform is its own inverse |
| Obfuscation.XString | decomp.py:7-8 | `xstring` keeps the length and maps each character independently with the keyed XOR |
| Obfuscation.XStringInvolutive | decomp.py:7-8 | `xstring(xstring(s)) == s` for every text |
| Obfuscation.XStringAppend | decomp.py:7-8 | obscuring a concatenation obscures each part on its own |
| Obfuscation.XStringPrefix | decomp.py:7-8 | obscuring a cut-short text gives the cut-short obscured text |
| Simas.LineEnd | decomp.py:14 | the first line ends at the first line-break character, and no break comes before it |
| Simas.SplitLines | decomp.py:14 | no line that `splitlines` returns holds a line break |
| Simas.SplitAtBreaksAppend | decomp.py:14 | cutting a text at every break commutes with concatenation around a break |
| Simas.SplitLinesAsBreaks | decomp.py:14 | once blank lines are dropped, treating `\r\n` as one break or as two gives the same records |
| Simas.TrimLeftShape | decomp.py:14 | trimming the front removes a run of whitespace and keeps a suffix of the line that does not start with whitespace |
| Simas.TrimRightShape | decomp.py:14 | trimming the back removes a run of whitespace and keeps a prefix of the line that does not end with whitespace |
| Simas.Strip | decomp.py:14 | the stripped line neither starts nor ends with whitespace, and it is empty exactly when the line is all whitespace |
| Simas.StripSlice | decomp.py:14 | the stripped line is a contiguous slice of the line |
| Simas.StripTrimmed | decomp.py:14 | stripping a line that is already trimmed changes nothing |
| Simas.StripKeepsNonWS | decomp.py:14 | stripping removes whitespace only |
| Simas.DropSemicolon | decomp.py:17-18 | exactly one trailing `;` is removed when present, and otherwise the line is unchanged |
| Simas.LineRecord | decomp.py:17-19 | a line's record holds only proper tokens: non-empty, with no whitespace or line break |
| Simas.SplitWSTokens | decomp.py:19 | every token `split()` yields is non-empty and holds no whitespace (and so no line break) |
| Simas.SplitWSKeepsNonWS | decomp.py:19 | the tokens, concatenated, are exactly the non-whitespace characters of the input in order |
| Simas.SplitWS | decomp.py:19 | `split()` with no argument; what it yields is stated by `SplitWSTokens`, `SplitWSKeepsNonWS`, `SplitWSBlank`, `SplitWSAppend` and `SplitToken` |
| Simas.TrimLeftBlankPrefix | decomp.py:19 | whitespace in front of a text is skipped entirely before the first token |
| Simas.SplitWSBlank | decomp.py:19 | a whitespace-only text splits into no tokens |
| Simas.SplitWSDropFront | decomp.py:19 | leading whitespace of a text does not change its split |
| Simas.SplitWordThenBreak | decomp.py:19 | a word followed by a whitespace character is the first token, and the split goes on after it |
| Simas.SplitWSAppend | decomp.py:19 | every whitespace character separates tokens: the split of a text cut at any whitespace character is the split of its left part followed by the split of its right part |
| Simas.SplitToken | decomp.py:19 | a single token splits into itself |
| Simas.SplitJoinSpaces | decomp.py:19 | splitting tokens joined with single spaces gives the same tokens back |
| Simas.LineRecordContent | decomp.py:14-19 | a line's tokens hold every non-whitespace character of the line in order, except one trailing `;` that was dropped |
| Simas.RecordsOf | decomp.py:14-20 | the records hold only proper tokens, and there are at most as many records as lines |
| Simas.RecordsOfLine | decomp.py:14-20 | a line with non-whitespace content yields exactly one record, its own, ahead of the records of the later lines |
| Simas.RecordsOfBlank | decomp.py:14 | a whitespace-only line yields no record |
| Simas.RecordsOfAppend | decomp.py:15-20 | records come out in source-line order: the records of two line lists in sequence are the records of each, concatenated |
| Simas.SimasToJson | decomp.py:11-21 | every token the tokenizer produces is non-empty and free of whitespace |
| Simas.SimasToJsonAppend | decomp.py:11-21 | the records of two texts joined at a line break are the records of the first followed by those of the second |
| Simas.SimasToJsonOneLine | decomp.py:11-21 | a single line gives no record when blank and exactly its own record otherwise |
| Strings.Join | decomp.py:27-28 | `sep.join(parts)`; `JoinCons` and `JoinFront` state how a join takes apart at its first part, and `SplitJoinSpaces` and `SplitLinesJoin` that the joins the formatter makes split back into their parts |
| Simas.FormatRecord | decomp.py:27 | one record's line, the tokens joined by single spaces plus `;`; `FormatRecordShape` and `LineRecordOfFormat` state its properties |
| Simas.FormatRecordShape | decomp.py:27 | a record's line is non-empty and, for tokens without line breaks, holds no line break |
| Simas.FormatLines | decomp.py:25-27 | one output line per record, in order, each the tokens joined by single spaces followed by `;` |
| Simas.JsonToSimas | decomp.py:23-28 | the text is empty exactly when there are no records, and a non-empty text ends with `;` (no trailing newline) |
| Simas.SplitLinesJoin | decomp.py:28 | lines that are each non-empty and free of line breaks, joined with `\n`, split back into the same lines (an empty line would not: `["a", ""]` joins to `a\n`, which splits as `["a"]`) |
| Simas.JsonToSimasLines | decomp.py:23-28 | when no token holds a line break, the formatted text has exactly one line per record, each the tokens joined by a single space plus `;` (a token such as `a\nb` would make its record span two lines) |
| Simas.LineRecordOfFormat | decomp.py:27 | tokenizing a formatted record gives the record back, including an empty record from a bare `;` |
| Simas.RecordsOfFormatLines | decomp.py:26-27 | tokenizing the formatted lines gives the records back |
| Simas.SimasRoundTrip | decomp.py:11-28 | for records of proper tokens, `simas_to_json(json_to_simas(X)) == X` |
| Simas.SimasToJsonStable | decomp.py:11-28 | tokenizing the canonical text gives the records of the original source |
| Simas.CanonicalIdempotent | decomp.py:11-28 | the canonical form of a source is a fixed point of tokenize-then-format |
| Json.EscapeChar | decomp.py:37 | every character is written as non-empty printable ASCII |
| Json.SerializePrintable | decomp.py:37 | the whole JSON text is printable ASCII, because `ensure_ascii` escapes everything else |
| Json.EscapeTextPlain | decomp.py:37 | a string of printable ASCII with no quote and no backslash is written as itself |
| Json.Serialize | decomp.py:37 | the JSON text is bracketed by `[` and `]` |
| Json.HexDigit | decomp.py:37 | a digit of a `\uXXXX` escape is `0`-`9` or lower-case `a`-`f` |
| Json.UnicodeEscapeNoWS | decomp.py:37 | a `\uXXXX` escape holds no whitespace |
| Json.EscapeCharNoWS | decomp.py:37 | the escape of any character other than a space holds no whitespace |
| Json.SurrogateEscapeNoWS | decomp.py:37 | the surrogate-pair escape of a character above U+FFFF holds no whitespace |
| Json.EscapeTextNoWS | decomp.py:37 | a string body without spaces is written without whitespace |
| Strings.JoinNoWS | decomp.py:37 | joining whitespace-free parts with a whitespace-free separator leaves no whitespace |
| Json.SerializeNoWS | decomp.py:37 | the separators `','` and `':'` make the encoding compact: records of proper tokens encode with no whitespace at all |
| Json.HexValueOfDigit | decomp.py:37 | each hex digit the encoder writes is read back as its value |
| Json.Hex4OfEscape | decomp.py:37 | the four digits of a `\uXXXX` escape are read back as the escaped code unit |
| Json.ParseSingleEscape | decomp.py:52 | a `\uXXXX` escape of a character below U+10000 reads back as that character |
| Json.ParseSurrogates | decomp.py:52 | a high surrogate escape followed by a low surrogate escape reads as the combined code point |
| Json.ParsePairEscape | decomp.py:37 | a character above U+FFFF, written as a surrogate pair, reads back as itself |
| Json.ParseEscapedChar | decomp.py:37 | every escaped character reads back as itself and parsing continues after its escape |
| Json.ParseEscapedText | decomp.py:37 | an escaped string body reads back as the original string up to the closing quote |
| Json.ParseQuoted | decomp.py:37 | a quoted string literal reads back as the original string, leaving the rest of the text |
| Json.ParseSerializedRecord | decomp.py:37 | one record's JSON array reads back as that record |
| Json.ParseSerializedProgram | decomp.py:37 | the JSON array of records reads back as the records, leaving the rest of the text |
| Json.Parse | decomp.py:52 | a text that parses starts, after whitespace, with `[` |
| Json.ParseSerialize | decomp.py:52 | `json.loads(json.dumps(X)) == X` for every record sequence |
| Json.ParseTruncated | decomp.py:51-55 | an encoded record sequence with its last character removed is rejected |
| Pipeline.Compile | decomp.py:36-38 | the stored text is at least two characters long, and revealing and parsing it gives the tokenized source |
| Pipeline.Decompile | decomp.py:50-57 | decompiling succeeds exactly when the revealed text parses, and it gives empty text exactly when the parse gives no records |
| Pipeline.DecompileCompile | decomp.py:36-57 | decompiling a compiled source gives the source's canonical form |
| Pipeline.CompileDecompileCompile | decomp.py:36-57 | recompiling the decompiled text gives the same stored text |
| Pipeline.DecompileIdempotent | decomp.py:36-57 | a decompiled text is a fixed point of compile-then-decompile |
| Pipeline.RejectedNotCompiled | decomp.py:51-55 | a text that decompile rejects was not produced by compile from any source |
| Pipeline.DecompileEmpty | decomp.py:51-55 | an empty stored file is reported as invalid |
| Pipeline.DecompileRejectsTruncated | decomp.py:50-55 | a compiled text missing its last character is reported as invalid |
| Pipeline.ReadUniversal | decomp.py:47-48 | reading in text mode never yields a carriage return and never lengthens the text; `ReadUniversalNoCR`, `ReadUniversalLoneCR` and `ReadUniversalCRLF` state what it does to each kind of line end |
| Pipeline.ReadUniversalNoCR | decomp.py:47-48 | a text without carriage returns reads back unchanged |
| Pipeline.ReadUniversalLoneCR | decomp.py:47-48 | a lone carriage return reads back as a newline |
| Pipeline.ReadUniversalCRLF | decomp.py:47-48 | a `\r\n` pair reads back as a single newline, and the text after it is read on its own |
| Pipeline.DecompileStored | decomp.py:47-57 | decompiling the file read in text mode succeeds exactly when its translated, revealed text parses |
| Pipeline.KeyOnJump | decomp.py:5-8 | the key maps `J` to a carriage return and back |
| Pipeline.OnlyJStoredAsCR | decomp.py:38 | only a `J` in the JSON text becomes a carriage return in the stored text |
| Pipeline.StoredWithoutJ | decomp.py:36-57 | when the JSON text holds no `J`, the stored file decompiles to the canonical form |
| Pipeline.StoredJumpMove | decomp.py:5-8 | `JM` in the JSON text is stored as the pair `\r\n` |
| Pipeline.JumpMoveCollapses | decomp.py:38-50 | a JSON text with exactly one `J`, directly followed by `M`, comes back from the stored file with the `JM` collapsed to `M` and everything else unchanged |
| Pipeline.TwoTokenText | decomp.py:11-28 | a record of two tokens is formatted as the two tokens, a space and `;`, and that line tokenizes back to the record |
| Pipeline.TwoTokenJson | decomp.py:37 | a record of two plain strings is written as `[["x","y"]]` with the strings unchanged |
| Pipeline.JumpMoveLine | decomp.py:36-57 | a line `JM<rest> <operand>;` with no other `J` decompiles to itself directly but to `M<rest> <operand>;` from the stored file; `JMP 10;` is the case rest `P`, operand `10`, and comes back as `MP 10;` |
| Pipeline.StoredJumpReadsAsMove | decomp.py:41-52 | the source `J;` compiles to a text holding a carriage return; decompiled directly it gives `J;`, read back from the file it gives `M;` |
| TokenizerExamples.JumpLine | decomp.py:17-19 | `JMP 10;` gives the record `JMP`, `10` |
| TokenizerExamples.DoubleSemicolon | decomp.py:17-19 | `JMP 10;;` loses only one semicolon: `JMP`, `10;` |
| TokenizerExamples.BareSemicolon | decomp.py:17-19 | a line holding only `;` gives one empty record |
| TokenizerExamples.NoLines | decomp.py:14 | the empty source gives no records |
| TokenizerExamples.SpacesOnly | decomp.py:14 | a source of spaces only gives no records |
| TokenizerExamples.BlankLinesSkipped | decomp.py:14-20 | blank and whitespace-only lines between instructions give no records |
| TokenizerExamples.LeadingBreak | decomp.py:14 | a leading line break gives no record |
| TokenizerExamples.WindowsLineEnd | decomp.py:14 | `\r\n` ends a line like `\n` does |

## Left out

- File reading and writing, `os.path.splitext`, `print`, `sys.exit`, `main` and `print_help` (decomp.py:31-34, 40-43, 58-91) are I/O and command-line plumbing. The compile path takes the source text as a parameter and returns the stored text. The decompile path takes the stored text and returns the formatted text or an error. The one exception is the text-mode read of the stored file (decomp.py:47-48). It changes the data and is modelled as `Pipeline.ReadUniversal`; see Findings. The text-mode read of the `.simas` file (decomp.py:33-34) also turns `\r\n` and a lone `\r` into `\n`. This is not modelled, because it leaves the records unchanged: `splitlines` breaks at all three line ends.
- Writes are modelled as storing the text unchanged. This is what Python's text mode does on a system whose line separator is `\n`. On Windows every `\n` written would become `\r\n`, and that is not modelled.
- UTF-8 encoding and decoding of the files is not modelled: the model works on code points. A stored text is any Unicode scalar sequence. Python could also hold lone surrogates, but a file decoded as UTF-8 never contains them.
- The error message text (`cannot decode json: ...`) is not modelled; an error is the single value `InvalidCsa`.
- Json.Parse: accepts only an array of arrays of strings, and it treats a lone surrogate escape in a string as malformed. Python's `json.loads` accepts every JSON value, and it keeps a lone surrogate as a character the model's `char` cannot hold.
- Pipeline.Decompile: reports every JSON text other than an array of arrays of strings as invalid. The source gets further in some cases:
  - a number, `true`, `false` or `null` as the whole document raises a `TypeError` at `for instr in data` (decomp.py:26);
  - a number, `true`, `false` or `null` as a record raises a `TypeError` at `for x in instr` (decomp.py:27), so `[1,2]` fails;
  - inside a record, a number is formatted through `str(x)` (`[[1]]` gives `1;`), `true`, `false` and `null` give `True`, `False` and `None`, and a nested array or object gives its Python `repr`;
  - a string or an object as the document or as a record is iterated character by character or key by key.
  None of these can come out of compile.
- `str(x)` coercion of non-string JSON values (decomp.py:27) is not modelled: tokens are strings.
- Json.Parse: number, `true`/`false`/`null` and object syntax are not parsed.

## Findings

| source | as written | input that shows it | evidently intended | confidence | as-written member | corrected member |
|---|---|---|---|---|---|---|
| decomp.py:47-48 | the `.csa` file is opened in text mode with universal newlines. The key maps `J` to `\r` and `M` to `\n`, so the stored text of any program whose JSON holds a `J` contains `\r`, and reading it back turns that `\r` into `\n`. Every `J` comes back as `M`, and `JM` collapses to `M` (`Pipeline.JumpMoveCollapses`). | the source `J;` is stored as `\x1c\x1ce\re\x1a\x1a`, which reads back as `\x1c\x1ce\ne\x1a\x1a` and decompiles to `M;` instead of `J;`. Likewise `JMP 10;` decompiles to `MP 10;` (`Pipeline.JumpMoveLine` with rest `P` and operand `10`). | the stored text read back unchanged (`newline=''`), so that decompile inverts compile | not executed | Pipeline.StoredJumpReadsAsMove, Pipeline.JumpMoveLine | Pipeline.DecompileCompile |

`Pipeline.DecompileStored` models decompile with the text-mode read as written, and `Pipeline.StoredJumpReadsAsMove` proves the `J;` counterexample against it. `Pipeline.JumpMoveLine` proves the general case `JM<rest> <operand>;`, of which `JMP 10;` is one instance. `Pipeline.Decompile` reads the stored text unchanged. The round trip `Pipeline.DecompileCompile` is proved for it, and the rest of the model uses it. `Pipeline.StoredWithoutJ` shows that the text-mode read does no harm to programs whose JSON holds no `J`.
