# xx-go assembler, modelled in Dafny

xx-go turns "XX notation" text into bytes. A file is read line by line, and each line goes through four stages:

- **Block-comment filter** (`filterMultLineComments`). It removes `/* ... */` comments and carries state across lines. A line inside an open comment is held back and joined to the next one.
- **Tokenizer** (`tokenizeXX`). It splits the logical line at spaces. It understands double quotes and backslash escapes inside quotes. A token that is not the last one is flagged as a comment when it contains a comment marker.
- **Token passes** (`getTokenAttributes`). Five passes run in place over an `xxToken` record:
  - `testASCII`, `testComment`, `testBinary` and `testHexData` classify the token and normalise it;
  - `getHexFromString` turns plain text into the hex of its characters.
- **Line encoder** (`parseXX`). It joins the hex of the tokens up to the first comment and decodes it. A line that is not valid hex but is ASCII gives its character codes instead. Otherwise the run stops with an error.

The model follows the two Go files of the core: `method.go` and `xxToken.go`. Each Go function that works by updating variables is a Dafny `method` with the same loop. Each such method is proved equal to a specification function on values. The properties are proved as lemmas about those functions.

The token record is the class `XxToken`, with Go's fields. Each pass is a method that `modifies` the token. Its postcondition says that the new state equals a pure function (`TestASCIIOf`, `TestCommentOf`, …) applied to the old state. `Value()` is the token state as a datatype.

Modules:
- `Wrappers`: the `Result` type.
- `GoStrings`: the parts of Go's `strings`, `unicode/utf8` and `unicode` packages that the code calls, and `IsASCII` of `golang.org/x/exp/utf8string` (`IsAscii`). Text is a sequence of Unicode characters. Its Go byte length is the length of its UTF-8 encoding, `Utf8`.
- `GoHex`: `encoding/hex`. Encoding writes lower-case digits. Decoding accepts either case and fails on odd length or a non-hex character. The empty string decodes to no bytes.
- `Tables`: the marker, escape and noise tables. Also `getCommentList`, `include` and `testCharComment`.
- `Helpers`: `filterIgnored` and `ascii2hex`.
- `BlockComments`: `filterMultLineComments`.
- `XxTokens`: the token record, `initXxToken`, `testASCII`, `testBinary`, `testHexData` and `getHexFromString`.
- `TokenComments`: `testComment`.
- `Tokenizer`: `tokenizeXX`.
- `Attributes`: `getTokenAttributes`, and what the passes decide together.
- `Assembler`: `parseXX`. `os.Exit(3)` becomes the error result `BadLine(lineNumber, decodeError)`.

The model follows the code where it behaves in ways a reader of the format might not expect:

- **Drawing range.** The drawing-character markers are U+2500 to U+25A1 (9472 to 9633), as the constants say.
- **`testHexData` does not check for valid hex.** It encodes the filtered text and decodes it again, which cannot fail. So any non-empty filtered text of an unquoted token that is not a comment is taken as hex. Bad digits only show up when the whole line is decoded.
- **Text after `*/` is kept twice.** The rest of the line after `*/` is appended once, and then `*/` plus that rest is scanned again and appended again. So `/* x */41` gives the logical line `41*/41`, which is ASCII but not hex, and the line's bytes are the codes of those six characters.
- **The first-character test looks at one byte.** It converts the first byte of the text to a character, so only the seven ASCII markers can match there.
  - The two-character test that follows it can never match.
  - The drawing range is seen only by the scan of non-ASCII tokens.
- **`isString` is sticky.** It is only cleared when a non-empty token is flushed at a space. So `"" 41` yields one quoted token `41`.
- **`filterIgnored` deletes in table order.** It is not idempotent: `0hx41` becomes `0x41`, and filtering again gives `41`.
- **A token of noise only is not hex.** The unquoted token `h` filters to nothing, so it is written as the hex of its characters, `68`.
- **The line decode cannot fail on ASCII.** A line whose hex does not decode but which is ASCII falls back to the hex of its characters, and that second decode always succeeds. So the exit after the fallback is unreachable. The only error is a non-ASCII line that is not valid hex.

## Model

| member | source | states |
|---|---|---|
| Tables.DrawingMarkers | method.go:23-24 | the drawing markers are the one-character strings of every code point from U+2500 to U+25A1, in order |
| Tables.GetCommentList | method.go:40-52 | the marker list is the seven ASCII markers, then `--` and `//`, then the drawing range in order |
| Tables.CommentListMembers | method.go:15-52 | the list has 171 entries; each is a two-character marker or a single marker character, and every marker character is in the list |
| Tables.Include | method.go:99-106 | found exactly when the target is an element of the list |
| Tables.TestCharComment | method.go:108-118 | a comment exactly when the first character is in the drawing range or the string is one of the ASCII markers |
| Tables.FirstByteSeesAsciiMarkersOnly | xxToken.go:51-54 | testing the first UTF-8 byte of a character finds a marker exactly when the character is one of the seven ASCII markers |
| Helpers.FilterIgnored | method.go:91-97 | the loop deletes every noise string in table order; the result equals `FilterIgnoredOf` |
| Helpers.FilterIgnoredRemovesNoise | method.go:91-97 | the filtered text has no `,` `$` `h` `:` or space and is never longer than the input |
| Helpers.FilteredKeepsAscii | method.go:91-97 | filtering ASCII text gives ASCII text |
| Helpers.FilterKeepsHexText | method.go:91-97 | filtering leaves a text made only of hex digits unchanged |
| Helpers.FilterIgnoredNotIdempotent | method.go:91-97 | for every hex text h, filtering `0hx`+h gives `0x`+h, and filtering again gives h |
| Helpers.FilterJoinsZeroX | method.go:91-97 | deleting `h` after `0x` has already been deleted joins `0hx`+h into `0x`+h |
| Helpers.FilterDropsZeroX | method.go:91-97 | filtering `0x`+h gives h for every hex text h |
| Helpers.Ascii2Hex | method.go:120-127 | the loop appends the hex of each piece's UTF-8 bytes; the result equals `Ascii2HexOf` |
| Helpers.Ascii2HexOfText | method.go:120-127 | the hex of the characters of s, one by one, is the hex encoding of all of s's bytes |
| Helpers.Ascii2HexRoundTrip | method.go:120-127 | the result decodes back to the text's bytes; for ASCII text it is lower-case hex, twice as long, and decodes to the character codes |
| BlockComments.FilterMultLineComments | method.go:183-212 | the loop's four results equal `FilterOf` of the inputs; the loop terminates because each pass after the first shortens the line |
| BlockComments.CarryOnlyWhenHeld | method.go:183-212 | a held line (`mustContinue`) is inside a comment and returns its carry as the logical line; otherwise the carry returned is empty |
| BlockComments.CarryStartsLine | method.go:183-212 | the logical line always starts with the incoming carry |
| BlockComments.PlainLine | method.go:184-186 | outside a comment, a line without `/*` gives state false, an empty carry, the carry followed by the line, and no hold |
| BlockComments.EmptyLine | method.go:184-187 | an empty line leaves the state, returns the carry as the logical line with an empty new carry, and is not held |
| BlockComments.SwallowedLine | method.go:188-198 | inside a comment, a non-empty line without `*/` is held, keeping the incoming carry unchanged |
| BlockComments.OpenedLine | method.go:199-204 | a `/*` with no later `*/` opens a comment and holds the line; the new carry is the old carry plus the text before the first `/*` |
| BlockComments.ClosedLine | method.go:189-193 | closing a comment appends the rest of the line, then `*/` and the rest again |
| BlockComments.CommentThenText | method.go:183-212 | a `/* x */` comment at the start of a line leaves the rest twice, with `*/` between the copies |
| BlockComments.CommentThenHex | method.go:183-212 | `/* x */41` gives the logical line `41*/41` |
| XxTokens.InitXxToken | xxToken.go:27-40 | the token's new state is `InitOf` of its old state and the arguments, and that state is returned |
| XxTokens.InitFresh | xxToken.go:27-40 | raw and normal text are the input; both lengths are its byte length; hex is empty; `isAscii`, `isHex` and `hasComment` are false; `isComment`, `isString` and the line number are copied |
| XxTokens.TestASCII | xxToken.go:42-47 | the new token state is `TestASCIIOf` of the old one |
| XxTokens.TestASCIISets | xxToken.go:42-47 | `isAscii` becomes true exactly when it already was or every character is below 0x80; nothing else changes |
| XxTokens.BinaryValue | xxToken.go:86-108 | the value of n binary digits is below 2^n |
| XxTokens.TestBinary | xxToken.go:86-108 | the digit loop with its early return is proved equal to `TestBinaryOf` of the old state |
| XxTokens.BinaryLiteralLength | xxToken.go:88-90 | a token taken as a binary literal has ten characters: `0y` and eight digits |
| XxTokens.FormatHex | xxToken.go:100 | `strconv.FormatInt(v, 16)` gives at least one digit, and exactly one when v is below 16 |
| XxTokens.FormatHexValue | xxToken.go:100 | the digits are lower-case hex, read back as v, and have no leading zero |
| XxTokens.FormatHexByte | xxToken.go:99-104 | padding a one-digit hex value with `0` gives the two-digit hex encoding of the byte |
| XxTokens.TestBinaryWritesByte | xxToken.go:86-108 | a binary literal's text becomes the two lower-case hex digits of its 8-bit value, which decode back to that byte; any other token is unchanged |
| XxTokens.BitsValue | xxToken.go:86-108 | the n-digit binary spelling of a value below 2^n reads back as that value |
| XxTokens.TestBinaryAllPatterns | xxToken.go:86-108 | for each of the 256 values, the unquoted token `0y` plus its eight bits becomes that byte's two hex digits |
| XxTokens.TestHexData | xxToken.go:110-126 | the new token state is `TestHexDataOf` of the old one |
| XxTokens.TestHexDataAcceptsAnything | xxToken.go:110-126 | the check decode never fails; an unquoted non-comment token with non-empty filtered text becomes hex with that text and its length, whether or not it is valid hex; otherwise nothing changes |
| XxTokens.GetHexFromString | xxToken.go:128-134 | the new token state is `GetHexOf` of the old one |
| XxTokens.GetHexEncodesText | xxToken.go:128-134 | an ASCII non-comment token with no hex gets the hex of its characters, which decodes to their codes; any other token is unchanged |
| TokenComments.TestComment | xxToken.go:49-84 | the new token state is `TestCommentOf` of the old one, for any token whose lengths let Go index its first bytes |
| TokenComments.ScanComments | xxToken.go:65-80 | the loop over the marker list equals `ScanMarkers` over the whole list |
| TokenComments.ScanCommentChars | xxToken.go:69-79 | the character loop for one marker equals `ScanChars`; the returned text is the token's new text |
| TokenComments.ScanCutsAtFirstMarker | xxToken.go:65-80 | scanning every marker in turn cuts the text before its first marker character |
| TokenComments.AllMarkerChars | method.go:40-52 | the characters of the one-character markers are exactly the marker characters |
| TokenComments.CommentListSeen | method.go:40-52 | the characters of each two-character marker already appear earlier in the list, so those markers never cut anything |
| TokenComments.ScanMarkersCut | xxToken.go:65-80 | after the first k markers, the text is cut before its first character among those markers' characters |
| TokenComments.HitTwice | xxToken.go:72-77 | cutting again at the same marker changes nothing |
| TokenComments.ScanCharsSingle | xxToken.go:69-79 | the loop for a one-character marker cuts exactly when that character occurs in the scanned text |
| TokenComments.TwoCharTestIsDead | xxToken.go:56-63 | after the first-character test fails, the two-character test cannot succeed |
| TokenComments.TestCommentEmpty | xxToken.go:50 | a token of length zero is unchanged |
| TokenComments.TestCommentFirstChar | xxToken.go:51-54 | a token starting with an ASCII marker becomes a comment with nothing else changed; otherwise it is not newly flagged as a comment |
| TokenComments.TestCommentAsciiUnchanged | xxToken.go:49-84 | an ASCII token not starting with a marker is left entirely unchanged |
| TokenComments.TestCommentCutsNonAscii | xxToken.go:65-80 | a non-ASCII token not starting with a marker is cut before its first marker character, including the drawing range; when there was one, `hasComment` is set and the length re-measured; otherwise the token is unchanged |
| Tokenizer.ContainsMarker | method.go:247-253 | the flushed token is a comment exactly when its text contains one of the line-comment markers |
| Tokenizer.ContainsAnyOfIff | method.go:247-253 | the marker test holds exactly when some marker of the list occurs in the text |
| Tokenizer.TokenizeXX | method.go:214-269 | the character loop gives the tokens of `TokenizeOf`, at least one |
| Tokenizer.TokenizeShape | method.go:244-266 | the last token is never a comment; every earlier token is non-empty, is a comment exactly when it contains a marker, and is a freshly initialised token |
| Tokenizer.RunKeepsFlushed | method.go:244-261 | every token the loop flushes is non-empty and freshly initialised with its comment flag |
| Tokenizer.RunFromAppend | method.go:223-263 | running the loop over a+b is running it over a, then over b |
| Tokenizer.TokenizeUnquoted | method.go:215-262 | for a line without quotes, no token holds a space, and the tokens joined are the trimmed line with its spaces removed |
| Tokenizer.PlainRun | method.go:244-262 | outside quotes the loop only moves non-space characters into tokens, in order |
| Tokenizer.EscapePair | method.go:225-238 | inside quotes, a backslash and the next character append that escape's value: `\n` `\\` `\t` `\r` become newline, backslash, tab and CR, any other `\c` stays as backslash and c |
| Tokenizer.QuotedRun | method.go:225-243 | inside quotes, a well-quoted text is appended with its escapes resolved and the state is otherwise unchanged |
| Tokenizer.TokenizeQuoted | method.go:239-243 | a line `"w"` gives one quoted token with the quotes dropped and w unescaped |
| Tokenizer.QuotedFlagSticks | method.go:244-257 | `"" w` gives the single token w, still marked quoted, for any w without a space or quote that does not end in white space |
| Tokenizer.PlainWordRun | method.go:223-263 | outside quotes, a word with no space or quote is appended to the buffer as it is, backslashes, tabs and other white space included |
| Attributes.GetTokenAttributes | method.go:32-38 | the five passes in order leave `AttributesOf` of the old token |
| Attributes.FreshIsTestable | xxToken.go:27-40 | a token as `initXxToken` leaves it can go through `testComment` |
| Attributes.AttributesKeepOrigin | xxToken.go:27-134 | no pass changes the line number, the raw text or its length, or the quoting, and none clears a comment flag |
| Attributes.CommentGetsNoHex | xxToken.go:110-134 | a token that ends up a comment keeps the hex and `isHex` it started with, which are empty and false for a fresh token |
| Attributes.QuotedNeverHex | xxToken.go:110-126 | the passes never set `isHex` on a quoted token |
| Attributes.MarkerTokenIsComment | xxToken.go:42-84 | a fresh ASCII token starting with an ASCII marker becomes an ASCII comment and nothing else |
| Attributes.QuotedTokenIsText | xxToken.go:42-134 | a fresh quoted ASCII token not starting with a marker gets the hex of its characters, which decodes to their codes |
| Attributes.PlainTokenIsHex | xxToken.go:42-134 | a fresh unquoted ASCII token that is not a marker or a binary literal becomes hex with its filtered text; if nothing remains, it gets the hex of its characters |
| Attributes.NoiseTokenIsText | xxToken.go:110-134 | the unquoted token `h` gives hex `68` |
| Attributes.BinaryTokenIsByte | xxToken.go:86-126 | a fresh binary literal becomes a hex token of the byte its digits spell |
| Assembler.LineHexData | method.go:287-295 | the token loop with its early exit gives `LineHexOf`: each token's hex after the passes, up to the first token that is or holds a comment |
| Assembler.PassedCopy | method.go:288-290 | the copy of a token sent through the passes comes back as `AttributesOf` of it |
| Assembler.HexUntilAppend | method.go:287-295 | a line's hex splits at any point; the second part counts only if the first has no comment |
| Assembler.LineHexAppend | method.go:287-295 | the same split, stated for tokens before the passes |
| Assembler.SingleTokenHex | method.go:287-295 | a one-token line that is not a comment contributes that token's hex |
| Assembler.DecodeLine | method.go:296-311 | the decode and its fallback give `DecodeLineOf` |
| Assembler.DecodeLineCases | method.go:296-311 | a line decodes exactly when it is ASCII; valid hex gives its decode; other ASCII gives its character codes |
| Assembler.AssembleLine | method.go:280-311 | tokenising, the passes, joining and decoding a logical line give `LineBytes` |
| Assembler.TokenizedTestable | method.go:214-269 | every token the tokenizer yields can go through `testComment` |
| Assembler.ParseXX | method.go:271-315 | the line loop gives `ParseXXOf`: the bytes of the file, or the number of the first bad line with its decode error |
| Assembler.ParseFromCons | method.go:278-313 | the file is processed one line at a time; an error stops the loop |
| Assembler.LineStepHeld | method.go:280-284 | a held line advances the line number and comment state and writes nothing |
| Assembler.LineStepDecoded | method.go:285-312 | a line that is not held appends its bytes, or stops with `BadLine` and its number |
| Assembler.ParseSplit | method.go:278-313 | processing a+b is processing a, then b from the state a leaves |
| Assembler.ParseAppendsOutput | method.go:278-313 | the output is the earlier output followed by the new lines' bytes, in order; the line number advances by one per line |
| Assembler.SwallowedLineWritesNothing | method.go:280-284 | a line swallowed by an open block comment writes nothing |
| Assembler.OneLineFile | method.go:271-315 | a one-line file without `/*` gives that line's bytes, or `BadLine` at line 1 |
| Assembler.HexWordIsHex | xxToken.go:110-126 | a fresh hex word is hex and keeps its text |
| Assembler.WordIsOneToken | method.go:214-269 | a word without spaces or quotes, and without white space at its ends, is a single unquoted token |
| Assembler.HexLineBytes | method.go:271-315 | a line of even-length hex gives exactly its decode |
| Assembler.HexLineAssembles | method.go:271-315 | a one-line file of even-length hex assembles to its decode |
| Assembler.QuotedLineBytes | method.go:214-311 | a quoted ASCII word without escapes or markers gives its character codes |
| Assembler.QuotedLineAssembles | method.go:271-315 | a one-line file holding such a quoted word assembles to its character codes |
| GoStrings.IndexOf | method.go:190 | `strings.Index`, which `strings.Cut` uses: -1 when the separator does not occur, otherwise the first position where it occurs |
| GoStrings.ContainsIff | method.go:189 | `strings.Contains` holds exactly when the separator occurs somewhere in the text |
| GoStrings.EncodeRune | method.go:124 | a character's UTF-8 encoding has one to four bytes, one exactly when the character is below 0x80; a longer one has a lead byte of 0xC0 or more and continuation bytes from 0x80 to 0xBF |
| GoStrings.Utf8 | xxToken.go:30-32 | `[]byte(s)`, whose `len` is the byte length: at least one byte per character, and none only for the empty text |
| GoStrings.AsciiIffBytes | xxToken.go:43-44 | `utf8string`'s `IsASCII`: a text is ASCII exactly when every byte of its encoding is below 0x80 |
| GoStrings.IsSpaceLatin1 | method.go:215 | `unicode.IsSpace`, which `strings.TrimSpace` uses: in the Latin-1 range it holds exactly for tab, newline, vertical tab, form feed, carriage return, space, U+0085 and U+00A0 |
| GoStrings.TrimSpace | method.go:215 | the trimmed text starts and ends with a non-space, and a text with no outer space is unchanged |
| GoStrings.TrimSpaceIsInner | method.go:215 | the trimmed text is the part of the input between a run of leading and a run of trailing white space |
| GoStrings.Before | method.go:201 | the text before the first separator is a prefix of the input that does not contain the separator; the whole input if there is none |
| GoStrings.After | method.go:190 | the input is the text before the separator, the separator, then the result |
| GoStrings.ReplaceAll | method.go:94 | deleting a pattern never lengthens the text; deleting a single character gives `Without`, the text with every copy of it taken out and the rest kept in order; a pattern that cannot occur leaves the text unchanged |
| GoStrings.Utf8Append | xxToken.go:30-32 | the byte encoding of a+b is the encoding of a followed by the encoding of b |
| GoStrings.TrimLeftSuffix | method.go:215 | left trimming drops a prefix made only of white space |
| GoStrings.TrimRightPrefix | method.go:215 | right trimming drops a suffix made only of white space |
| GoStrings.AsciiUtf8 | xxToken.go:30-32 | an ASCII text's bytes are its character codes |
| GoStrings.SplitChars | method.go:222 | splitting gives one one-character string per character, in order |
| GoHex.EncodeToString | method.go:124 | `hex.EncodeToString`: two lower-case hex digits per byte |
| GoHex.EncodedPairs | xxToken.go:113 | each pair of digits of the encoding spells the byte at its position, 16 times the first digit plus the second |
| GoHex.DecodeString | method.go:296 | decoding succeeds exactly on even-length hex text and gives half as many bytes |
| GoHex.DecodedBytes | method.go:296 | each byte is 16 times the first digit of its pair plus the second |
| GoHex.DecodeEncode | xxToken.go:113-114 | decoding the hex encoding of any bytes gives those bytes back |

## Left out

- `main.go` is not part of this model. It parses flags, prints usage, sets the log level and reads the input file, which is command-line and file I/O.
- `toml.go` is not part of this model. It is a thin wrapper over an external TOML decoder.
- `writeBin` (method.go:129-136) is left out because it writes the output file and exits.
- `dHex` (method.go:138-181) is left out because it prints a hex dump of finished bytes to standard output.
- `getCommentListPara` (method.go:54-89) builds the marker list with goroutines and channels. The consumer drains the channels one after another, so the list is the same as `getCommentList` gives, in the same order. `testComment` is modelled with that sequential list, and the concurrency is not modelled.
- Log calls are left out; they do not affect the result.
- `os.Exit(3)` is not modelled as leaving the process. `parseXX` instead returns the error `BadLine` with the line number and the decode error.
- Text is a sequence of Unicode characters. Go's byte lengths and byte indexing are modelled through the UTF-8 encoding. A Go string holding invalid UTF-8 is not modelled.
- TokenComments.TestComment and Attributes.GetTokenAttributes require the token's lengths to agree with its text, as for every token the tokenizer produces. A token whose recorded length exceeds its text would make Go index out of range and panic. The pure `TestCommentOf` then leaves the token unchanged, and no method models the panic.
- Assembler.ParseXX and the line lemmas take the file as a sequence of lines already split. How `main.go` reads and splits the file is not part of this model.
