# rio: a verified model of the resource compiler

rio turns a resource file of bracketed entries into a C header. Each entry has an identifier, and each of its lines pairs a language tag with a quoted string:

```
[greet]
en = "hello"
fr = "bonjour"
```

The header holds one `#define __RIO__<id>__<lang>__ <value>` per pair, plus the macros that resolve `rio(id)` to the default language.

The model covers three parts of the program:

- **Reader (input.c).** The lexer `scan` and the recursive-descent parser.
  - The parser consists of `struct parser` with its cursor helpers, `parse_nl`, `parse_pair`, `parse_entry`, `parse`, and the part of `input` that runs after the file has been read.
- **Document model (lang.h).** Pairs, entries and the document.
- **Generator (output.c).** Every helper that writes part of the header, and `output`.

Each part follows the shape of the C code:

- **Cursors and documents are classes.** The cursor structs, the entry being filled and the document are classes whose fields change in place:
  - `Lexer.Lexer` has a `pos` cursor.
  - `Parser.Parser` has an `index` field.
  - `Document.Entry` and `Document.Lang` hold sequences that `entry_add` and `lang_add` append to.
- **Each loop is a method with a while loop.** This covers the scan loop, the comment, string and identifier loops, the entry-body loop, the loop of `parse`, and the two nested loops of `body`.
  - Each such method is proved against a pure function of its input:
    - `Lexer.LexFrom` for the scan;
    - `Parser.PairAt`, `BodyFrom`, `EntryAt` and `DocumentFrom` for the parser;
    - `Generator.PairsText`, `EntriesText` and `OutputText` for the generator.
- **Lemmas state the promised behaviour.** They connect those functions to what the program promises:
  - the quirks of each lexer rule;
  - the grammar the parser accepts;
  - the order and shape of the generated lines.
  - Three inverse pairs are closed:
    - scanning inverts spelling tokens out;
    - parsing inverts writing a document out as tokens;
    - scanning and parsing together invert writing a document out as text.
  - Two concrete examples are proved:
    - the header `include/rio/strings.h` is the output for the tool's own messages;
    - the `greet` document above goes from text to header.

Modules:

| module | file | models |
|---|---|---|
| `Wrappers` | wrappers.dfy | `Option` |
| `Document` | document.dfy | include/rio/lang.h |
| `Lexer` | lexer.dfy | rio/input.c lines 25-152 |
| `Parser` | parser.dfy | rio/input.c lines 154-308 |
| `Generator` | generator.dfy | rio/output.c |
| `Pipeline` | pipeline.dfy | reading back what was written, across lexer and parser |
| `Samples` | samples.dfy | include/rio/strings.h and an end-to-end example, from input text to header |

Behaviour kept exactly as the C code has it:

- **Comments.** A comment consumes the newline that ends it, so it yields no NEWLINE token.
- **Unterminated strings.** A string with no closing quote ends the scan without any diagnostic, and the scan still succeeds.
- **Identifiers at the end of the input.** An identifier of two or more characters that reaches the end of the input is dropped. A single letter at the end is kept, because the `do`/`while` loop then reads the terminating NUL.
- **`parser_assert`.** It consumes a token even when the kind does not match.
- **`parse_nl`.** After a pair it therefore consumes the token it rejects.
- **Bad pairs are skipped.** Malformed pairs inside an entry body are skipped without an error. A pair missing its NEWLINE can swallow the `[` of the next header (`Parser.MalformedPairSwallowsHeader`).
- **Leading NEWLINEs.** At most one NEWLINE may precede the first header. Before a later header any number of blank lines is accepted: the body loop of the previous entry takes each NEWLINE as a failed `parse_pair` (`Parser.BlankLinesBeforeLaterHeader`).
- **Entries before a failure stay.** A failed `parse` still leaves the entries read before the failure in the document.
- **Include guard.** `output` passes the empty name to `guard_start` whatever the destination, so the guard is always `__RIO__AUTOGEN____H`.
- **Default language.** It is written in the `__RIO__DEFAULT__LANG__` line and also in the `rio(id)` line; `Generator.DefaultLanguageConfined` states both lines.

## Model

The methods are proved equal to reference functions: `Lexer.Scan` to `Lexer.Lex` (through `Lexer.LexFrom`), `Parser.Parse` to `Parser.ParseTokens` (through `Parser.DocumentFrom`, `EntryAt`, `BodyFrom` and `PairAt`), and the loops of `Generator.Body` and `Generator.Output` to `Generator.PairsText`, `EntriesText` and `OutputText`. Each of these functions follows the rules of the C code step by step; the lemmas in the table state what they mean.

| member | source | states |
|---|---|---|
| Document.Entry.constructor | include/rio/lang.h:40-46 | `entry_new`: the entry has the given id and no pairs |
| Document.Entry.Add | include/rio/lang.h:48-51 | `entry_add`: the new pairs are the old pairs followed by the new one |
| Document.Lang.constructor | include/rio/lang.h:57-62 | `lang_new`: the document has no entries |
| Document.Lang.Add | include/rio/lang.h:64-67 | `lang_add`: the new entries are the old ones followed by a copy of the entry, with no check for a repeated id; the length grows by one |
| Lexer.GetString | rio/input.c:72-80 | the copy has length n and holds the n characters that start at p |
| Lexer.CommentEnd | rio/input.c:99-105 | the comment loop stops just past the first newline, or at the end when there is none; no newline lies before that point |
| Lexer.NextQuote | rio/input.c:122-131 | the string loop stops at the first double quote, or at the end; no quote lies before it |
| Lexer.IdentEnd | rio/input.c:133-144 | the identifier loop stops at the first character that cannot continue an identifier, or at the end; every character before it can |
| Lexer.Lexer.constructor | rio/input.c:52-55 | `lex_init`: the cursor starts at the first character |
| Lexer.Lexer.Read | rio/input.c:57-60 | `lex_read`: the character under the cursor; the terminating NUL exactly at the end |
| Lexer.Lexer.HasNext | rio/input.c:67-70 | `lex_has_next`: true exactly when the character under the cursor is not NUL |
| Lexer.Lexer.Next | rio/input.c:62-65 | `lex_next`: returns the character under the cursor and moves the cursor on by one |
| Lexer.Lexer.SkipComment | rio/input.c:99-105 | the comment loop leaves the cursor just past the next newline, or at the end |
| Lexer.Lexer.ScanString | rio/input.c:122-131 | the string loop yields the text from the opening quote through the closing one and stands after the closing quote; with no closing quote it yields nothing and stands at the end |
| Lexer.Lexer.ScanIdent | rio/input.c:133-144 | the identifier loop yields the identifier and stands on the character that ends it; it yields nothing when an identifier of two or more characters reaches the end |
| Lexer.Scan | rio/input.c:82-152 | `scan` returns exactly `Lex(input)`, the rule-by-rule reading of the input, including None on an unknown character |
| Lexer.LexWellFormed | rio/input.c:122-144 | every token of a successful scan is well formed: an ID starts with a letter and goes on over letters, digits and `_`; a STRING is quoted at both ends; other kinds carry no text |
| Lexer.LexInvertsSpell | rio/input.c:82-152 | scanning the tokens spelled out with spaces gives back exactly those tokens, in order |
| Lexer.UnknownCharacterDiscardsTokens | rio/input.c:146-148 | an unknown character other than NUL after any tokens makes the whole scan fail, whatever follows, so the tokens gathered so far are discarded |
| Lexer.BlankInput | rio/input.c:93-98 | white space scans to one NEWLINE per newline character and to nothing for other white space |
| Lexer.NewlineTokensCount | rio/input.c:93-96 | in input with no `#` and no `"`, when the scan succeeds, the number of NEWLINE tokens equals the number of newline characters |
| Lexer.CommentEmitsNothing | rio/input.c:99-105 | from `#` through the newline that ends the comment, no token at all is produced, not even NEWLINE |
| Lexer.CommentToEnd | rio/input.c:99-105 | a comment with no newline after it runs to the end, and the scan succeeds with no token from it |
| Lexer.StringVerbatim | rio/input.c:122-128 | a STRING token holds exactly the characters from the opening quote through the next quote, with no escape processing |
| Lexer.UnterminatedString | rio/input.c:122-131 | a quote with no closing quote ends the scan successfully and adds no token |
| Lexer.IdentifierToken | rio/input.c:133-140 | an ID token stops before the first non-identifier character, and the scan continues at that character |
| Lexer.IdentifierAtEnd | rio/input.c:133-144 | an identifier that reaches the end is kept if it is one letter and dropped otherwise |
| Parser.AssertRun | rio/input.c:187-196 | a run of `parser_assert` calls stays within the tokens; a matching run advances by its length; it advances whenever a token remains |
| Parser.Nl | rio/input.c:221-228 | `parse_nl` succeeds exactly at the end or on a NEWLINE, and consumes one token unless at the end |
| Parser.PairAt | rio/input.c:230-249 | `parse_pair` never moves past the end, always advances when a token remains, and fails without moving at the end |
| Parser.BodyFrom | rio/input.c:266-267 | the entry-body loop stops at the end of the tokens or on a `[` |
| Parser.EntryAt | rio/input.c:251-272 | `parse_entry` never moves past the end, and a successful entry consumed its header |
| Parser.Parser.constructor | rio/input.c:160-165 | `parser_init`: index 0, max the number of tokens |
| Parser.Parser.Read | rio/input.c:167-170 | `parser_read`: the token under the cursor, without moving |
| Parser.Parser.Next | rio/input.c:172-175 | `parser_next`: returns the token under the cursor and advances by one |
| Parser.Parser.HasNext | rio/input.c:177-180 | `parser_has_next`: exactly when index < max |
| Parser.Parser.End | rio/input.c:182-185 | `parser_end`: exactly when index == max |
| Parser.Parser.Assert | rio/input.c:187-196 | `parser_assert`: when a token remains, it advances by exactly one whether or not the type matches, and returns the token only on a match; at max it fails without moving |
| Parser.Parser.AssertRead | rio/input.c:198-208 | `parser_assert_read`: it advances by one and returns the token only on a match; otherwise (at max too) it fails without moving |
| Parser.Parser.AssertType | rio/input.c:210-219 | `parser_assert_type`: true exactly when a token remains and has the type; it never moves |
| Parser.ParseNl | rio/input.c:221-228 | returns 0 exactly when `Nl` matches, and leaves the cursor where `Nl` says |
| Parser.ParsePair | rio/input.c:230-249 | appends exactly the pair `PairAt` yields, or nothing; returns 0 exactly when a pair was appended; the cursor ends where `PairAt` says |
| Parser.ParseBody | rio/input.c:266-267 | the body loop appends exactly the pairs of `BodyFrom`, in order, and stops where it says |
| Parser.ParseEntry | rio/input.c:251-272 | appends exactly the entry `EntryAt` yields, or nothing; returns 0 exactly when it appended |
| Parser.ParseBlock | rio/input.c:279-282 | one turn of the `parse` loop: an optional NEWLINE, then `parse_entry` |
| Parser.Parse | rio/input.c:274-286 | `parse` appends exactly `ParseTokens(tokens).entries` after the existing entries, and returns 0 exactly when that parse is ok, else -1 |
| Parser.Input | rio/input.c:306-307 | `input` after reading: a failed scan returns -1 and leaves the document alone; otherwise the result is that of `parse` on the scanned tokens |
| Parser.AssertRunMatches | rio/input.c:187-196 | a run of asserts matches exactly when the next tokens have the expected types, in order |
| Parser.PairAtShape | rio/input.c:230-249 | `parse_pair` yields a pair exactly for ID `=` STRING followed by NEWLINE or the end, built from the ID and STRING texts |
| Parser.EntryAtShape | rio/input.c:251-264 | `parse_entry` succeeds exactly for `[` ID `]` followed by NEWLINE or the end; the entry has the header's id and the body's pairs |
| Parser.HeaderFailureStops | rio/input.c:279-283 | a block that is not one optional NEWLINE followed by a header makes `parse` fail, and that block adds no entry |
| Parser.BodyPairsFromPairLines | rio/input.c:266-267 | every pair gathered by an entry body comes from a well-formed pair line inside the body |
| Parser.ParseInvertsTokens | rio/input.c:274-286 | every document, written as header and pair lines of tokens, parses back to itself; order and repeated ids or tags are kept |
| Parser.BlankLinesBeforeLaterHeader | rio/input.c:235-283 | three NEWLINEs between the headers `[a]` and `[b]` parse successfully to the two empty entries: after the one that ends the header line, each is a failed pair of entry a |
| Parser.MalformedPairSwallowsHeader | rio/input.c:221-267 | a pair without its NEWLINE consumes the next `[`: tokens for `[a]`, `en = "x" [b]`, `fr = "y"` parse successfully to entry a with only the pair fr |
| Parser.LeadingNewlines | rio/input.c:279-283 | one NEWLINE may precede the first header but two may not; a lone NEWLINE fails; no tokens give an empty, successful parse |
| Generator.Preamble | rio/output.c:25-28 | `premable` writes the banner and a blank line |
| Generator.GuardStart | rio/output.c:30-34 | `guard_start` writes the `#ifndef` and `#define` lines of the guard |
| Generator.GuardEnd | rio/output.c:36-39 | `guard_end` writes `#endif`, with no newline after it |
| Generator.Define | rio/output.c:41-44 | `define` writes `#define __RIO__<id>__<lang>__ <value>` and a newline |
| Generator.DefineDefault | rio/output.c:46-49 | `define_default` writes the `rio(id)` macro for the default language |
| Generator.DefineDefaultLang | rio/output.c:51-54 | `define_default_lang` writes the `__RIO__DEFAULT__LANG__` macro |
| Generator.DefineLang | rio/output.c:56-59 | `define_lang` writes the `rio_lang` token-pasting macro |
| Generator.DefinePairs | rio/output.c:72-77 | the inner loop of `body` appends `PairsText(id, ps)` |
| Generator.DefineEntries | rio/output.c:69-78 | the outer loop of `body` appends `EntriesText(entries)` |
| Generator.Body | rio/output.c:61-81 | `body` appends a blank line, the three macros, every define and a blank line |
| Generator.Output | rio/output.c:83-96 | when the file cannot be opened, -1 and no file; otherwise 0 and a fresh file holding exactly `OutputText(lg, doc)` |
| Generator.PairsTextIsLines | rio/output.c:72-77 | the inner loop writes one define line per pair, in pair order |
| Generator.EntriesTextIsLines | rio/output.c:69-78 | the defines are one line per definition, entries in order and pairs in order within each entry |
| Generator.DefinitionsCount | rio/output.c:69-78 | there are as many defines as pairs: none dropped, none merged |
| Generator.OnePairEach | rio/output.c:69-78 | when each entry has one pair, the k-th define is that of the k-th entry |
| Generator.DefinitionsComplete | rio/output.c:69-78 | a definition is written exactly when some entry has a pair with that language and value under that id |
| Generator.MacroNameInjective | rio/output.c:41-44 | for ids and tags without `_`, equal macro names mean equal id and equal tag |
| Generator.MacroNamesCollide | rio/output.c:41-44 | with underscores, two different pairs (`a__b`/`c` and `a`/`b__c`) define the same macro with different values |
| Generator.OpeningLines | rio/output.c:30-34 | with the empty guard name the guard macro is `__RIO__AUTOGEN____H`, and the default language appears in lines 6 and 7 of the file |
| Generator.OutputIsLines | rio/output.c:83-96 | the file is the banner, the two guard lines, a blank line, the three macros, the defines in document order, a blank line and `#endif` |
| Generator.DefaultLanguageConfined | rio/output.c:61-66 | two default languages give files with the same lines except the `__RIO__DEFAULT__LANG__` line and the `rio(id)` line |
| Generator.NoPairsNoDefines | rio/output.c:69-78 | no define lines are written exactly when the document has no pairs |
| Pipeline.LexRender | rio/input.c:82-152 | the text of a well-formed document, written as `[id]` header lines and `lang = "value"` pair lines, scans to the document's tokens wherever it stands in the input, and the scan then goes on after it as from its end |
| Pipeline.ReadInvertsRender | rio/input.c:82-286 | the text of a well-formed document, in the usual layout of the example above, contains no NUL, scans to the document's tokens, and parses back to the document |
| Samples.StringsHeaderSample | include/rio/strings.h:1-18 | generating the tool's eight English messages with default language `en` yields that header exactly |
| Samples.GreetScenario | rio/output.c:83-96 | the text of the `greet` entry above scans to its tokens and parses to one entry with pairs en and fr; generating it with default language `fr` gives the fixed lines, then defines for en and fr in that order |

## Left out

- rio/rio.c is not part of this model. It handles arguments, prints diagnostics and exits.
  - Because `main` ignores the result of `input`, no member here ties generation to a successful parse.
- File reading in `input` is left out: `fopen`, `fseek`, `ftell`, `malloc` and `fread`. `Parser.Input` starts from the text that was read.
- `fopen`, `fprintf` and `fclose` in `output` are modelled abstractly:
  - the outcome of `fopen` is the parameter `isOpen`;
  - `fprintf` is `File.Write`, which appends to a string;
  - `fclose` and write errors are not modelled.
- Parser.Input: when `scan` returns NULL, the C code passes it to `parse`, which is undefined behaviour. The model returns -1 and leaves the document unchanged instead.
- Lexer.Scan: requires input without a NUL character. The C code sees a NUL as the end of the string, so text after an embedded NUL is never scanned.
- The library code is replaced by plain values:
  - memory allocation, `abort` and pointer ownership in `get_string`, `pair_new`, `entry_new` and `lang_new`: captured text is a sequence slice, and the structs are values or class instances;
  - the libcx `vec`: a Dafny sequence.
- `isspace`, `isalpha` and `isalnum` are fixed to the ASCII "C" locale. Other locales are not modelled.
- The input is a sequence of Unicode characters, while `scan` walks bytes. No behaviour is lost: a character beyond ASCII is unknown outside comments and strings, so the scan fails as it would on its first byte, and inside a comment or a string it is skipped or copied as its bytes would be.
- Generator.MacroNameInjective: holds only for ids and tags without `_`. With underscores, names can collide, which `Generator.MacroNamesCollide` shows.
- Repeated ids and repeated language tags are kept in order, as the code keeps them. The model assigns no precedence among them, because the C preprocessor decides that.
