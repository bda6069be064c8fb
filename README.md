# INI loader and placeholder writer

This project models two small line-processing utilities and proves properties of them.

- **`IniFileParser.load`** (module `IniFileParser`, file `ini_file_parser.dfy`) reads an INI-style file.
  - The input is its content, already split into lines.
  - Each non-empty line is classified by one column-0-anchored pattern: a section header `[name]` or a key line `key = value`.
  - Each value is coerced to a boolean, then an integer, else kept as text.
  - Key/value pairs before the first header go into the root mapping.
  - Each header's following pairs become one nested mapping, stored at the root under the header's name.
  - A non-empty line the pattern rejects raises an error carrying the line and its 1-based number.
  - The loader is the imperative `Load` loop. It is proved equal to the specification function `Parse`, and the properties are proved about `Parse`.
- **`writeFile`** (module `DdWrite`, file `dd_write.dfy`) rewrites XML lines.
  - Every placeholder on a rewritten line is replaced, left to right, by the next line of a translated text, or by `""` once that text is used up. A placeholder is a shortest non-empty run of characters other than `[` followed by `]]` (the pattern `([^\[]+?)(?=]{2})`). No opening `[` is needed: in `a]]b]]` both `a` and `]]b` are placeholders.
  - A module-wide counter, `substitutions`, is never reset.
  - When no language is given (`WriteAll`), the whole document is rewritten, with its rules about dropping newlines.
  - Otherwise a line is rewritten when two things hold. The last line before it containing `<language id="` names `lang`, and the line itself has no `</language>`.
  - The counter and the output are the fields of the class `Writer`. Its methods mirror `backslashToString`, `re.sub`, `Write`, `WriteAll` and `writeFile`.
  - Each method is proved against a specification function: `Sub`, `WriteChunk`, `DocRun` or `LangRun`.
- `wrappers.dfy` holds the `Option` and `Result` datatypes.

The `</language>` line is written without substitution, but it does not clear the flag. Lines after it stay in substituting mode until the next `<language id="` line. The model keeps this behaviour as written (`DdWrite.FlagLastTag`).

The pattern's `\s` and `int()` skip different whitespace, and the model keeps them apart (`IsSpace` and `IsIntSpace`). `\s` matches space, `\t` to `\r` and `\x1c` to `\x1f`. `int()` strips only space and `\t` to `\r` around its argument. So the line `a=5\x1f` stores the text `5\x1f`, not the integer 5.

## Model

| member | source | states |
|---|---|---|
| IniFileParser.WordRunSpec | module/config/tools/ini_file_parser.py:45 | `\w+` / `\w*` take the longest run of word characters: every character in the run is a word character, and the run ends at the end of the line or at a non-word character |
| IniFileParser.ClassifySound | module/config/tools/ini_file_parser.py:45 | every line accepted as a header starts with `[`, a word-character name and `]`; every line accepted as a key line is a non-empty word key, `=` with at most one whitespace on each side, and the value |
| IniFileParser.ClassifyHeaderLine | module/config/tools/ini_file_parser.py:45 | `[name]` followed by any text is always accepted as header `name`, including the empty name |
| IniFileParser.ClassifyKeyLine | module/config/tools/ini_file_parser.py:45-58 | `key[ws]=rest` is always accepted as that key, with the rest of the line as value less one leading whitespace; `key=` gives `""` and `a=b=c` gives key `a` and value `b=c` |
| IniFileParser.BlankLineRejected | module/config/tools/ini_file_parser.py:45-54 | a non-empty whitespace-only line matches neither alternative, so it is reported rather than skipped |
| IniFileParser.GetBoolSpec | module/config/tools/ini_file_parser.py:10-15 | `_getBool` gives True or False exactly for the case-insensitive spellings of `true` and `false`, and None for everything else |
| IniFileParser.CoercionOrder | module/config/tools/ini_file_parser.py:60-63 | a value becomes True or False exactly when it spells `true` or `false` in any capitalisation; otherwise it becomes an integer exactly when `int()` accepts it, with `int()`'s value; otherwise it stays the unchanged raw string |
| IniFileParser.CoerceIntText | module/config/tools/ini_file_parser.py:17-24 | an integer's decimal text within the digit limit, with any whitespace `int()` skips around it, is stored as that integer and not as a boolean or text |
| IniFileParser.ParseIntRoundTrip | module/config/tools/ini_file_parser.py:17-24 | `int()` reads back the decimal rendering of every integer within the digit limit, surrounded by any amount of space and `\t` to `\r` |
| IniFileParser.IntTextIsNotBool | module/config/tools/ini_file_parser.py:10-15 | a rendered integer is never taken for a boolean |
| IniFileParser.CoerceRoundTrip | module/config/tools/ini_file_parser.py:60-63 | coercion reads back the rendering of every boolean, every integer within the digit limit and every string that is not itself boolean or integer text |
| IniFileParser.DictLast | module/config/tools/ini_file_parser.py:68-87 | `dict(zip(...))` holds a repeated key with the value of its last occurrence |
| IniFileParser.FirstBadSpec | module/config/tools/ini_file_parser.py:46-54 | the scan stops at the first line that is non-empty and unmatched, and finds one whenever such a line exists |
| IniFileParser.ParseErrors | module/config/tools/ini_file_parser.py:46-54 | loading fails iff some line is non-empty and unmatched; the error carries the first such line and its 1-based number, counting the skipped empty lines |
| IniFileParser.FirstBadAt | module/config/tools/ini_file_parser.py:52-54 | raising at the first unmatched line gives the same error whatever lines follow it |
| IniFileParser.AccumulatePair | module/config/tools/ini_file_parser.py:60-63 | appending a key and its coerced value extends the sectionless pairs before any header, and the open section's pairs after one |
| IniFileParser.AccumulateFirstHeader | module/config/tools/ini_file_parser.py:71-78 | at the first header the pending pairs become the root mapping and the new section opens empty |
| IniFileParser.AccumulateNextHeader | module/config/tools/ini_file_parser.py:65-78 | a later header closes the open section into `kv_list` and opens a new one |
| IniFileParser.AccumulateEnd | module/config/tools/ini_file_parser.py:79-87 | the final flush and the merge of `sections` zipped with `kv_list` give exactly the specified root mapping |
| IniFileParser.ConsumeItem | module/config/tools/ini_file_parser.py:60-78 | one matched line keeps `config`, `kv_list`, `sections`, `keys`, `values` and `current_section` in step with the lines read so far |
| IniFileParser.Finish | module/config/tools/ini_file_parser.py:79-87 | the final flush of the pending pairs and the merge of every section into the root produce exactly the specified root mapping |
| IniFileParser.Load | module/config/tools/ini_file_parser.py:26-88 | the loop returns exactly the specified result: the first bad line's error, or the root mapping |
| IniFileParser.EmptyLineIgnored | module/config/tools/ini_file_parser.py:46-48 | inserting an empty line anywhere leaves every successful load unchanged |
| IniFileParser.RootKeys | module/config/tools/ini_file_parser.py:71-87 | the root's keys are exactly the sectionless keys and the section names |
| IniFileParser.SectionEntry | module/config/tools/ini_file_parser.py:65-87 | a section name maps to the mapping of the pairs after its last header, replacing any sectionless value with that name |
| IniFileParser.SectionlessEntry | module/config/tools/ini_file_parser.py:71-85 | a sectionless key with no section of the same name maps to the coerced value of its last occurrence |
| DdWrite.MatchAtSpec | src/ddWrite.py:16 | the match starting at a position is the shortest non-empty run of non-`[` characters followed by `]]`, and exists iff such a run does |
| DdWrite.NextMatchSpec | src/ddWrite.py:16-17 | the scan finds the leftmost match at or after a position, and finds one whenever one exists |
| DdWrite.SearchSpec | src/ddWrite.py:16 | `re.search` succeeds iff the line holds a placeholder |
| DdWrite.HolesShape | src/ddWrite.py:16-17 | every matched placeholder is non-empty and contains no `[` |
| DdWrite.FillHoles | src/ddWrite.py:17 | the texts between matches, interleaved with the matches, give the line back |
| DdWrite.SubSpec | src/ddWrite.py:17 | `re.sub` keeps the text between matches and replaces the k-th match by the k-th text handed out; the counter advances once per match until the input runs out |
| DdWrite.TextsAt | src/ddWrite.py:58-66 | the k-th replacement text is input line `c + k`, or `""` once the input is used up |
| DdWrite.AdvanceAdd | src/ddWrite.py:58-63 | the counter is shared: consuming for `m1` matches and then `m2` matches is consuming for `m1 + m2` |
| DdWrite.AdvanceBounds | src/ddWrite.py:58-66 | the counter never decreases, never passes the input's length, and rises by one per match while input remains |
| DdWrite.SubNoMatch | src/ddWrite.py:25-29 | a line without a placeholder is unchanged and the counter untouched |
| DdWrite.FlagLastTag | src/ddWrite.py:74-89 | the flag is on iff the last line before this one with `<language id="` (not followed by `>`) names `lang`; `</language>` does not clear it |
| DdWrite.WriteChunkSpec | src/ddWrite.py:36-44 | `Write` appends the line plus a newline, substituted when asked to substitute |
| DdWrite.LangChunk | src/ddWrite.py:76-83 | in language mode, line j is substituted iff the flag is on and the line has no `</language>`, and it is always followed by a newline |
| DdWrite.LangCounter | src/ddWrite.py:76-83 | language mode consumes one input line per placeholder in the lines it substitutes |
| DdWrite.OpeningLineVerbatim | src/ddWrite.py:85-89 | the flag is updated after writing, so the tag line that turns it on is written unchanged |
| DdWrite.LangNewlines | src/ddWrite.py:39-44 | every chunk written in language mode ends in a newline |
| DdWrite.DocChunkAt | src/ddWrite.py:13-29 | in whole-document mode a matched line drops its newline iff the lines matched before it number exactly the input's length, and an unmatched line iff they number more |
| DdWrite.DocNewlines | src/ddWrite.py:19-29 | when no more lines hold a placeholder than there are input lines, every chunk ends in a newline |
| DdWrite.DocOneUnterminated | src/ddWrite.py:19-24 | at most one matched line is written without its newline |
| DdWrite.DocCounter | src/ddWrite.py:13-24 | whole-document mode consumes one input line per placeholder in the document |
| DdWrite.CounterBounded | src/ddWrite.py:58-66 | started within the input, the counter stays within it and never goes back in either mode |
| DdWrite.Writer.constructor | src/ddWrite.py:3 | the counter starts at 0 and nothing is written |
| DdWrite.Writer.BackslashToString | src/ddWrite.py:46-66 | returns the next input line and increments the counter while one is left; otherwise returns `""` and leaves the counter unchanged |
| DdWrite.Writer.Substitute | src/ddWrite.py:17 | the `re.sub` loop with the counting callback produces exactly `Sub`'s text and counter |
| DdWrite.Writer.Write | src/ddWrite.py:31-44 | appends exactly `WriteChunk`'s text and sets the counter to its value |
| DdWrite.Writer.WriteAll | src/ddWrite.py:13-29 | appends exactly the whole-document chunks, with `i` counting the matched lines; the counter continues from its old value |
| DdWrite.Writer.WriteFile | src/ddWrite.py:68-89 | with an empty language it behaves as `WriteAll`; otherwise it appends the language-mode chunks, tracking the flag line by line; the counter continues from any earlier call |

## Left out

- Input reading and decoding (`fp.read()`, `decodeInput`, `splitlines()` and its line-boundary characters) are not part of this model. The loader takes the already split lines. `IniFileParser.Load` requires that no line contains `\n`, which `splitlines()` guarantees. With a `\n` inside a line, Python's `(?<!.)` and `.*` would not mean "column 0" and "the rest of the line", as `Classify` takes them to.
- File I/O in the writer is not modelled. Each `open(...).write(...)` becomes an append to `Writer.written`. `txt_input` and `sanitizedXML` are given sequences.
- The warning printed by `backslashToString` once the input is used up is left out. It has no effect on the output or the counter.
- `\w`, `\s` and the digits that `int()` accepts are ASCII only. Python also accepts Unicode letters, spaces and digits.
- `str.lower()` is modelled on ASCII letters only. This is exact for the comparison with `"true"`/`"false"`: no non-ASCII character lowers to one of their letters.
- `int()`'s digit limit is the interpreter's default, 4300 digits, held as a constant.
- IniFileParser.ParseErrors: the error's message text (`Unexpected input '…' at line n`) is not built. The error carries the line and its number, which are the two parts of the message.
- The insertion order of Python dictionaries is not modelled. Mappings are Dafny `map`s, so only keys and values are stated.
- `lang` is read as a literal string. The source interpolates it into a regular expression unescaped, so metacharacters in it are not modelled.
- `str(...)` around the input line in `backslashToString` is the identity on strings and is not modelled.
- The user-interface files (the card stack and the settings check box) and the validation-model generator are not part of this model. They are widget composition and pydantic model building with no self-contained logic to state.
