# citeseer core in Dafny

citeseer is a terminal browser for a BibTeX bibliography. This project models
three parts of it and proves properties of each:

- the line-oriented BibTeX scanner `parse_bibtex` (`src/parse.rs`);
- the reference record and the CSV header reader `get_field_indices`
  (`src/reference.rs`);
- the browsing state `App` (`src/app.rs`): a wrapping selection, the
  scroll position, a cycling palette index, the lookup behind `yank`,
  and the column widths computed when the table is built.

Files:

- `results.dfy` (module `Results`) holds `Option` and `Result`.
- `text.dfy` (module `Text`) models the Rust string operations the code
  relies on: `char::is_whitespace`, `trim`, `split` on one character, and
  `lines`. `IndexOf`, the position of a character's first occurrence, is
  the helper that describes `split`.
- `parse.dfy` (module `Parse`) is the scanner.
  - Every line is classified the way the loop's `if` chain does it, giving
    a `LineKind`.
  - The pure fold `Scan` over those kinds is the specification.
  - The `ParseBibtex` loop is proved against `Scan`.
  - The lemmas about `Scan` state what the scanner emits.
- `references.dfy` (module `References`) holds the `Reference` class, its
  value view `Record`, and the header indexer.
- `application.dfy` (module `Application`) holds the generic `App<T>`
  class, the index arithmetic it uses, the column-width computation, and
  the key dispatch of the event loop.

Points where the code's behaviour is easy to misread:

- The `@` and `}` tests look at the untrimmed line. An indented `}` is
  therefore not a closing line.
- A field line is split on every `=`, and only pieces 0 and 1 are used. A
  value that holds `=` is cut at it.
- The value is trimmed before `{`, `,` and `}` are stripped, not after.
- Field names are stored as the trimmed raw text. There is no field-name
  vocabulary and no entry-type parsing in this code.
- `parse_bibtex` has no error path: it always returns `Ok`.
- The selection wraps around instead of being clamped.

## Model

| member | source | states |
|---|---|---|
| Parse.StripOptionalPrefix | src/parse.rs:46-52 | if `s` starts with the prefix, the prefix followed by the result is `s`; otherwise the result is `s` unchanged |
| Parse.StripOptionalSuffix | src/parse.rs:54-60 | if `s` ends with the suffix, the result followed by the suffix is `s`; otherwise the result is `s` unchanged |
| Parse.EntryKey | src/parse.rs:17-20 | the key of an `@` line is the longest prefix of the text after the first `{` that holds neither `{` nor `,` |
| Parse.FieldName | src/parse.rs:28-33 | the stored name is the trimmed text before the first `=` |
| Parse.RawValue | src/parse.rs:28-35 | the raw value is the text between the first and the second `=` (or the end of the line) |
| Parse.CleanValue | src/parse.rs:34-37 | the stored value is the trimmed raw value with at most a `{` removed in front and at most a `,`, a `}` or `},` removed behind; `CleanValueExact` says exactly which are removed |
| Parse.CleanValueExact | src/parse.rs:34-37 | a present leading `{` is removed; then a trailing `},` loses both characters, a trailing `,` (not after `}`) or a trailing `}` loses that one, and any other ending is kept |
| Parse.FieldValue | src/parse.rs:33-38 | a stored value never holds `=`, and it lies inside the trimmed raw value |
| Parse.Classify | src/parse.rs:12-39 | every line gets exactly one kind: blank exactly when all whitespace, an opening exactly when it is not blank and starts with `@`, closing exactly when its untrimmed first character is `}`, a field exactly when it is none of these and holds `=`, and skipped otherwise; `ClassifyOpening` and `ClassifyField` give the key, the name and the value |
| Parse.Step | src/parse.rs:12-39 | blank lines and lines without `=` change nothing; only an `@` line sets the key; a `}` line appends one record with the key and fields as they stood and empties the accumulator; a field line adds or overwrites that one name and keeps the others |
| Parse.Scan | src/parse.rs:10-41 | the fold of the loop body from the empty state gives one record per closing line; `ScanKey`, `ScanPending` and `ScanEmits` state the key, the accumulator and each record |
| Parse.ParseBibtex | src/parse.rs:5-44 | the loop returns `Ok` with exactly the records of the fold `Scan` over the classified lines, and one record per line starting with `}` |
| Parse.ScanLine | src/parse.rs:11-40 | one pass of the loop body moves the key, the accumulator and the records as the line's kind dictates |
| Parse.ClosingLinesCounted | src/parse.rs:16-25 | the closing kinds are exactly the lines whose first character is `}` |
| Parse.CountClosingSnoc | src/parse.rs:22-25 | one more line adds one to the count of closing lines exactly when it is a closing line |
| Parse.ScanPrefixStep | src/parse.rs:10-41 | the state after `i + 1` lines is one loop step past the state after `i` lines |
| Parse.ScanRefCount | src/parse.rs:22-25 | the number of records equals the number of closing lines, and the accumulator is empty right after a closing line |
| Parse.ScanKey | src/parse.rs:8-25 | the key is the one read from the last `@` line, or `""` when there was none; a closing line never resets it |
| Parse.ScanPending | src/parse.rs:22-39 | the accumulator holds exactly the names of the field lines since the last closing line, each with the value of its last such line |
| Parse.ScanRefsGrow | src/parse.rs:24 | records are only appended: those of a prefix of the input are a prefix of those of the whole input |
| Parse.ScanEmits | src/parse.rs:22-25 | the closing line numbered `n` emits record `n`, with the key and fields as they stood just before that line |
| Parse.SignificantSnoc | src/parse.rs:12-32 | dropping the lines that change nothing distributes over appending one line |
| Parse.ScanSkipsInert | src/parse.rs:12-32 | blank lines and lines without `=` change nothing: dropping them leaves the outcome as it was |
| Parse.ClassifyBlank | src/parse.rs:12 | a line is skipped as blank exactly when it is all whitespace |
| Parse.ClassifyClosing | src/parse.rs:22 | a line closes an entry exactly when its first character is `}` |
| Parse.ClassifyOpening | src/parse.rs:16-20 | a line starting with `@` opens an entry under the key `EntryKey` reads from it |
| Parse.IndentedBraceSkipped | src/parse.rs:22-32 | an indented `}` is not a closing line; it holds no `=`, so it is skipped |
| Parse.ClassifyField | src/parse.rs:27-39 | a non-blank line starting with neither `@` nor `}` that holds `=` is a field line with that name and value |
| Parse.ClassifyNoEquals | src/parse.rs:27-32 | a non-blank line starting with neither `@` nor `}` and without `=` is skipped |
| Parse.EntryKeyOfHeader | src/parse.rs:16-20 | the header `@type{key,...` yields exactly `key` |
| Parse.KeyPrefix | src/parse.rs:17-19 | piece 0 of `split(',')` of the text before the next `{` is the longest prefix free of `{` and `,` |
| Parse.KeyIsLongestPrefix | src/parse.rs:17-19 | two prefixes of the text after the first `{` that are free of `{` and `,` and each end at the end of the text, a `{` or a `,` are the same, so that longest prefix is unique |
| Parse.StripPrefixOf | src/parse.rs:46-52 | stripping a prefix the text starts with gives back the rest |
| Parse.StripSuffixOf | src/parse.rs:54-60 | stripping a suffix the text ends with gives back the rest |
| Parse.CleanValueBraced | src/parse.rs:34-37 | a value written `{v},` or `{v}` and padded with whitespace is stored as `v` |
| Parse.CleanValueBracedComma | src/parse.rs:34-37 | a padded value `{v},` is stored as `v` |
| Parse.CleanValueBracedPlain | src/parse.rs:34-37 | a padded value `{v}` is stored as `v` |
| Parse.FieldNameOf | src/parse.rs:28-35 | in `indent name = ...`, the stored name is `name` and the raw value is the text after `=` up to the next `=` |
| Parse.FieldLineRead | src/parse.rs:27-39 | the usual field line `name = {value},` is read as the field `name` holding `value` |
| Text.TrimStart | src/parse.rs:12 | `trim_start` drops a whitespace prefix, and what remains does not start with whitespace |
| Text.TrimEnd | src/parse.rs:12 | `trim_end` drops a whitespace suffix, and what remains does not end with whitespace |
| Text.Trim | src/parse.rs:12-34 | `trim` gives an empty text exactly when the input is all whitespace, and its ends are never whitespace |
| Text.TrimUnpadded | src/parse.rs:33-34 | text that starts and ends with non-whitespace is left alone by `trim` |
| Text.TrimPadded | src/parse.rs:33-34 | `trim` removes whitespace padding on both sides and nothing more |
| Text.IndexOf | src/parse.rs:17-28 | the position of the first occurrence of a character, or the length when it does not occur |
| Text.IndexOfAfter | src/parse.rs:17-28 | in `p + [c] + rest` with no `c` in `p`, the first `c` comes right after `p` |
| Text.Split | src/parse.rs:17-28 | `split` yields at least one piece, more than one exactly when the separator occurs, and pieces never hold the separator; the first piece is the text before the first separator |
| Text.JoinSplit | src/parse.rs:28 | joining the pieces of a split with the separator gives back the text |
| Text.SplitJoin | src/parse.rs:28 | splitting the join of separator-free pieces gives back the pieces |
| Text.SplitSecond | src/parse.rs:17-35 | piece 1 of a split is the text between the first and the second separator |
| Text.DropCarriageReturn | src/parse.rs:10 | a final `\r` is removed when present, and nothing else is |
| Text.Lines | src/parse.rs:10 | `lines()` is empty exactly on empty text, and no line holds `\n` |
| Text.FirstLine | src/reference.rs:156-160 | the first line of `line + "\n" + rest` is `line` without a final `\r`, whatever `rest` holds |
| Text.LinesTerminated | src/parse.rs:10 | lines without `\n` or a final `\r`, each followed by `\n`, come back unchanged from `lines()` |
| References.Record.Set | src/reference.rs:43-86 | the selected field holds the new value and the nine others are unchanged |
| References.RecordExtensionality | src/reference.rs:7-18 | two records that agree on all ten fields are equal |
| References.SetLastWriteWins | src/reference.rs:43-86 | writing a field twice keeps the last value |
| References.SetIdempotent | src/reference.rs:43-86 | writing the same value twice is writing it once |
| References.SetGet | src/reference.rs:43-86 | writing back the value a field holds changes nothing |
| References.SetCommutes | src/reference.rs:43-86 | writes to two different fields commute |
| References.Reference.NewEmpty | src/reference.rs:28-41 | `new_empty` holds `""` in all ten fields |
| References.Reference.SetField | src/reference.rs:43-86 | the record becomes the old record with the one field set; the reference itself is returned |
| References.Reference.Display | src/reference.rs:20-24 | the text is the author, then ` (`, then the year, then `)` |
| References.HeaderField | src/reference.rs:164-175 | a cell names a field exactly when it equals that field's lower-case name; any other cell names none |
| References.HeaderName | src/reference.rs:164-175 | each recognised column name is a non-empty lower-case ASCII word; `HeaderNameRoundTrip` shows each names its own field |
| References.HeaderIndices | src/reference.rs:163-177 | every field in the map points at a header cell that is exactly that field's name; `HeaderIndicesAt` adds that it is the last such cell |
| References.HeaderNameRoundTrip | src/reference.rs:164-175 | every field is recognised under its own name, and each name maps to a different field |
| References.HeaderIndicesAt | src/reference.rs:163-177 | a field is in the map exactly when some cell names it, and then it maps to the last such cell |
| References.HeaderIndicesLast | src/reference.rs:163-177 | the same statement, for all fields at once |
| References.HeaderIndicesBounded | src/reference.rs:161-163 | every index in the map is below the number of header cells |
| References.HeaderIndicesNamed | src/reference.rs:164-175 | a last cell naming a field puts that field at the last position |
| References.HeaderIndicesOther | src/reference.rs:164-176 | a last cell not naming a field leaves that field's entry unchanged |
| References.OccursOther | src/reference.rs:163-177 | a last cell other than a name does not change whether or where that name last occurs |
| References.HeaderIndicesPrefix | src/reference.rs:163-177 | one more cell updates the map by that cell alone |
| References.HeaderExample | src/reference.rs:164-176 | a repeated `key` keeps its last position; `Author` and ` year` are not recognised |
| References.FieldIndices | src/reference.rs:155-185 | the result is an error exactly when the input is empty |
| References.GetFieldIndices | src/reference.rs:155-185 | the loop over the cells of the first line returns what `FieldIndices` says |
| References.FieldIndicesFirstLine | src/reference.rs:156-161 | only the first line is read: whatever follows it, the map is that of the header line |
| References.FieldIndicesEmpty | src/reference.rs:180-184 | empty input gives the parse error with the message "Could not parse headers from CSV file: file contains no lines." |
| Application.NextIndex | src/app.rs:82-92 | from row `i` of the list, the next row is `(i + 1) mod len`; nothing selected or past the end gives row 0; the result is always a row of a non-empty list |
| Application.PreviousIndex | src/app.rs:97-107 | from row `i` of the list, the previous row is `(i + len - 1) mod len`; nothing selected gives row 0; the result stays in the list |
| Application.SelectionRoundTrip | src/app.rs:82-110 | moving down then up, or up then down, returns to the same row |
| Application.NextTimes | src/app.rs:82-92 | moving down any number of times stays on a row of the list |
| Application.NextTimesAdvances | src/app.rs:82-92 | moving down `k` times from row `i` reaches row `(i + k) mod len` |
| Application.NextTimesCycles | src/app.rs:82-92 | moving down once per row comes back to the starting row |
| Application.NextColorIndex | src/app.rs:112-114 | the palette index stays below 4; it steps forward by one, and from 3 back to 0 |
| Application.PreviousColorIndex | src/app.rs:116-119 | the palette index stays below 4; it steps back by one, and from 0 to 3 |
| Application.ColorRoundTrip | src/app.rs:112-119 | each palette step undoes the other, and four steps forward come back |
| Application.MaxWidth | src/app.rs:145-180 | the column width bounds every cell's width, equals one of them, and is 0 for no cells |
| Application.ColumnWidthUnique | src/app.rs:149-150 | only one width has those properties |
| Application.FlatLinesMember | src/app.rs:138-166 | a string is among the flattened lines exactly when it is a line of one of the present texts |
| Application.InSomeTextSnoc | src/app.rs:155-166 | a line occurs in some present text exactly when it occurs in an earlier one or in the last |
| Application.FlatLines | src/app.rs:152-177 | no flattened line holds a newline; `FlatLinesMember` states that the flattened lines are exactly the lines of the present texts |
| Application.Cells | src/app.rs:145-180 | the key column has one cell per item, holding its key; no cell of the other columns holds a newline, as each is a line of a present text (`FlatLinesMember`) |
| Application.ToU16 | src/app.rs:183-186 | the cast to `u16` always gives a value below 65536, keeps smaller values, and otherwise differs from the input by a multiple of 65536, i.e. keeps the low sixteen bits |
| Application.ConstraintLens | src/app.rs:137-188 | each of the four components is the column's largest width, or 0, cut to sixteen bits |
| Application.App.constructor | src/app.rs:70-80 | the first row is selected, scroll position 0 over content `(len - 1) * ITEM_HEIGHT`, palette 0, an empty message, the widths of the items |
| Application.App.SelectNext | src/app.rs:82-95 | the selection becomes `NextIndex` of the old one, the scroll position is that row times `ITEM_HEIGHT`, and validity is kept |
| Application.App.SelectPrevious | src/app.rs:97-110 | the selection becomes `PreviousIndex` of the old one, the scroll position is that row times `ITEM_HEIGHT`, and validity is kept |
| Application.App.NextColor | src/app.rs:112-114 | the palette index becomes `NextColorIndex` of the old one |
| Application.App.PreviousColor | src/app.rs:116-119 | the palette index becomes `PreviousColorIndex` of the old one |
| Application.App.Yank | src/app.rs:125-134 | the clipboard is tried exactly when a row of the list is selected; the selected item is returned exactly when the clipboard call succeeds; nothing changes |
| Application.App.HandleKey | src/main.rs:56-63 | `q` and Esc quit; `j`/Down and `k`/Up move the selection and the scroll position follows it, leaving the palette alone; `l`/Right and `h`/Left change the palette, leaving the selection and the scroll position alone; any other key changes nothing |

## Left out

- File I/O in `references_from_csv` (src/reference.rs:137-153) is not modelled. The header reader takes the text as its argument.
- `parse_references` ends in `todo!()`, so it has no defined behaviour to model.
- `_example_references` is fixture data.
- `Reference::new`, `to_bibtex`, `formatted_author`, `key`, `year`, `title` and `as_array` are called but not defined in these files. The scanner's record is the key with the raw field map (`Entry`). What the table shows of an item is a parameter (`ColumnTexts`).
- Parse.ParseBibtex: an `@` line without `{` makes the code index past the end of a vector and panic. The model requires every `@` line to hold a `{` (`AllAdmissible`).
- `TableColors`, the `PALETTES` colour values and `set_colors` come from the terminal UI library. Only the palette index is modelled.
- Application.App.Yank: the clipboard call `cli_clipboard::set_contents` is replaced by its outcome, the parameter `clipboardOk`. The BibTeX text it would copy (`to_bibtex`) is not part of this model.
- Application.ConstraintLens: the display width `UnicodeWidthStr::width` is a parameter `width`.
- All of `src/ui.rs` is left out. Besides rendering, it sorts `app.items` in place by `compare_authors` on every draw (src/ui.rs:43-45), and `compare_authors` depends on the absent `formatted_author`. The model's `items` therefore keep the order given to the constructor, while the program's rows are in author order from the first frame on.
- `src/main.rs` is terminal setup and the blocking event loop. Only its key dispatch is modelled, as `HandleKey`, and only for key presses (the `KeyEventKind::Press` filter is left out).
- `TableState` and `ScrollbarState` are reduced to the selection, the scroll position and the content length. Their other fields (table offset, viewport) are not modelled.
- Application.NextIndex: `select_next` on an empty list with a selection underflows `len - 1`. The model requires a non-empty list in that case.
- Application.PreviousIndex: `select_previous` from row 0 of an empty list underflows `len - 1`. The model requires a non-empty list in that case.
- Application.App.constructor: `App::new` on an empty list underflows `len - 1`. The model requires a non-empty list.
- Application.NextColorIndex and Application.PreviousColorIndex use unbounded integers. The `usize` overflow of `color_index + 1` cannot happen from a palette index below 4.
- Text.Lines follows current Rust `str::lines`: a `\r` before a `\n` is dropped, and a `\r` at the very end without a `\n` is kept. Older Rust releases also dropped that final `\r`.
- Text.IsWhitespace is the Unicode White_Space property, as `char::is_whitespace` uses. Strings are sequences of Unicode scalar values, with no byte-level UTF-8 encoding.
