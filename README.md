# A verified model of the spanish.py glossary core

spanish.py is a command-line English/Spanish dictionary. It reads a
loosely structured glossary text, or a pickled dictionary built from it,
finds the headwords a regular-expression query matches, and prints each
match as a row: the word right-justified, then its translations wrapped
into an indented column.

This project models the core of that program in Dafny and proves what it
promises:

- `text.dfy` (module `Text`): the Python string operations the code relies on. These are `str.isspace()`'s whitespace set, `strip()`, `lower()`, `split(sep)`, `split()` and `join()`.
- `glossary.dfy` (module `Glossary`): the glossary text parser `find_text`.
  - The token cleaner `clean` and its `^\d{1,3}\.` ordinal marker.
  - The headword pattern `defpat` (`(.+)(\[.+\])`), with its greedy match stated as the split it chooses.
  - The line-by-line scan of blank lines, headword lines and continuation lines. It is proved against `Expected`, a definition of the yielded entries as the segments between headword lines.
- `dicts.dfy` (module `Dicts`): the two data transforms, `eng_to_es` (inverting the dictionary) and `remove_junk` (removing ordinal markers). A Python dict is its keys in insertion order plus the mapping.
- `search.dfy` (module `Search`): `find_pickle`, which covers:
  - Python's string order and `sorted()`;
  - the filter loop over the keys;
  - its two error cases.
- `blocks.dfy` (module `Blocks`): the output formatting.
  - `make_block`: fixed-width chunks, greedy wrapping on whitespace, and wrapping that keeps newlines.
  - `format_block`'s indented layout.
  - The rendering of one result row in `main` (constants 25, 28 and 52).
- `wrappers.dfy` (module `Wrappers`): `Option` and `Result`, which stand for Python's `None` and for raised exceptions.

How the model stands in for the parts it does not run:

- A query is a `Pattern`: whether it compiles, and the strings in which its search finds a match. The regular-expression engine's own semantics lie outside the model. The case-insensitive flag of `find_text` is part of the search function.
- The glossary file is its sequence of lines, without line terminators, or `None` when it cannot be read.
- The pickled data is a `Dict`, or `None` when it cannot be loaded.

## Model

| member | source | states |
|---|---|---|
| Text.LowerSpec | spanish.py:289 | lower() leaves no upper-case letter, maps each upper-case letter to its lower-case partner, keeps every other character, and keeps whitespace where it was |
| Text.StripSpec | spanish.py:275 | strip() leaves no whitespace at either end, and leaves nothing exactly when the line is all whitespace (the blank-line test) |
| Text.StripSpan | spanish.py:267 | what strip() removes is whitespace at the two ends and nothing else |
| Text.StripIdempotent | spanish.py:305 | stripping twice is stripping once |
| Text.SplitSpec | spanish.py:306-307 | no piece of split(',') holds a comma |
| Text.SplitJoins | spanish.py:345 | joining the pieces of split('\n') with '\n' gives the text back |
| Text.SplitJoin | spanish.py:345 | splitting a join gives the pieces back when no piece holds the separator |
| Text.WordsSpec | spanish.py:350 | every word of split() is non-empty and free of whitespace, and there are none exactly when the text is all whitespace |
| Text.WordsOfJoin | spanish.py:350 | split() gives back exactly the words that a single-space join put together, whatever whitespace surrounds them: the content of each word, not only its shape |
| Glossary.StripOrdinalSpec | spanish.py:267 | the substitution removes exactly the one to three leading digits and the dot after them when the pattern matches, and nothing otherwise |
| Glossary.OrdinalsAreLeading | spanish.py:267 | an ordinal marker's digits are all the leading digits of the token |
| Glossary.CleanKeepsFourDigits | spanish.py:267 | a token starting with four digits has no marker to remove |
| Glossary.OrdinalExample | spanish.py:267 | the token "3.gato" is stored as "gato" |
| Glossary.DefSplitSpec | spanish.py:271 | defpat matches exactly when some split into text and a bracket group exists; the chosen split is one, and every other split lies at or before it (both groups greedy) |
| Glossary.SplitHeadword | spanish.py:287-288 | with a bracket group, the pronunciation guide is the group itself |
| Glossary.BracketsKept | spanish.py:288 | strip() leaves a bracket group as it is |
| Glossary.ParseHeadwordSpec | spanish.py:284-292 | the headword is lower-case with no whitespace at either end, and there is a guide exactly when the line has a bracket group after some text |
| Glossary.HeadwordWithGroup | spanish.py:285-289 | with a match, the word is the text before the group, stripped and lower-cased, and the guide is the group |
| Glossary.HeadwordWithoutGroup | spanish.py:290-292 | without a match, the whole line stripped and lower-cased is the word, and there is no guide |
| Glossary.CleanAllMembers | spanish.py:306-308 | a translation comes from a continuation line's comma-separated tokens exactly when it is one of them, cleaned |
| Glossary.PiecesWithoutComma | spanish.py:309-310 | a continuation line without a comma adds one translation: the whole line, cleaned |
| Glossary.DuplicateExample | spanish.py:305-308 | the line " perro, perro" adds the single translation "perro" |
| Glossary.EntriesFrom | spanish.py:281-282 | every entry yielded has a non-empty headword that the query matches |
| Glossary.EntriesFromSnoc | spanish.py:274-301 | reading one more line adds to the entries of later headwords only the entry it closes |
| Glossary.EmittedSnoc | spanish.py:278-282 | a headword line yields the entry that was open, if any; blank and continuation lines yield nothing |
| Glossary.ExpectedSnoc | spanish.py:274-282 | the same for the text: an entry is yielded exactly when the next headword line is read |
| Glossary.TrailingLinesYieldNothing | spanish.py:274-312 | lines after the last headword line never yield anything |
| Glossary.EmittedPrefix | spanish.py:274-282 | entries come out in file order: reading more lines only appends to what was yielded |
| Glossary.EntriesFromHas | spanish.py:281-301 | every headword the query keeps whose entry is closed by a later headword line is yielded, with the translations of its continuation lines |
| Glossary.StepHead | spanish.py:294-301 | a headword line opens a fresh entry with no translations when the query matches it, and clears the state otherwise |
| Glossary.StepBlank | spanish.py:275-277 | a blank line leaves the scan state as it is (it does not end the entry) |
| Glossary.StepCont | spanish.py:302-310 | a continuation line adds its pieces to the open entry when the open headword is not empty, and changes nothing otherwise |
| Glossary.ReadBlank | spanish.py:275-277 | a blank line keeps the loop invariant without yielding |
| Glossary.ReadHead | spanish.py:278-301 | a headword line yields the open entry when its headword is not empty, then opens the matched word's entry |
| Glossary.ReadCont | spanish.py:302-310 | a continuation line yields nothing and keeps the invariant |
| Glossary.UpdateCleaned | spanish.py:307-308 | set.update over the tokens adds exactly their cleaned forms |
| Glossary.AddTranslations | spanish.py:305-310 | a continuation line's translations are added to the set, with and without commas |
| Glossary.HeadLine | spanish.py:278-301 | the headword branch keeps the scan invariant |
| Glossary.ContLine | spanish.py:302-310 | the continuation branch keeps the scan invariant |
| Glossary.Scan | spanish.py:274-310 | after every line, what was yielded is Expected of the text and the state holds the last kept headword's entry |
| Glossary.FindText | spanish.py:259-312 | an uncompilable query gives InvalidQuery, then an unreadable file gives InvalidFile, and otherwise exactly the entries of Expected |
| Glossary.ClassifyHello | spanish.py:278-301 | the line "hello" is a headword line for the word "hello" without a guide |
| Glossary.ClassifyHola | spanish.py:302-310 | the line " hola" is a continuation line that adds the one translation "hola" |
| Glossary.LastEntryLostKinds | spanish.py:274-312 | a headword "hello" followed by one continuation line "hola" yields nothing as written, and the entry ("hello", no guide, {"hola"}) with the flush |
| Glossary.LastEntryLost | spanish.py:274-312 | as written, the glossary text "hello" / " hola" yields nothing for a query matching "hello"; with the flush it yields exactly the entry ("hello", no guide, {"hola"}) |
| Glossary.FlushedComplete | spanish.py:274-312 | with the final flush, every headword line the query keeps is yielded with the translations up to the next headword line or the end |
| Glossary.ScanFlushed | spanish.py:281-282 | at the end of the text, the flushed result is what was yielded and then the open entry |
| Glossary.FindTextFlushed | spanish.py:259-312 | find_text with the open entry yielded at end of file; the same errors, otherwise exactly ExpectedFlushed |
| Dicts.PutSpec | spanish.py:218-221 | dict assignment keeps keys unique, maps the key to the value, leaves other keys alone, and appends a new key last |
| Dicts.FirstSpec | spanish.py:218-221 | the first lister of a translation lists it, and no earlier word does |
| Dicts.StepKnown | spanish.py:215-216 | a translation already present gains the English word and keeps its pronunciation and position |
| Dicts.StepNew | spanish.py:217-221 | a new translation is added last, with the English word and its pronunciation |
| Dicts.NextWord | spanish.py:213-214 | once a word's translations are done, the state is that of the next word |
| Dicts.Inverted | spanish.py:208-222 | at the end, the keys are exactly the translations, and each lists exactly the English words that list it |
| Dicts.EngToEs | spanish.py:208-222 | eng_to_es: the keys are exactly the translations, each lists exactly the English words listing it, with the pronunciation of the first of them in key order; Spanish keys come in the order of their first English lister |
| Dicts.InvertWord | spanish.py:213-221 | the body of the outer loop advances the invariant by one word, whatever the set order |
| Dicts.InvertOne | spanish.py:214-221 | the body of the inner loop advances the invariant by one translation |
| Dicts.PronounceOfFirst | spanish.py:218-221 | the pronunciation kept is that of a word listing the translation, before which no word lists it |
| Dicts.CleanedSize | spanish.py:373-374 | removing markers never adds translations; distinct tokens may become one |
| Dicts.RemoveJunk | spanish.py:366-375 | remove_junk: the same words in the same order, each with its pronunciation and its translations with the marker removed |
| Dicts.RemoveWord | spanish.py:371-374 | the body of the outer loop adds the word's cleaned entry after the words before it |
| Dicts.AddCleaned | spanish.py:373-374 | the inner loop adds exactly the cleaned translations, in any order |
| Search.LessOrder | spanish.py:250 | Python's string order, by code point with a proper prefix first, is a strict total order |
| Search.InsertSpec | spanish.py:250 | insertion into an ascending sequence keeps it ascending and adds just the new string |
| Search.SortSpec | spanish.py:250 | sorted() of distinct keys is strictly ascending and a permutation of the keys |
| Search.HitsMembers | spanish.py:250-256 | a pair is yielded exactly when its word is visited, the query matches it, and the data is the word's own |
| Search.HitsKeepOrder | spanish.py:248-256 | the results keep the visiting order of their words |
| Search.ReadFailureMisreported | spanish.py:241-247 | as written, a compilable query with unreadable data does not raise InvalidFile; as intended it does |
| Search.VisitSpec | spanish.py:248-254 | the visit covers every key once, in ascending order when sort is asked for |
| Search.FoundSpec | spanish.py:234-256 | InvalidQuery exactly for an uncompilable query, InvalidFile exactly for unreadable data; otherwise every matching key is yielded once with its data, nothing else is, and with sort the keys ascend (read handler as corrected; as written see Search.OpenAsWritten) |
| Search.SortKeepsResults | spanish.py:248-256 | sorting changes the order of the results, never which they are |
| Search.FindPickle | spanish.py:234-256 | the filter loop yields exactly Found (read handler as corrected; as written see Search.OpenAsWritten) |
| Blocks.CharBlocksSpec | spanish.py:339-341 | chunks put back together are the text; each holds one to blocksize characters and only the last fewer; blocksize 0 raises and a negative one gives nothing |
| Blocks.GroupsFlatten | spanish.py:353-362 | the lines of the wrap hold all the words, in order, each once |
| Blocks.GroupsShape | spanish.py:353-362 | no closed line but the first is empty, and the first is empty exactly when the first word alone does not fit |
| Blocks.GroupsFit | spanish.py:354-360 | every line of two or more words fits in the block size |
| Blocks.GreedyStep | spanish.py:356-360 | one word of the wrap keeps every line break forced |
| Blocks.GroupsGreedy | spanish.py:353-360 | every break is forced: the next line's first word does not fit after the line (the wrap never breaks early) |
| Blocks.WrapStep | spanish.py:354-360 | one iteration of the wrap loop follows the greedy wrap |
| Blocks.WrapOnSpaces | spanish.py:349-363 | make_block on spaces returns the greedy wrap of text.split() |
| Blocks.WrapLinesGroups | spanish.py:349-363 | every output line is one group of the text's words joined by single spaces |
| Blocks.WrapLinesFit | spanish.py:349-363 | every line fits in the block size, or is one word that does not, or is the empty first line before a first word that does not |
| Blocks.WrapWordsNonEmpty | spanish.py:349-363 | no line of a wrap of words is empty except the first, and the first is empty exactly when the first word alone is wider than the block |
| Blocks.WrapLinesNonEmpty | spanish.py:349-363 | the same for the words of a text: no empty line after the first, and an empty first line exactly for a first word too wide for the block |
| Blocks.NewlinesWithoutNewline | spanish.py:342-347 | a text without newlines wraps the same whether newlines are kept or not |
| Blocks.WrapLinesOfText | spanish.py:342-347 | with newlines kept, each line of the text is wrapped by itself and the results are concatenated |
| Blocks.MakeBlock | spanish.py:334-363 | make_block returns the chunks, the newline-keeping wrap or the greedy wrap, by its flags; None where it raises |
| Blocks.JoinIndented | spanish.py:331 | an indent and then a join with newline-and-indent is every line indented and joined by newlines |
| Blocks.SplitIndented | spanish.py:329 | a header and then lines joined with newline-and-indent split into the header with the first line and the other lines indented |
| Blocks.FormatBlock | spanish.py:315-331 | format_block lays out exactly make_block's lines, and raises exactly when it does |
| Blocks.LayoutSpec | spanish.py:325-331 | splitting the layout at newlines gives the lines back, indented as asked (all, or all but the first with lstrip); no lines lay out as nothing or the indent alone |
| Blocks.RJust | spanish.py:93 | rjust is at least as wide as asked, ends with the word and is spaces before it |
| Blocks.RenderRow | spanish.py:93-100 | the printed row is the right-justified word, " : " and the translations laid out in the indented column |
| Blocks.TransWithoutNewline | spanish.py:94-99 | the translation lines hold no newline |
| Blocks.RowLines | spanish.py:93-100 | a row's first line is the header then the first translation line, and the other lines are indented by 28 spaces |
| Blocks.TransLinesFit | spanish.py:86-99 | when every word fits in 52 columns, so does every translation line |
| Blocks.RowLineAt | spanish.py:93-100 | line i of a row is the header or the 28-space indent, then translation line i |
| Blocks.RowFits | spanish.py:83-100 | when the word fits its 25 columns and every translation word fits in 52, every line of the row fits in 80 columns |

## Left out

- `main` (spanish.py:51-115) is argument handling and printing. Only its row rendering (spanish.py:83-100) is modelled. The lower-casing of the query (spanish.py:79), the banner, the counts and the timing are not. Neither is the choice between the pickle and the text, which depends on whether files exist.
- `create_files` (spanish.py:118-177) is left out: it writes pickle and JSON files, which is file I/O. The loading of the pickle at spanish.py:242-243 is a parameter (`None` when it fails).
- `debug`, `dummy`, `duration_str` and `ensure_files` are logging, the clock and file-existence checks.
- The regular-expression engine is left out. A query is a `Pattern` with an abstract search, so the case-insensitive flag of `find_text` is part of that search.
  - `^\d{1,3}\.` is modelled with ASCII digits, while Python's `\d` also matches other Unicode digits.
  - `defpat` is modelled on lines without a terminator, so its `.` matches every character.
- `lower()` is modelled for ASCII and Latin-1 letters only; full Unicode case mapping is out of scope.
- Lines are modelled without their line terminators. A file read that fails after some entries have been yielded is not modelled: FindText reports InvalidFile only for a file that cannot be read at all.
- Generators are modelled as the sequence they produce. Laziness, and an interruption part-way through, are not modelled.
- The `sort` parameter of `find_text` is ignored by the source, and the model has none.
- Set iteration order is left out.
  - The inner loops of `eng_to_es` and `remove_junk` take the translations in an arbitrary order (a `:|` choice).
  - Dicts.EngToEs: the order of the Spanish keys is therefore stated only as far as it is determined: ordered by their first English lister. Keys listed first by the same word come in the set's order.
  - The row renderer joins a set; the model takes the translations as a sequence in whatever order the set gives.
- Translations are stored as cleaned, not lower-cased or otherwise case-normalised. The original code does not lower-case them, and the model follows the code.

## Findings

Each as-written member exhibits the defect on the code as written. The
corrected member proves the intended property of the corrected
definition: `Search.Open`, which `Search.Found` and `Search.FindPickle`
use, and `Glossary.FindTextFlushed` with its specification
`Glossary.ExpectedFlushed`.

| source | as written | input that shows it | evidently intended | confidence | as-written member | corrected member |
|---|---|---|---|---|---|---|
| spanish.py:244-247 | the read-failure handler formats `ex`, a name bound only by the query handler at spanish.py:239, so an unreadable pickle raises UnboundLocalError | a query that compiles, with a pickle file that cannot be opened or loaded | raise InvalidFile for unreadable data | not executed; the handler has no `as ex` | Search.ReadFailureMisreported | Search.FoundSpec |
| spanish.py:274-312 | the entry still open when the file ends is never yielded, so the glossary's last headword is never found (and is missing from the pickles built from it) | a glossary whose only headword line is "hello", followed by the continuation line " hola", and a query matching "hello" | yield the open entry after the last line, as at each headword line | not executed; no flush follows the loop | Glossary.LastEntryLost | Glossary.FlushedComplete |
