# Biblatex-scripts in Dafny

A Dafny model of three scripts that tidy up biblatex bibliographies. Each comes with proofs of what it guarantees.

- **convertbibliography.py** is a set of record normalizers that bibtexparser runs on every record while it parses. Each normalizer rewrites, renames or deletes fields of one record, and `customizations` fixes the order they run in.
  - `Rewrites` holds every pattern substitution of the script as an explicit string function.
  - `Normalize` holds every normalizer as a function on a record (a map from field name to value).
  - `Records.Record` is a class whose methods apply those functions to a record in place. The same module has the `customizations` chain and the `get_doi` step.
- **crossrefs.py** checks and expands `crossref` fields.
  - The check is a walk over the bibliography that collects reports (`Crossrefs.Validate`). It never changes an entry.
  - Expansion copies each target's fields into the entries that refer to it, then deletes the targets (`Expansion.Expand`).
  - `Render.BibToString` writes the bibliography out again.
  - Python's dictionaries keep insertion order, and expansion depends on that order. So a dictionary here is a key sequence plus a map (`Dicts.Dict`).
- **fixbibliography.py** repairs entry headers that have no citation key. `FixKeys.FixKeys` rewrites an array of lines in place with one counter for the whole file. `FixKeys.FixFile` is the driver that first makes sure the file starts with an empty line.

`Text` holds the pieces of Python's `str` that these scripts use: `split()`, `' '.join`, `strip()`, `lower()`, `find` and `str(n)`.

Where the docstrings and the code disagree, the model follows the code. The second doctest of `title_name` (convertbibliography.py:52-53) claims that `'hodgson, thomas and JANE, DOE'` becomes `'Hodgson, Thomas and Doe, Jane'`. The code only changes case, and `Rewrites.TitleNameNoReordering` proves that the result is `'Hodgson, Thomas and Jane, Doe'`. The docstring examples of `braces` (lines 34-37) evaluate bare string literals and never call the function; the model follows the function body.

## Model

| member | source | states |
|---|---|---|
| Rewrites.Braces | convertbibliography.py:29-43 | the result starts with `{` and ends with `}`; this adds at most one brace at each end; an already-braced string comes back unchanged |
| Rewrites.BracesIdempotent | convertbibliography.py:39-43 | wrapping twice is the same as wrapping once |
| Rewrites.BracesContains | convertbibliography.py:198-200 | wrapping keeps every substring, so a publisher that contains `and` still contains it afterwards |
| Rewrites.TitleWord | convertbibliography.py:57 | `str.title()` keeps the length of the token |
| Rewrites.TitleNameTokens | convertbibliography.py:55-59 | the words of `title_name`'s result are the input's words, each title-cased, except that a word beginning with `and` is kept verbatim |
| Rewrites.TitleNameOfWords | convertbibliography.py:55-59 | on a space-joined word list, `title_name` joins the rewritten words with single spaces |
| Rewrites.TitleTokenIdempotent | convertbibliography.py:57 | a title-cased token never begins with lower-case `and`, so rewriting a token twice is rewriting it once |
| Rewrites.TitleWordIdempotent | convertbibliography.py:57 | applying `str.title()` to a word twice is applying it once |
| Rewrites.TitleNameIdempotent | convertbibliography.py:46-59 | applying `title_name` twice gives the same name as applying it once |
| Rewrites.TitleTokenOther | convertbibliography.py:57 | a token that does not start with `a` is title-cased |
| Rewrites.TitleNameExample | convertbibliography.py:50-51 | `'hodgson, thomas'` becomes `'Hodgson, Thomas'` |
| Rewrites.TitleNameNoReordering | convertbibliography.py:52-58 | `'hodgson, thomas and JANE, DOE'` becomes `'Hodgson, Thomas and Jane, Doe'` and is not reordered, contrary to the doctest |
| Rewrites.RemoveResolver | convertbibliography.py:62-72 | the result is never longer than the input; a DOI with no match of the resolver pattern is unchanged |
| Rewrites.RemoveResolverStripsPrefix | convertbibliography.py:67-70 | a DOI behind `http://dx.doi.org/` loses that prefix and nothing else |
| Rewrites.RemoveResolverDotsMatchAnything | convertbibliography.py:72 | the two dots of the unescaped pattern match any character except a newline |
| Rewrites.ResolverPrefixNotNewline | convertbibliography.py:72 | a newline where the pattern has a dot is no match, since `.` does not match a newline without `re.DOTALL` |
| Rewrites.CollapseHyphens | convertbibliography.py:84 | `re.sub('-+', '--', s)` gives an empty result exactly for empty input, and begins with a hyphen exactly when the input does |
| Rewrites.CollapseHyphensDoubled | convertbibliography.py:84 | afterwards every maximal run of hyphens is exactly two long |
| Rewrites.CollapseHyphensFixpoint | convertbibliography.py:84 | text whose runs are already doubled is left alone |
| Rewrites.CollapseHyphensUnchangedIff | convertbibliography.py:84 | the rewrite leaves a text unchanged exactly when all its runs are doubled (both directions) |
| Rewrites.CollapseHyphensIdempotent | convertbibliography.py:84 | collapsing twice is collapsing once |
| Rewrites.CollapseHyphensRun | convertbibliography.py:84 | a run of hyphens of any length becomes `--` |
| Rewrites.CollapseHyphensNoHyphen | convertbibliography.py:84 | text without hyphens is unchanged |
| Rewrites.CollapseHyphensLone | convertbibliography.py:84 | a lone `-` becomes `--` |
| Rewrites.CollapseHyphensExample | convertbibliography.py:84 | `12---34` becomes `12--34` |
| Rewrites.ReplaceChar | convertbibliography.py:101-102 | replacing a literal character removes it when the replacement lacks it, adds no other characters, and leaves text without it unchanged |
| Rewrites.ReplaceDashes | convertbibliography.py:101-102 | afterwards there is no en-dash (U+2013) or em-dash (U+2014); text without them is unchanged |
| Rewrites.EscapeChar | convertbibliography.py:404-408 | after the look-behind substitution every occurrence of the character has a backslash before it |
| Rewrites.EscapeCharFixpoint | convertbibliography.py:404-408 | occurrences that are already escaped are not escaped again |
| Rewrites.EscapeCharKeepsEscaped | convertbibliography.py:401-408 | escaping one character keeps the escapes of the others |
| Rewrites.EscapeCharAppendPlain | convertbibliography.py:404-408 | text without the character passes through unchanged |
| Rewrites.Escape | convertbibliography.py:401-408 | after escaping `&`, `%` and `_` in that order, each of them has a backslash before it |
| Rewrites.EscapeFixpoint | convertbibliography.py:401-408 | text in which all three are already escaped is unchanged |
| Rewrites.EscapeIdempotent | convertbibliography.py:401-408 | escaping twice is escaping once |
| Rewrites.EscapeExample | convertbibliography.py:401-408 | `50% off` becomes `50\% off`, however often it is escaped |
| Rewrites.RemoveEscapedAmpersand | convertbibliography.py:383-389 | `\&` becomes `and`; text without `&` is unchanged |
| Rewrites.RemoveEscapedAmpersandClears | convertbibliography.py:383-389 | on text whose every `&` is escaped, no `&` is left |
| Rewrites.DeletePp | convertbibliography.py:438 | the unanchored `[Pp]{1,2}\.?` deletion leaves no `p` or `P` anywhere; text without them is unchanged |
| Rewrites.RemovePp | convertbibliography.py:438 | after deleting and stripping, `pages` has no `p` or `P` and no whitespace at either end |
| Rewrites.RemovePpIdempotent | convertbibliography.py:438 | the `pages` rewrite applied twice is the same as once |
| Rewrites.WordsToNumeralsKeys | convertbibliography.py:14-26 | every key of the ordinal table is a word of letters |
| Rewrites.RemoveOrdinalSuffixes | convertbibliography.py:218 | removing the suffixes never makes the text longer |
| Rewrites.RemoveOrdinalSuffixesOfNumber | convertbibliography.py:218 | digits followed by one suffix lose exactly the suffix |
| Rewrites.EditionOfNumberedOrdinal | convertbibliography.py:216-218 | a numbered edition such as `3rd` or `21st` becomes its number |
| Rewrites.EditionThird | convertbibliography.py:216-218 | `3rd` becomes `3` |
| Rewrites.EditionTwentyFirst | convertbibliography.py:216-218 | `21st` becomes `21` |
| Rewrites.EditionOfOrdinalWord | convertbibliography.py:213-215 | an ordinal word from `first` to `tenth`, in any case and with any surrounding whitespace, becomes its numeral |
| Rewrites.EditionOfPlainNumber | convertbibliography.py:212-219 | a value without letters is left as it is |
| Rewrites.NotOrdinalWord | convertbibliography.py:14-26 | text that does not start with a letter is not in the table |
| Rewrites.NoLetterNoOrdinal | convertbibliography.py:216 | text without letters has no numbered ordinal |
| Rewrites.ProtectWords | convertbibliography.py:452 | bracing the later words keeps one word per word |
| Rewrites.ProtectTokens | convertbibliography.py:450-453 | the first word is kept, and every later word is braced exactly when it starts with an upper-case letter |
| Rewrites.ProtectSingleWord | convertbibliography.py:450-453 | a one-word text comes back with a trailing space |
| Rewrites.ProtectIdempotent | convertbibliography.py:442-453 | protecting twice is protecting once |
| Normalize.Update | convertbibliography.py:183-186 | rewriting one field changes that field if present and nothing else |
| Normalize.RemoveField | convertbibliography.py:290-291 | `if k in record: del record[k]` drops exactly that key and keeps every other value |
| Normalize.UpdateFrame | convertbibliography.py:183-186 | a one-field rewrite agrees with the input away from that field |
| Normalize.NonPageHyphensRuns | convertbibliography.py:83-89 | in `volume`, `issue` and `number` every hyphen run becomes `--`; every other field is unchanged |
| Normalize.NonPageHyphensIdempotent | convertbibliography.py:75-89 | `non_page_hyphens` twice is `non_page_hyphens` once |
| Normalize.Dashes | convertbibliography.py:100-103 | every key, `id` and `type` included, is kept |
| Normalize.DashesGone | convertbibliography.py:100-103 | afterwards no value contains an en-dash or em-dash; a value that had none is unchanged |
| Normalize.DashesIdempotent | convertbibliography.py:92-103 | `dashes` twice is `dashes` once |
| Normalize.StripDoiPrefix | convertbibliography.py:114-116 | a DOI with a resolver prefix loses it; nothing else changes |
| Normalize.StripDoiClean | convertbibliography.py:114-116 | a record whose DOI has no resolver is unchanged |
| Normalize.TitlecaseNameFields | convertbibliography.py:183-187 | `author` and `editor` are rewritten by `title_name`; nothing else changes; twice is once |
| Normalize.Publisher | convertbibliography.py:198-201 | the keys are kept |
| Normalize.PublisherIdempotent | convertbibliography.py:198-201 | a publisher containing `and` ends up braced; only `publisher` changes; twice is once |
| Normalize.JournaltitleMoves | convertbibliography.py:230-233 | `journal` moves to `journaltitle`, overwriting any value there; without `journal` the record is unchanged; nothing else changes |
| Normalize.JoinAuthor | convertbibliography.py:510-511 | the library's `author` step followed by `join_author` keeps every field other than `author` |
| Normalize.JoinAuthorNames | convertbibliography.py:510-511 | bibtexparser's `author` step deletes an empty `author` and keeps any other; `join_author` joins the names with ` and `: one name stays as it is, two become `a and b`; only `author` changes |
| Normalize.BooktitleCopies | convertbibliography.py:276-279 | a book with a title gets an identical `booktitle`; any other record is unchanged |
| Normalize.RemovePublisherOnlyArticles | convertbibliography.py:355-358 | only an article loses its publisher; without one it is a no-op |
| Normalize.RemoveFieldFrame | convertbibliography.py:282-371 | each `remove_*` deletes just its key and is a no-op when the key is absent |
| Normalize.JstorFrame | convertbibliography.py:420-426 | `jstor` deletes exactly the three JSTOR fields, and is a no-op when they are absent |
| Normalize.RemoveAmpersandFields | convertbibliography.py:382-390 | `\&` becomes `and` in the four title fields; no other field changes |
| Normalize.EscapeCharacters | convertbibliography.py:401-409 | every key is kept |
| Normalize.EscapeCharactersEscapes | convertbibliography.py:401-409 | every `&`, `%` and `_` in every value is escaped afterwards; a second pass changes nothing |
| Normalize.EscapeThenRemoveAmpersand | convertbibliography.py:520-521 | escaping followed by the ampersand conversion leaves no `&` in the title fields |
| Normalize.EscapeThenConvert | convertbibliography.py:520-521 | the two steps in their `customizations` order keep the keys and clear `&` from the title fields |
| Normalize.RemovePagesClean | convertbibliography.py:437-439 | `pages` has no `p`/`P` and no surrounding whitespace afterwards; only `pages` changes; twice is once |
| Normalize.ProtectField | convertbibliography.py:464-469 | protecting one field keeps the keys and every other field |
| Normalize.ProtectCapitalisationFields | convertbibliography.py:464-470 | `title`, `subtitle` and `booktitle` are protected; nothing else changes |
| Normalize.ProtectFieldAgain | convertbibliography.py:464-469 | a field that is already protected is left as it is |
| Normalize.ProtectCapitalisationIdempotent | convertbibliography.py:456-470 | `protect_capitalisation` twice is once |
| Normalize.Multivolume | convertbibliography.py:473-488 | the keys are kept |
| Normalize.MultivolumeType | convertbibliography.py:482-488 | only `type` changes, and it changes exactly for a book or collection with a `volume`, to `mvbook` or `mvcollection` respectively |
| Records.DoiQuery | convertbibliography.py:129-133 | the search text is empty without title and author, and non-empty with an author |
| Records.GetDoiAsWritten | convertbibliography.py:119-172 | `get_doi` as written leaves a record alone when it does not query the API |
| Records.GetDoiAsWrittenFailsOnSuccess | convertbibliography.py:153-159 | with a good status code the step as written raises `NameError` whatever the answer holds |
| Records.GetDoiAsWrittenCounterexample | convertbibliography.py:153-159 | an article with a title whose query the API answers raises `NameError` |
| Records.GetDoiCorrected | convertbibliography.py:119-172 | as intended, only `doi` can change; a record with a DOI is unchanged; a DOI is added exactly for a queried record that gets a good answer with a result, and then it is that DOI without its resolver |
| Records.GetDoiAgrees | convertbibliography.py:119-172 | wherever the step as written finishes, the corrected step gives the same record |
| Records.Prepare | convertbibliography.py:510-514 | the first five steps keep `id` and `type` |
| Records.Clean | convertbibliography.py:515-521 | the next seven steps keep `id` and `type` and leave no `&` in the title fields |
| Records.Complete | convertbibliography.py:522-526 | the last five steps keep `id` and `type` and change only `edition`, `type`, `publisher` and `doi` |
| Records.Customize | convertbibliography.py:504-527 | the whole chain in its order keeps `id` and `type` and leaves no `&` in any title field |
| Records.TitlesKept | convertbibliography.py:522-526 | steps that leave the title fields alone keep them free of `&` |
| Records.Record.constructor | convertbibliography.py:504 | the record starts with the parsed fields |
| Records.Record.NonPageHyphens | convertbibliography.py:75-89 | the fields become `Normalize.NonPageHyphens` of the old fields |
| Records.Record.Dashes | convertbibliography.py:92-103 | the loop over every key gives `Normalize.Dashes` of the old fields |
| Records.Record.StripDoi | convertbibliography.py:106-116 | the fields become `Normalize.StripDoi` of the old fields |
| Records.Record.GetDoi | convertbibliography.py:119-172 | the fields become `GetDoiCorrected` of the old fields, with the API as a parameter |
| Records.Record.TitlecaseName | convertbibliography.py:175-187 | the fields become `Normalize.TitlecaseName` of the old fields |
| Records.Record.Publisher | convertbibliography.py:190-201 | the fields become `Normalize.Publisher` of the old fields |
| Records.Record.Edition | convertbibliography.py:204-219 | the fields become `Normalize.Edition` of the old fields |
| Records.Record.Journaltitle | convertbibliography.py:222-233 | the fields become `Normalize.Journaltitle` of the old fields |
| Records.Record.JoinAuthor | convertbibliography.py:255-265 | the fields become `Normalize.JoinAuthor` of the old fields, which drops an empty `author` |
| Records.Record.CaseTitle | convertbibliography.py:236-252 | the three title fields go through the `titlecase` parameter |
| Records.Record.Booktitle | convertbibliography.py:268-279 | the fields become `Normalize.Booktitle` of the old fields |
| Records.Record.RemoveField | convertbibliography.py:282-371 | the shared body of the `remove_*` steps deletes one key if present |
| Records.Record.RemoveAbstract | convertbibliography.py:282-292 | `abstract` is gone and nothing else changes |
| Records.Record.RemoveIssn | convertbibliography.py:295-305 | `issn` is gone and nothing else changes |
| Records.Record.RemoveIsbn | convertbibliography.py:308-318 | `isbn` is gone and nothing else changes |
| Records.Record.RemoveCopyright | convertbibliography.py:321-331 | `copyright` is gone and nothing else changes |
| Records.Record.RemoveLanguage | convertbibliography.py:334-344 | `language` is gone and nothing else changes |
| Records.Record.RemoveLink | convertbibliography.py:361-371 | `link` is gone and nothing else changes |
| Records.Record.RemoveBooktitle | convertbibliography.py:491-501 | `booktitle` is gone and nothing else changes |
| Records.Record.RemovePublisher | convertbibliography.py:347-358 | the fields become `Normalize.RemovePublisher` of the old fields |
| Records.Record.Jstor | convertbibliography.py:412-426 | the fields become `Normalize.Jstor` of the old fields |
| Records.Record.RemoveAmpersand | convertbibliography.py:374-390 | the fields become `Normalize.RemoveAmpersand` of the old fields |
| Records.Record.EscapeCharacters | convertbibliography.py:393-409 | the nested loops over keys and characters give `Normalize.EscapeCharacters` of the old fields |
| Records.Record.RemovePp | convertbibliography.py:429-439 | the fields become `Normalize.RemovePages` of the old fields |
| Records.Record.ProtectCapitalisation | convertbibliography.py:456-470 | the fields become `Normalize.ProtectCapitalisation` of the old fields |
| Records.Record.Multivolume | convertbibliography.py:473-488 | the fields become `Normalize.Multivolume` of the old fields |
| Records.Record.PrepareSteps | convertbibliography.py:510-514 | the five reassignments give `Prepare` |
| Records.Record.CleanSteps | convertbibliography.py:515-521 | the seven reassignments give `Clean` |
| Records.Record.CompleteSteps | convertbibliography.py:522-526 | the five reassignments give `Complete` |
| Records.Record.Customizations | convertbibliography.py:504-527 | the whole chain on the record gives `Customize` |
| Crossrefs.CrossrefTypesSorted | crossrefs.py:7-14 | `crossref_types` holds exactly the table's keys, each once, in ascending order |
| Crossrefs.MakeListShape | crossrefs.py:34-39 | with two or more items: all but the last joined by `, `, a comma only with three or more, then the delimiter and the last item |
| Crossrefs.MakeListEnds | crossrefs.py:34-39 | the result begins with the first item and ends with the last |
| Crossrefs.MakeListOne | crossrefs.py:25-26 | `['foo']` gives `foo` |
| Crossrefs.MakeListTwo | crossrefs.py:27-30 | `['foo', 'bar']` gives `foo or bar`, and `foo and bar` with `and` |
| Crossrefs.MakeListThree | crossrefs.py:31-32 | `['foo', 'bar', 'zip']` gives `foo, bar, or zip` |
| Crossrefs.ExpectedTypesText | crossrefs.py:112 | the expected-types list reads `inbook, incollection, or inproceedings` |
| Crossrefs.AllowedTypesText | crossrefs.py:9-11 | the allowed lists read `book or mvbook`, `collection or mvcollection` and `proceedings` |
| Crossrefs.NotFoundMessage | crossrefs.py:81-86 | a missing target prints `b1 referenced by e1 was not found.` |
| Crossrefs.EntryDiagnosticsCases | crossrefs.py:75-114 | a missing target is reported and skips the check of the target's type; a wrong target type is reported exactly when the target exists, the entry's type is in the table and the target's type is not allowed; an unexpected type is reported whenever the type is not one of the three; an entry without `crossref` gets no report |
| Crossrefs.EntryDiagnosticsPrintable | crossrefs.py:90-103 | every wrong-type report carries the table's non-empty allowed list, so its message can be printed |
| Crossrefs.DiagnosticsHas | crossrefs.py:73-114 | every report about one of the entries is in the output |
| Crossrefs.DiagnosticsFrom | crossrefs.py:73-114 | every report in the output is about one of the entries |
| Crossrefs.EntryReports | crossrefs.py:75-114 | one pass of the check gives the entry's reports in the order they are printed |
| Crossrefs.Validate | crossrefs.py:73-114 | the loop in bibliography order gives all reports of all entries; it takes the entries by value and changes none |
| Crossrefs.CopyField | crossrefs.py:132-140 | `title` goes to `booktitle`, `subtitle` to `booksubtitle`, a field of the `leave` list is skipped, any other field overwrites the referrer's; existing keys keep their places |
| Crossrefs.CopyFields | crossrefs.py:131-140 | copying keeps every field the referrer had, in its place |
| Crossrefs.CopyFieldsUntouched | crossrefs.py:131-140 | a field that none of the copied fields writes keeps its value, or stays absent |
| Crossrefs.CopyFieldsLastWriter | crossrefs.py:131-140 | a field holds the value of the last copied field that writes it |
| Crossrefs.ExpandedEntry | crossrefs.py:131-141 | the expanded referrer has no `crossref`, and is the referrer after the copies with `crossref` then deleted, even when the target's own `crossref` was copied over it |
| Crossrefs.CopyFieldsValid | crossrefs.py:131-140 | copying keeps the referrer a well-formed ordered dictionary |
| Crossrefs.ExpandedEntryOk | crossrefs.py:131-141 | the expanded referrer still has its `id` and `type` |
| Crossrefs.WritesCases | crossrefs.py:132-140 | a copied field writes itself, or `title`/`subtitle` write `booktitle`/`booksubtitle` |
| Crossrefs.WritersOf | crossrefs.py:132-140 | only `title` and `booktitle` write `booktitle`, and likewise for `booksubtitle`; other fields are written only by themselves |
| Crossrefs.LeaveNotWritten | crossrefs.py:117-126 | no copied field writes a field of the `leave` list |
| Crossrefs.ExpandedKeepsLeave | crossrefs.py:117-138 | the referrer keeps its own `leave` fields, `id` and `type` among them, and gains none |
| Crossrefs.ExpandedRenamedField | crossrefs.py:132-136 | the target's `title` becomes the referrer's `booktitle` when the target has no `booktitle`, and `subtitle` becomes `booksubtitle` likewise |
| Crossrefs.ExpandedCopies | crossrefs.py:139-140 | any other target field overwrites the referrer's |
| Crossrefs.ExpandedUntouchedField | crossrefs.py:131-141 | a field that no target field writes keeps its value |
| Crossrefs.OnlyWriter | crossrefs.py:131-140 | a field written by one target field only ends up holding that field's value |
| Crossrefs.ExpandStep | crossrefs.py:128-141 | one pass of the outer loop changes at most the visited entry, and keeps keys and order |
| Crossrefs.ReplaceReady | crossrefs.py:128-141 | replacing an entry with one without `crossref` keeps the preconditions of expansion |
| Crossrefs.ExpandStepReady | crossrefs.py:128-141 | a pass keeps the preconditions of expansion |
| Crossrefs.ExpandStepAt | crossrefs.py:128-141 | a pass over an entry with a `crossref` expands it against the current state of its target |
| Crossrefs.ExpandStepQuiet | crossrefs.py:128 | a pass over an entry without `crossref` leaves it alone |
| Crossrefs.ReadyExpandable | crossrefs.py:129-131 | when every target exists and none is its own referrer, every referrer can be expanded |
| Crossrefs.ExpandStepClears | crossrefs.py:141 | after a pass the visited entry has no `crossref` |
| Crossrefs.ExpandFirst | crossrefs.py:127-141 | every state of the outer loop keeps keys and order |
| Crossrefs.ExpandFirstReady | crossrefs.py:127-141 | every state of the loop still meets the preconditions |
| Crossrefs.ExpandFirstNextState | crossrefs.py:127-141 | one more pass expands the next entry and adds its target to `crossrefs` |
| Crossrefs.ExpandFirstFrame | crossrefs.py:127-141 | an entry the loop has not reached is as it was |
| Crossrefs.ExpandFirstQuiet | crossrefs.py:127-141 | an entry without `crossref` never changes |
| Crossrefs.ExpandFirstAt | crossrefs.py:127-141 | once visited, an entry is left alone by later passes |
| Crossrefs.ExpandFirstClears | crossrefs.py:127-141 | every visited entry has no `crossref` afterwards |
| Crossrefs.ExpandFirstReferrer | crossrefs.py:127-141 | a referrer ends up expanded against its target as the loop found it when it got there |
| Crossrefs.ExpandFirstTarget | crossrefs.py:127-141 | the target is found as it was unless the loop visited it earlier and it had a `crossref` of its own |
| Crossrefs.ConsumedFirstKeys | crossrefs.py:129-130 | every collected key names an entry |
| Crossrefs.ConsumedFrom | crossrefs.py:129-130 | every collected key is the target of an entry seen so far |
| Crossrefs.ConsumedHas | crossrefs.py:129-130 | every seen entry's target is collected |
| Crossrefs.Consumed | crossrefs.py:116-130 | the collected set names entries of the bibliography |
| Crossrefs.ConsumedIff | crossrefs.py:116-130 | a key is collected exactly when some entry's `crossref` names it |
| Crossrefs.Prune | crossrefs.py:142-144 | deleting the collected keys keeps the other entries and their values |
| Crossrefs.PruneValid | crossrefs.py:142-144 | deleting keys keeps the bibliography well formed |
| Crossrefs.PruneMore | crossrefs.py:143-144 | deleting one more key is pruning by one more key, so the set's iteration order does not matter |
| Crossrefs.PruneNone | crossrefs.py:142 | with nothing collected nothing is deleted |
| Crossrefs.ExpansionResult | crossrefs.py:127-144 | after expansion the targets are gone, every other entry is there in its original order, no entry has a `crossref`, and the result is well formed |
| Crossrefs.ExpansionNothing | crossrefs.py:127-144 | without any `crossref` nothing is collected and the bibliography is unchanged |
| Crossrefs.ExpansionUntouched | crossrefs.py:127-144 | an entry without `crossref` that no entry names keeps its value |
| Crossrefs.ExpansionReferrer | crossrefs.py:127-144 | a referrer that is not a target ends up expanded against its target as the loop found it, which is the original target unless that target was visited earlier with a `crossref` of its own |
| Expansion.ExpandFields | crossrefs.py:131-140 | the inner loop over the target's fields gives `CopyFields` over the target's keys in order |
| Expansion.ExpandEntry | crossrefs.py:128-141 | one pass of the outer loop gives `ExpandStep` and adds the entry's target |
| Expansion.ExpandEntries | crossrefs.py:127-141 | the outer loop gives the final loop state and the collected set of targets |
| Expansion.DeleteConsumed | crossrefs.py:142-144 | deleting the collected keys in any order gives `Prune` |
| Expansion.Expand | crossrefs.py:115-144 | `--expand` gives `Expanded` and the collected targets |
| Render.EntryTextShape | crossrefs.py:47-60 | an entry renders as `\n@type{id`, then `,\n\tfield = {value}` for each field other than `id` and `type` in order, then `}\n` |
| Render.FieldLinesItems | crossrefs.py:53-59 | each field line ends in the `,\n` that the next item begins with, so dropping the last two characters removes exactly the final comma and newline |
| Render.EntryTextBare | crossrefs.py:49-59 | an entry with only `id` and `type` renders as `\n@book{b1}\n` |
| Render.AppendEntry | crossrefs.py:49-59 | one pass of the outer loop appends the entry's text |
| Render.BibToString | crossrefs.py:42-60 | the loop gives the entries' texts one after another, in bibliography order |
| Dicts.Set | crossrefs.py:133-140 | assignment maps the key to the value; a new key goes last and existing keys keep their places |
| Dicts.SetValid | crossrefs.py:133-140 | assignment keeps the dictionary well formed and adds a key exactly when it was absent |
| Dicts.Delete | crossrefs.py:141-144 | `del` removes the key and keeps the order of the others |
| Dicts.DeleteValid | crossrefs.py:141-144 | `del` keeps the dictionary well formed |
| Dicts.Filter | crossrefs.py:143-144 | the keys left are the listed ones outside the set, in order |
| Dicts.FilterFilter | crossrefs.py:143-144 | deleting two sets of keys one after another is deleting both at once |
| FixKeys.WordRun | fixbibliography.py:21 | the leading run of `\w` characters is maximal |
| FixKeys.HeaderOf | fixbibliography.py:21 | `@`, a word, `{` and an optional `,` is a header |
| FixKeys.HeaderShape | fixbibliography.py:21 | every header is `@`, a word, `{` and an optional `,`, and nothing more |
| FixKeys.MatchParts | fixbibliography.py:21 | a matching line is whitespace, a header, whitespace |
| FixKeys.MatchesOf | fixbibliography.py:21 | whitespace, a header and whitespace make a matching line |
| FixKeys.NotMatchesOf | fixbibliography.py:21 | a line whose first character other than whitespace is not `@` does not match |
| FixKeys.FindBrace | fixbibliography.py:22 | in a matching line the first `{` is the one after the word |
| FixKeys.PyFind | fixbibliography.py:22 | `find` gives the first index of the character, or -1 exactly when it is absent |
| FixKeys.RewriteShape | fixbibliography.py:22 | a rewritten line keeps everything up to its `{`, then holds `Foo` + the number + `,\n`, and no longer matches |
| FixKeys.KeyedNotHeader | fixbibliography.py:21-22 | a header with its key filled in is no longer a header |
| FixKeys.Numbered | fixbibliography.py:18-25 | numbering the matching lines keeps the number of lines |
| FixKeys.NumberedAt | fixbibliography.py:18-25 | line `j` is rewritten with one plus the number of matching lines before it |
| FixKeys.NumberLines | fixbibliography.py:18-25 | the `while` loop with its two counters rewrites the array in place to `Numbered` of its old contents |
| FixKeys.FixKeys | fixbibliography.py:8-25 | `fix_keys` turns the array into `FixedLines` of its old contents |
| FixKeys.FixedLines | fixbibliography.py:8-25 | `fix_keys` keeps the number of lines |
| FixKeys.FixedLinesAt | fixbibliography.py:18-24 | line `j` is rewritten exactly when it matches, with key one plus the number of matching lines before it |
| FixKeys.FixedLinesUnchanged | fixbibliography.py:21-22 | a line that does not match is unchanged, and no line matches afterwards |
| FixKeys.KeysIncrease | fixbibliography.py:18-23 | the counter never resets: a later header gets a larger number, so no two headers get the same key |
| FixKeys.FirstKeyIsOne | fixbibliography.py:18 | the first header gets `Foo1` |
| FixKeys.NatToStringInjective | fixbibliography.py:22 | different numbers give different decimal keys |
| FixKeys.FixKeysIdempotent | fixbibliography.py:21-22 | running `fix_keys` on its own output changes nothing |
| FixKeys.ExampleRewrite | fixbibliography.py:13-16 | `@article{\n` becomes `@article{Foo1,\n` |
| FixKeys.FixKeysExample | fixbibliography.py:13-16 | the docstring's three lines come out as the docstring says |
| FixKeys.WithLeadingNewline | fixbibliography.py:50-51 | a first line other than `\n` gets a `\n` line in front; otherwise the content is unchanged |
| FixKeys.FixedLinesAfterNewline | fixbibliography.py:50-53 | an empty line in front changes neither which lines match nor their numbers |
| FixKeys.NumberedPrepend | fixbibliography.py:50-53 | a line in front that does not match shifts no number |
| FixKeys.FixFile | fixbibliography.py:47-54 | the driver outputs the joined lines of `fix_keys` applied after the newline insertion |
| Text.Lower | convertbibliography.py:213 | `lower()` keeps the length and lower-cases each character |
| Text.StripLeft | convertbibliography.py:213 | `lstrip()` drops exactly the leading whitespace |
| Text.StripRight | convertbibliography.py:213 | `rstrip()` drops exactly the trailing whitespace |
| Text.Strip | convertbibliography.py:438 | `strip()` leaves no whitespace at either end |
| Text.StripSlice | fixbibliography.py:21 | `strip()` returns a piece of its argument with only whitespace around it |
| Text.StripPadded | convertbibliography.py:213 | whitespace around a trimmed text is exactly what `strip()` removes |
| Text.Find | fixbibliography.py:22 | `find` of a present character gives its first index |
| Text.Words | convertbibliography.py:57 | `split()` gives whitespace-free, non-empty tokens |
| Text.WordsSkipSpace | convertbibliography.py:57 | leading whitespace does not change the tokens |
| Text.WordsCons | convertbibliography.py:57 | a word followed by whitespace is split off first |
| Text.WordsOfJoin | convertbibliography.py:55-58 | splitting a single-space join of words gives back the words |
| Text.NatToString | fixbibliography.py:22 | `str(k)` is a non-empty string of digits |
| Text.CollectHas | crossrefs.py:73-114 | every item of one of the collected lists is in the result |
| Text.CollectFrom | crossrefs.py:73-114 | every item of the result comes from one of the lists |

## Left out

- I/O is not modelled. That covers argument parsing, reading and writing files, standard input and output, the backup copy, and bibtexparser's parsing and writing. The model starts from parsed records and entries, and ends with the returned values and strings.
- The current process prints. These are the backup note, the status messages of `get_doi` and the final "I found the following crossrefs" line (crossrefs.py:147-152), which joins the sorted set. The check's reports are returned as data, and `Crossrefs.Message` renders their text.
- The library steps are parameters of `Records.Library`:
  - bibtexparser's `author`, `convert_to_unicode` and `page_double_hyphen`;
  - the `titlecase` package;
  - the CrossRef API.

  `Records.Customize` requires that the two record-to-record library steps keep `id` and `type`.
  The model keeps one piece of bibtexparser's `author`: it deletes an empty `author` field. A non-empty field is split into names by the `splitAuthor` parameter, so how the names are split and cleaned is not modelled.
- The HTTP request of `get_doi` becomes a function from query to reply. The exceptions and the JSON decoding are left out; only whether a first result exists remains.
- Unicode is reduced to ASCII: letters, case and `\w` are ASCII, as are `str.title`, `str.isupper` and `str.lower`. Whitespace follows Python's `str.isspace`. `Rewrites.TitleWord` does not model `str.title` on non-ASCII letters.
- In convertbibliography.py a record is an unordered map. The loops of `dashes` and `escape_characters` rewrite each value independently, so visiting order cannot change their result. The order of fields in the written file is bibtexparser's.
- references.py is not part of this model. It is a script of file reads and a set difference.
- Expansion is modelled only under `Crossrefs.Ready`: every target exists and no entry names itself.
  - A missing target makes crossrefs.py:131 raise `KeyError`.
  - A self-reference makes the inner loop write into the dictionary it is iterating. Python raises `RuntimeError` there as soon as that adds a key, and the entry is then deleted as a target of itself.

  `Expansion.Expand` and the lemmas about expansion do not describe either outcome.
- `Crossrefs.WellFormed`: the check, expansion and rendering assume that every entry has `id` and `type`, as bibtexparser produces them.
- Dictionaries in crossrefs.py are values that the loop methods reassign, not shared mutable objects. The bibliography is not referenced from anywhere else, so aliasing does not arise.
- `Crossrefs.ExpandStep` also guards against a target that is missing or that is the entry itself. The guard is never taken under `Ready`.
- Crossrefs.Message: only the text of the "was not found" report is checked against a concrete example (`Crossrefs.NotFoundMessage`). The other two messages are defined the same way; their example strings are proved only for the lists they print (`ExpectedTypesText`, `AllowedTypesText`).
- Crossrefs.MakeList requires a non-empty list: the source fails on `strings[-1]` for an empty one, and every caller passes a non-empty table entry.
- Rewrites.Protect requires at least one word, and Normalize.ProtectCapitalisation requires that of each title field: the source fails on `l[0]` otherwise.
- FixKeys.WithLeadingNewline and FixKeys.FixFile require at least one line: the driver fails on `content[0]` for an empty input.
- Dicts.Delete requires the key to be present. Python raises `KeyError` otherwise, and no caller deletes an absent key.
- Normalize.CaseTitle and Records.Record.CaseTitle leave the `titlecase` package uninterpreted, so nothing is proved about the titles it produces beyond which fields it touches.
- Records.Record.GetDoi models the corrected `get_doi` (see Findings). The step as written is `Records.GetDoiAsWritten`.

## Findings

| source | as written | input that shows it | evidently intended | confidence | as-written member | corrected member |
|---|---|---|---|---|---|---|
| convertbibliography.py:157-159 | a good status code makes `get_doi` call `hodgson.remove_resolver`, but no module `hodgson` is imported, so the call raises `NameError`, which is not caught | an article `{"id": "a", "type": "article", "title": "T"}` without a DOI, for which the CrossRef API answers status 200 with a DOI | call the module's own `remove_resolver` and store the DOI without its resolver | not executed | Records.GetDoiAsWritten, Records.GetDoiAsWrittenCounterexample | Records.GetDoiCorrected |
