# Icar-Portal upload validation and object store, in Dafny

This project models the core of the Icar-Portal milk-yield benchmarking
portal and proves properties of it:

- **The upload page's validation engine** (`frontend/src/pages/Submit.jsx`).
  - `norm` canonicalises header labels, and the schema has two required columns (`TestObjectID`, `CalculatedMilkYield (kg)`).
  - It computes the `missing` and `extra` column lists and remaps every data row onto the two columns.
  - It runs the four row checks with numbered row issues and detects duplicate integer IDs through the `seen` set.
  - It builds the five-row preview and runs the extension and size checks.
  - The `handleSubmit` gate and the submit button's `disabled` predicate decide whether a file can be sent.
- **The two storage engines** (`models/engine/file_storage.py`, `models/engine/blob_storage.py`).
  - Each is a class-level dictionary of objects keyed `"<ClassName>.<id>"`, kept in insertion order.
  - Each supports `all`, `new`, `get`, `delete`, `count` and `check_attr_val`.
  - Each has a `reload` step: the file engine merges decoded entries, and the blob engine rebuilds its cache from them.
- **The per-parity part of the comparison report** (`api/v1/views/submission.py`).
  - The submission map and the grouping of reference, submitted and reference-data yields into parity groups "1", "2" and "3+".
  - The choice of the sections the report shows.
  - `extract_milk_yield_data_from_excel`, which reads a yield sheet into a map from stripped test ID to yield.
- **`titleCase`** of the navigation bar (`frontend/src/App.js`).

Module by file:

- `wrappers.dfy`: `Option` and `Result`.
- `text.dfy` (`JsText`): JavaScript `toLowerCase`, `trim`, `split` and `join`.
- `title_case.dfy` (`NavTitle`): `titleCase`.
- `header_schema.dfy` (`UploadSchema`): the schema, `norm`, `indexOf`, `missing` and `extra`.
- `rows.dfy` (`UploadRows`): the remap, the row checks, issues, duplicates and the preview.
- `submit_page.dfy` (`UploadPage`): the page state as a class, with `resetValidation`, `parseAndValidateExcel`, `onFileChange`, `handleSubmit` and `disabled`.
- `models.dfy` (`StoreModels`): the stored classes and objects, and the insertion-ordered dictionary.
- `file_storage.dfy` (`FileEngine`): the file engine.
- `blob_storage.dfy` (`BlobEngine`): the blob engine.
- `comparison.dfy` (`Comparison`): parity groups and sections.
- `py_text.dfy` (`PyText`): Python `str.strip`.
- `yield_sheet.dfy` (`YieldSheet`): `extract_milk_yield_data_from_excel`.

Where the source does work step by step, the model is imperative:

- `UploadPage.SubmitPage` is a class whose methods update its fields: file, validation state, error, loading flag and success flag.
- The remap, the validation loop, the grouping loop and the section loop are methods with loop invariants.
- Both storage engines are classes over a dictionary field.

Each method is proved against a specification function, and the properties of that function are proved as lemmas.

The model keeps these details of the code:

- `extra` is a membership test, not a positional one (`Submit.jsx:129`).
- The row checks run in the order: ID empty, yield empty, ID not a non-negative integer, yield not a non-negative number.
- An empty ID counts as the integer 0 for duplicates, because `Number("")` is 0.
- The submit gate tests sign-in first, then the stored file error, the chosen file, missing columns, row issues and duplicates.
- Nothing guards against overlapping parses.

## Model

| member | source | states |
|---|---|---|
| UploadSchema.Norm | frontend/src/pages/Submit.jsx:47 | every character of `norm(s)` is in `[a-z0-9]` |
| UploadSchema.NormIdempotent | frontend/src/pages/Submit.jsx:47 | `norm(norm(s)) == norm(s)` |
| UploadSchema.NormIgnoresCase | frontend/src/pages/Submit.jsx:47 | `norm(s.toLowerCase()) == norm(s)`: case never matters |
| UploadSchema.NormAppend | frontend/src/pages/Submit.jsx:47 | `norm` distributes over concatenation |
| UploadSchema.NormTrim | frontend/src/pages/Submit.jsx:124-125 | trimming a header does not change its normal form |
| UploadSchema.RequiredColumnsDistinct | frontend/src/pages/Submit.jsx:45-48 | the two required columns have different normal forms, so `REQUIRED_NORM.indexOf` finds each column's own position |
| UploadSchema.IndexOf | frontend/src/pages/Submit.jsx:135 | `indexOf` is -1 exactly when the value is absent, else the first position holding it |
| UploadSchema.IndexOfOwnNorm | frontend/src/pages/Submit.jsx:128 | with distinct normal forms, `REQUIRED_NORM.indexOf(norm(col))` is `col`'s own index |
| UploadSchema.TrimAll | frontend/src/pages/Submit.jsx:124 | one trimmed header per header cell |
| UploadSchema.Absent | frontend/src/pages/Submit.jsx:126-127 | the filter keeps exactly the required normal forms absent from the headers' normal forms |
| UploadSchema.MissingExact | frontend/src/pages/Submit.jsx:126-128 | `missing` is, in schema order and under original names, exactly the required columns whose normal form no header has |
| UploadSchema.MatchedOrMissing | frontend/src/pages/Submit.jsx:126-128 | a required column is missing if and only if `indexOf` of its normal form in the headers is -1: matched or missing, never both |
| UploadSchema.MissingIgnoresOrder | frontend/src/pages/Submit.jsx:124-128 | header rows with the same normal forms, in any order or multiplicity, miss the same columns |
| UploadSchema.NoneMissing | frontend/src/pages/Submit.jsx:124-128 | headers holding a label of every column, whatever its case, spacing or punctuation, miss none |
| UploadSchema.NoneMissingIff | frontend/src/pages/Submit.jsx:126-128 | nothing is missing if and only if every column has a header with its normal form |
| UploadSchema.MatchedAfterTrim | frontend/src/pages/Submit.jsx:124 | trimming the header cells does not change which columns are matched |
| UploadSchema.EmptyHeaderRow | frontend/src/pages/Submit.jsx:124-129 | an empty header row misses every required column and has no extra column |
| UploadSchema.Extra | frontend/src/pages/Submit.jsx:129 | a header is extra if and only if its normal form is no required column's normal form (a membership test) |
| UploadSchema.ExtraAppend | frontend/src/pages/Submit.jsx:129 | `extra` keeps header order: it distributes over concatenation of header rows |
| JsText.JsLowerIdempotent | frontend/src/pages/Submit.jsx:47 | `toLowerCase` is idempotent |
| JsText.Trim | frontend/src/pages/Submit.jsx:124 | `trim` leaves an infix with no white space at either end, and removes only white space |
| JsText.JoinSplit | frontend/src/App.js:52-54 | joining the pieces of `split(sep)` with `sep` gives the string back |
| JsText.SplitJoin | frontend/src/App.js:52-54 | splitting a join of separator-free pieces gives the pieces back |
| JsText.SplitLast | frontend/src/pages/Submit.jsx:107 | the last piece of `split(".")` is the text after the last dot |
| UploadRows.Remapped | frontend/src/pages/Submit.jsx:132-139 | a record has exactly the required columns as keys |
| UploadRows.RemapRow | frontend/src/pages/Submit.jsx:133-137 | the column-by-column fill builds the record `Remapped` describes |
| UploadRows.RemapRows | frontend/src/pages/Submit.jsx:132-139 | one record per data row, in the same order |
| UploadRows.RemapTakesFirstMatch | frontend/src/pages/Submit.jsx:135-136 | a column takes the cell under the first header that normalises like it |
| UploadRows.RemapUnmatchedIsBlank | frontend/src/pages/Submit.jsx:136 | a column no header matches is `""` |
| UploadRows.MissingColumnIsBlank | frontend/src/pages/Submit.jsx:126-136 | a column reported missing is `""` in every record |
| UploadRows.Problems | frontend/src/pages/Submit.jsx:145-156 | the problems of a record come in the fixed check order, each at most once |
| UploadRows.NoProblemsIffValid | frontend/src/pages/Submit.jsx:145-156 | a record has no problem if and only if its ID is an integer of at least 0 and its yield a finite number of at least 0 |
| UploadRows.OneProblemPerColumn | frontend/src/pages/Submit.jsx:146-152 | an empty ID is not also reported as a non-integer, since `Number("")` is 0; the same holds for the yield; so a record has at most two problems |
| UploadRows.MessagesDistinct | frontend/src/pages/Submit.jsx:146-156 | the four messages are pairwise different |
| UploadRows.IssuesOf | frontend/src/pages/Submit.jsx:163 | one issue per row with problems, numbered `rowIdx + 2` and carrying that row's problems, in ascending row order |
| UploadRows.EveryProblemReported | frontend/src/pages/Submit.jsx:163 | every row with a problem has an issue numbered two past its index |
| UploadRows.RowIssueIffProblem | frontend/src/pages/Submit.jsx:144-163 | a record has an issue numbered `k + 2` if and only if it has a problem |
| UploadRows.NoIssuesIff | frontend/src/pages/Submit.jsx:144-164 | there are no row issues if and only if every record is valid |
| UploadRows.SeenExact | frontend/src/pages/Submit.jsx:158-161 | `seen` holds exactly the integer IDs met |
| UploadRows.DupesExact | frontend/src/pages/Submit.jsx:158-161 | a value is pushed to `dupes` if and only if two rows carry it as their integer ID |
| UploadRows.Distinct | frontend/src/pages/Submit.jsx:169 | `[...new Set(xs)]` has the same members as `xs` and no repeats |
| UploadRows.DupeIdsExact | frontend/src/pages/Submit.jsx:158-169 | `dupeIds` holds each ID carried by two or more rows exactly once, and nothing else |
| UploadRows.TwoEmptyIds | frontend/src/pages/Submit.jsx:150-161 | two rows with an empty ID report the duplicate ID 0 |
| UploadRows.NoDupesIff | frontend/src/pages/Submit.jsx:158-169 | `dupeIds` is empty if and only if no integer ID is carried by two rows |
| UploadRows.CheckRecord | frontend/src/pages/Submit.jsx:145-161 | the four checks push exactly the record's problems, and yield the ID `Number.isInteger` accepts |
| UploadRows.ValidateRows | frontend/src/pages/Submit.jsx:141-164 | the loop with the `seen` set yields exactly `IssuesOf` of the problem lists and `DupesOf` of the integer IDs |
| UploadRows.Preview | frontend/src/pages/Submit.jsx:167 | the preview is the first `min(5, n)` records, in order |
| UploadPage.ExtensionIsLastPiece | frontend/src/pages/Submit.jsx:107 | the extension is the lower-cased text after the last dot, or the whole lower-cased name when it has no dot |
| UploadPage.FileError | frontend/src/pages/Submit.jsx:107-115 | a file is accepted if and only if its extension is `xlsx` or `xls` and its size is at most 10 MiB |
| UploadPage.RefusedFileLeavesReset | frontend/src/pages/Submit.jsx:105-115 | a bad extension, an oversize file or an unreadable workbook sets its message and leaves header, preview, issue and duplicate state reset |
| UploadPage.CleanValidation | frontend/src/pages/Submit.jsx:124-169 | an accepted readable file leaves the page unblocked if and only if every column is matched, every record is valid and no integer ID repeats |
| UploadPage.PreviewIsFirstRecords | frontend/src/pages/Submit.jsx:167 | the stored preview is the first `min(5, n)` remapped rows, in order |
| UploadPage.CheckSheet | frontend/src/pages/Submit.jsx:124-169 | the sheet checks fill in exactly the validation state `SheetValidation` specifies |
| UploadPage.Gate | frontend/src/pages/Submit.jsx:184-218 | the submission passes the gate if and only if the user is signed in, there is no file error, a file is chosen and nothing is missing, at issue or duplicated |
| UploadPage.DisabledMatchesGate | frontend/src/pages/Submit.jsx:439-445 | with no request running, the button is disabled if and only if the gate would stop a signed-in user with a file |
| UploadPage.RefusedFileStopsSubmit | frontend/src/pages/Submit.jsx:184-194 | a refused file stops the submission with its own message, or with the sign-in error first |
| UploadPage.SubmitPage.constructor | frontend/src/pages/Submit.jsx:50-60 | the page starts with no file, reset validation state, no error and not loading |
| UploadPage.SubmitPage.ResetValidation | frontend/src/pages/Submit.jsx:90-96 | the validation state is reset and nothing else changes |
| UploadPage.SubmitPage.ParseAndValidate | frontend/src/pages/Submit.jsx:105-176 | the validation state becomes `Validate(f, sheet)` and nothing else changes |
| UploadPage.SubmitPage.OnFileChange | frontend/src/pages/Submit.jsx:98-103 | the chosen file is recorded and validated, or the state is reset when none is chosen |
| UploadPage.SubmitPage.HandleSubmit | frontend/src/pages/Submit.jsx:178-260 | the request is sent if and only if the gate passes; otherwise the gate's error is set and file and validation state are kept; an accepted request clears the file and resets validation; loading ends false |
| NavTitle.TitleCase | frontend/src/App.js:49-51 | an undefined or null input gives undefined, and only then |
| NavTitle.CapitalizeWordsAt | frontend/src/App.js:52-54 | capitalising the words upper-cases each word's first character and keeps every other character |
| NavTitle.TitleCaseAt | frontend/src/App.js:49-54 | the result is the lower-cased input with the first character of every word upper-cased, spaces in place |
| NavTitle.TitleCaseWords | frontend/src/App.js:52-54 | the result splits on " " into the input's words, as many and in order, each lower-cased then capitalised |
| NavTitle.TitleCaseLength | frontend/src/App.js:49-54 | for input without U+0130, in particular ASCII input, the length is kept |
| NavTitle.LowerOfTitleCase | frontend/src/App.js:49-54 | lower-casing the result gives the lower-cased input |
| NavTitle.TitleCaseIdempotent | frontend/src/App.js:49-54 | applying `titleCase` twice equals applying it once |
| StoreModels.ClassNamedOfName | models/engine/file_storage.py:10-13 | looking a class up by its name finds it |
| StoreModels.KeyInjective | models/engine/file_storage.py:34 | two objects share a key `"<ClassName>.<id>"` if and only if they share class and id |
| StoreModels.Put | models/engine/file_storage.py:34 | `d[k] = v` sets the entry, keeps an existing key's place, appends a new key, and keeps the dictionary well formed |
| StoreModels.Remove | models/engine/file_storage.py:66 | `del d[k]` drops only `k` |
| StoreModels.FilteredExact | models/engine/file_storage.py:24-29 | `all(cls)` keeps exactly the entries that are instances of `cls`, with their objects; for `ParentModel` it is the whole dictionary |
| StoreModels.Build | models/user.py:10-14 | a rebuilt object has the entry's id, every stored attribute with its stored value, and, for a `User`, `organization`, `name` and `email` set to "" where the entry has none |
| StoreModels.Loaded | models/engine/file_storage.py:57 | the object rebuilt from an entry is of the class its `__class__` names |
| StoreModels.ReloadedUserDefaults | models/user.py:11-13 | a reloaded `User` without a stored `organization`, `name` or `email` has it as "" |
| StoreModels.LenIsEntryCount | models/engine/file_storage.py:90-92 | counting the keys gives the number of entries |
| FileEngine.FileStorage.constructor | models/engine/file_storage.py:18 | the store starts empty |
| FileEngine.FileStorage.All | models/engine/file_storage.py:20-30 | the filtering loop builds `Filtered(objects, cls)` for a registered class, and returns the whole dictionary otherwise |
| FileEngine.FileStorage.New | models/engine/file_storage.py:32-34 | `obj` is stored under its key, replacing any earlier entry |
| FileEngine.FileStorage.Reload | models/engine/file_storage.py:52-59 | the decoded entries are merged in one by one, each stored as the object rebuilt from it, until an entry whose class is missing or unknown; a file that cannot be read changes nothing |
| FileEngine.FileStorage.Delete | models/engine/file_storage.py:61-66 | only `obj`'s key is removed; no object, or an absent key, changes nothing |
| FileEngine.FileStorage.Get | models/engine/file_storage.py:68-81 | the result is the instance of a registered `cls` under `"<cls name>.<id>"`, else nothing |
| FileEngine.FileStorage.Count | models/engine/file_storage.py:83-92 | the count is the size of `all(cls)`, and of the whole dictionary for an unregistered class |
| FileEngine.FileStorage.CheckAttrVal | models/engine/file_storage.py:94-103 | the scan answers like `AttrScan` over the class's instances in order; an unregistered class gives false |
| FileEngine.Found | models/engine/file_storage.py:68-81 | anything found is an instance of the registered class asked for |
| FileEngine.AttrScan | models/engine/file_storage.py:100-102 | true means some object's attribute equals `val`; false means every object has the attribute and none equals it; an error means some object lacks it |
| FileEngine.AttrScanComplete | models/engine/file_storage.py:94-103 | when every object has the attribute, the answer is whether one of them equals `val` |
| FileEngine.AttrScanOrder | models/engine/file_storage.py:100-102 | the answer depends on order: a match before an object lacking the attribute gives true, after it an `AttributeError` |
| FileEngine.MergedKeeps | models/engine/file_storage.py:52-57 | `reload` never drops an existing key |
| FileEngine.MergeLengthFacts | models/engine/file_storage.py:56-59 | the merge reaches exactly the entries before the first whose class is missing or unknown |
| FileEngine.MergedAdds | models/engine/file_storage.py:56-57 | every entry the merge reaches has its key present after `reload` |
| FileEngine.MergedUntouched | models/engine/file_storage.py:56-57 | a key that no reached entry carries keeps its object, or stays absent |
| FileEngine.MergedLastWins | models/engine/file_storage.py:56-57 | a reached entry's key holds the object rebuilt from it, unless a later reached entry has the same key |
| FileEngine.ReloadedUserHasEmail | models/engine/file_storage.py:57 | a reloaded `User` stored without attributes makes `check_attr_val(User, "email", "")` true |
| FileEngine.GetAfterNew | models/engine/file_storage.py:68-81 | after `new(o)`, `get(type(o), o.id)` returns `o` |
| FileEngine.NewKeepsOthers | models/engine/file_storage.py:32-34 | `new(o)` changes what `get` finds under no other class and id |
| FileEngine.GetAfterDelete | models/engine/file_storage.py:61-66 | after `delete(o)`, `get` finds nothing under `o`'s class and id |
| FileEngine.FoundInAll | models/engine/file_storage.py:68-81 | `get` finds exactly what `all(cls)` holds under the key |
| FileEngine.CountParentModel | models/engine/file_storage.py:83-92 | `count(ParentModel)` counts every object |
| BlobEngine.FileStorage.constructor | models/engine/blob_storage.py:29 | the cache starts empty |
| BlobEngine.FileStorage.All | models/engine/blob_storage.py:58-65 | for a registered class, exactly the cached instances of it, with their objects; otherwise the whole cache |
| BlobEngine.FileStorage.New | models/engine/blob_storage.py:67-70 | `obj` is cached under its key, replacing any entry; `get` then finds it |
| BlobEngine.FileStorage.Delete | models/engine/blob_storage.py:104-108 | only `obj`'s key is popped, and `get` then finds nothing; no object changes nothing |
| BlobEngine.FileStorage.Get | models/engine/blob_storage.py:110-115 | the result is what is cached under `"<cls name>.<id>"` for a registered class, else nothing |
| BlobEngine.FileStorage.Count | models/engine/blob_storage.py:117-119 | the count is the size of `all(cls)`, at most the cache's size |
| BlobEngine.FileStorage.CheckAttrVal | models/engine/blob_storage.py:121-127 | true if and only if the class is registered and some instance has `getattr(obj, attr, None) == val` |
| BlobEngine.FileStorage.Reload | models/engine/blob_storage.py:83-102 | without a blob, or when reading fails, the cache is kept; otherwise it is emptied and rebuilt from the decoded entries, skipping unknown classes and stopping at an entry without a class |
| BlobEngine.RebuildLengthFull | models/engine/blob_storage.py:95-99 | when every entry has a class, the loop reaches all of them |
| BlobEngine.RebuildKeys | models/engine/blob_storage.py:95-99 | beyond the keys it started with, the rebuilt cache holds exactly the keys of the reached entries of a registered class |
| BlobEngine.RebuildMonotone | models/engine/blob_storage.py:96-99 | the rebuild loop never drops a key it has added |
| BlobEngine.RebuildUntouched | models/engine/blob_storage.py:96-99 | a key that no reached entry of a registered class carries keeps its object, or stays absent |
| BlobEngine.RebuildLastWins | models/engine/blob_storage.py:96-99 | a reached entry of a registered class has its key hold the object rebuilt from it, unless a later such entry has the same key |
| BlobEngine.ReloadReplaces | models/engine/blob_storage.py:94-99 | after `reload`, a key is cached if and only if a reached entry of a registered class has it, and it holds the object rebuilt from the last such entry; unknown classes are dropped |
| BlobEngine.ReloadedUserHasEmail | models/engine/blob_storage.py:97-99 | a blob holding one `User` without attributes reloads to a user whose `getattr(obj, "email", None)` is "" |
| BlobEngine.MissingAttrMatchesNone | models/engine/blob_storage.py:125 | an object lacking `attr` matches only `None` |
| Comparison.LabelOf | api/v1/views/submission.py:212-216 | the label is "3+" if and only if the parity parses to at least 3; otherwise its value, 0 when unparseable |
| Comparison.SubmissionMapUpTo | api/v1/views/submission.py:206 | the map's keys are exactly the submitted test IDs |
| Comparison.LaterPairWins | api/v1/views/submission.py:206 | a repeated test ID keeps the yield of its last pair |
| Comparison.BucketedJoin | api/v1/views/submission.py:218-223 | a submitted triple appends its reference and submitted yields, and its reference-data yield when there is one |
| Comparison.BucketedSkip | api/v1/views/submission.py:218 | a triple whose test ID was not submitted, or of another label, changes no group |
| Comparison.BucketedStep | api/v1/views/submission.py:210-223 | each step grows group `l`'s reference and submitted lists by one exactly when the triple joins it |
| Comparison.BucketedAligned | api/v1/views/submission.py:219-220 | every group's reference and submitted lists exist together and have equal length |
| Comparison.BucketedIcarBounded | api/v1/views/submission.py:221-223 | a group's reference-data list is no longer than its reference list |
| Comparison.Members | api/v1/views/submission.py:210-218 | a group's members are exactly the indices with its label whose test ID was submitted, in ascending order |
| Comparison.BucketedAreMembers | api/v1/views/submission.py:210-220 | group `l` lists, index-aligned, the reference and submitted yields of exactly its members, in input order |
| Comparison.NoParitiesNoGroups | api/v1/views/submission.py:210 | with an empty parity list there are no groups |
| Comparison.BucketByParity | api/v1/views/submission.py:208-223 | the `setdefault(...).append` loop over `zip` builds exactly `Bucketed` |
| Comparison.SectionsInOrder | api/v1/views/submission.py:226-234 | the sections are those of "1", "2" and "3+", in that order, each when its group passes the size test |
| Comparison.SectionsExact | api/v1/views/submission.py:226-234 | a reported group has a section if and only if it has at least 2 reference and 2 reference-data values; no other group has one |
| Comparison.SectionsSized | api/v1/views/submission.py:219-234 | every section has at least 2 reference and 2 reference-data values, and as many submitted as reference values |
| Comparison.SectionsOrdered | api/v1/views/submission.py:226 | sections come in the order "1", "2", "3+" |
| Comparison.SelectSections | api/v1/views/submission.py:226-234 | the selection loop yields exactly the specified sections |
| PyText.StripPadded | api/v1/views/submission.py:328 | `strip` gives back a text padded with whitespace on either side |
| YieldSheet.StripAll | api/v1/views/submission.py:328 | every column name is stripped, in place |
| YieldSheet.PaddedIdColumnFound | api/v1/views/submission.py:328-331 | a column named `TestObjectID` with whitespace around it still counts as the ID column |
| YieldSheet.MissingColumnRejected | api/v1/views/submission.py:330-332 | without either column, exactly after stripping, the result is the prefixed missing-columns error |
| YieldSheet.YieldsOk | api/v1/views/submission.py:335-341 | the comprehension succeeds if and only if the yield of every row kept by `dropna` converts to float |
| YieldSheet.YieldKeys | api/v1/views/submission.py:335-341 | on success the keys are exactly the stripped IDs of the kept rows |
| YieldSheet.FirstFailure | api/v1/views/submission.py:338-341 | a failure carries the message of the first kept row whose yield does not convert |
| YieldSheet.LaterRowWins | api/v1/views/submission.py:338-341 | a repeated ID keeps the yield of its last kept row |
| YieldSheet.ExtractYields | api/v1/views/submission.py:323-346 | every failure is reported with the prefix "Error processing Excel file: "; a read failure is passed on with that prefix |
| YieldSheet.ExtractedKeys | api/v1/views/submission.py:328-343 | with both columns present, the sheet is accepted if and only if every kept row's yield converts, and then the keys are the stripped IDs of the kept rows |

## Left out

- The workbook reader (`XLSX.read`, `sheet_to_json`, `f.arrayBuffer()`, `pd.read_excel`) is an input.
  - The page is given the first sheet's name, its header cells' text and its data rows keyed by header text, or `None` when the workbook cannot be read.
  - The back end is given the sheet read by pandas, or the message of the exception reading it raised.
  - Reader quirks are not modelled: suffixed duplicate headers, untrimmed keys and skipped blank rows.
- `Number()` string coercion and IEEE arithmetic are abstracted.
  - A page cell is `""`, `undefined`, or the class of the number it converts to: integer, non-integer (with its sign) or non-finite.
  - `Number("") == 0` is kept.
  - On the back end a cell carries `str(v)` and the outcome of `float(v)`, and yields are opaque values.
- The wording of the submit errors is not modelled. They are structured values, with the duplicate list cut to five IDs and a flag for more; the texts, the "…" suffix and the joined column list are left out.
- The form fields (organization, country, notes, method, test set), the `FormData` build and the authenticated `fetch` are inputs or left out. Signing in is an input, and the server's answer is an input: accepted, refused with a message, or unreachable.
- UI rendering, the schema toggle, and the country and organization fetches are left out.
- The race between overlapping `parseAndValidateExcel` calls is not modelled; each call is atomic here.
- `save`, file, JSON and Azure Blob I/O are not part of this model.
  - `reload` is given the decoded entries: `None` when the file engine's read fails, and a `Blob` outcome for the blob engine.
  - A constructor `cls(**val)` that raises is not modelled.
- FileEngine.FileStorage.Reload: a decoded entry is assumed to carry `id` and attributes. An entry without `__class__`, or with an unknown one, ends the merge where Python's `KeyError` would.
- An object's class is one of the four registered kinds. Every unregistered `cls` argument, and `None`, is represented by `None`, on which both engines behave identically.
- `to_dict()` is represented by the object's kind name.
- FileEngine.FileStorage.All and BlobEngine.FileStorage.All return a value. In Python, `all()` with no class or an unregistered class returns the live `__objects` dictionary, and `new` writes through it. This aliasing is not modelled.
- `close` only calls `reload`.
- The blob engine's `__init__` reads its environment and creates the Azure client; only the empty class-level cache is modelled.
- In the file engine, `get` and `delete` test the found object's truthiness. Stored objects are always truthy, so this is a test for presence.
- `getattr` finds instance attributes, then the class-level defaults of `Submission` and `Generate`. A rebuilt `User` also gets the empty `organization`, `name` and `email` its constructor sets. Attributes that are methods or properties of the class are not modelled.
- StoreModels.Build: the conversion of a stored `created_at` or `updated_at` to a `datetime` by the `ParentModel` constructor is not modelled; the stored text is kept, and a value that does not convert does not set the current time.
- The relationship properties of `User` and `Generate` are filters over `all(cls)` and are not modelled separately.
- The PDF drawing, the metrics (`safe_calculate_metrics`), the overall plots and the Flask routes around `generate_comparison_pdf` are left out. A section carries the lists the metrics would be computed from.
- Each test ID in the comparison report is modelled by its decimal text `str(tid)`. This matches Python while both ID lists hold integers. Python would also match an integer ID with an equal float key such as `5.0`, whose text differs; that case is not modelled. The reference-data map `ref_map` is an input.
- YieldSheet.ExtractYields: column names are assumed to be strings. In pandas, `df.columns.str.strip()` gives NaN for non-string names in a mixed header. On an all-numeric header it raises, and the error comes back with the prefix.
- YieldSheet.ExtractedKeys: a column name that occurs twice after stripping is read at its first occurrence. In pandas `row[...]` would then be a Series.
- A file name without a dot is its own last piece, so a file named `xlsx` passes the extension test. The model keeps this behaviour of the code.
- `toLowerCase` is modelled exactly only for the characters whose lower case contains an ASCII letter or digit: A–Z, U+0130 and U+212A. Other characters are kept as they are, which can make no difference to `norm` or to the extension test.
- NavTitle.TitleCase: `toLowerCase` maps only the characters listed above, and `toUpperCase` only ASCII letters. On other non-ASCII letters the modelled result keeps the input's case, where the browser would change it.
- NavTitle.TitleCaseLength and NavTitle.TitleCaseIdempotent hold for the modelled upper-casing of ASCII letters only. The browser's `toUpperCase` can lengthen a word ("ß" becomes "SS"), which breaks both.
- The rest of `frontend/src/App.js` (the navigation bar and the role fetch) is not part of this model.
