# Email indexer core, modelled in Dafny

This project models the sequential core of an indexer. The indexer loads an
email corpus (one message per file) into a search index.

It covers two revisions of the indexer's Go code, the record types they share,
and one string helper from the Vue frontend:

- **`Utils`** (current revision, `indexerDatabase/utils/utils_functions.go`) has five parts:
  - the partitioner `RangeOfParts`, which cuts `number` items into `initParts` nearly equal parts;
  - the date normaliser `parseDateWithFormats`, which tries three layouts in order and appends a default year to short dates;
  - `setHeader` and `readEmailFile`:
    - they split a file at its first `"\n\r"` into a header block and a body;
    - they split the header block into lines;
    - they apply each line to one of fifteen named fields;
  - the worker `ReadPathEmails`, which reads a partition of paths. It either abandons the partition at the first failing file, or builds one `Bulk` payload of all the records in path order.
- **`Legacy`** (older revision, `indexerDatabase/main.go`) has three parts:
  - the same file reader, except that the date is kept as raw text;
  - the driver's partition loop, which refuses a path count that does not divide evenly and otherwise hands out inclusive `[start, end]` ranges;
  - the worker, which hands each record to its own upload as soon as it is parsed.
- **`Models`** (`indexerDatabase/models/email.go`) holds the `Email` record with its sixteen fields and the `Bulk` payload.
- **`Headers`** holds what both revisions share: the delimiter, the split of a message, the split of a header line and the table of recognised names.
- **`Revisions`** relates the two revisions of the file reader.
- **`EmailService`** (`frontend/src/services/EmailService.ts`) holds `parseName`, which reduces a sender such as `John Smith <john@x.org>` to a short display name.
- **`Strings`** models the Go `strings` functions the code relies on: `Index`, `Split`, `SplitN(_, _, 2)` and `TrimSpace`.
- **`Constants`** holds the index name.

The code changes state step by step, so the model does too:

- `RangeOfParts` fills two arrays in loops.
- `setHeader` updates a record through a pointer. In the model, `SetHeader` takes and returns the record value.
- `readEmailFile`, `parseDateWithFormats` and both workers are methods with loops. In both revisions, the loop over the header lines is the separate method `SetHeaders`, which `ReadEmailFile` calls.

Each method is proved against a specification function (`Boundary`, `EvenRange`, `HeaderStep`, `ApplyHeaders`, `NormalizeDate`, `ReadFile`). The lemmas state what the source promises about those functions.

Inputs and effects the code gets from its environment are parameters:

- the file system is a map from path to contents. A path that is absent cannot be read.
- Go's `time.Parse` and `time.Time{}` are a `TimeLib` value: an arbitrary partial parse function and a zero time.
- `os.Exit` after an unparseable date is an outcome. It is `None` from the normaliser, `DateExit` from the reader and `Halted` from the worker.

## Model

| member | source | states |
|---|---|---|
| Utils.RangeOfParts | indexerDatabase/utils/utils_functions.go:20-45 | returns `initParts + 1` boundaries starting at 0 and ending at `number`; boundary `i` is `Boundary(number, initParts, i)`; each part holds `number / initParts` items, plus one for exactly the first `number % initParts` parts |
| Utils.SegmentSize | indexerDatabase/utils/utils_functions.go:25-36 | part `i` holds `number / parts` items, plus one exactly when `i < number % parts` |
| Utils.BoundariesShape | indexerDatabase/utils/utils_functions.go:39-43 | the list of all boundaries starts at 0, ends at `number` and steps by the part sizes |
| Utils.BoundaryEnds | indexerDatabase/utils/utils_functions.go:39-43 | the first boundary is 0 and the last is `number` |
| Utils.BoundaryMonotone | indexerDatabase/utils/utils_functions.go:41-43 | boundaries never decrease |
| Utils.BoundaryOwner | indexerDatabase/utils/utils_functions.go:20-45 | every item `k < number` lies in some part `i` |
| Utils.BoundaryOwnerUnique | indexerDatabase/utils/utils_functions.go:20-45 | no item lies in two parts, so the parts tile `[0, number)` |
| Utils.WithYearOnce | indexerDatabase/utils/utils_functions.go:220-223 | the default year is appended exactly when the length equals that of `Monday, March 12`, and never a second time |
| Utils.FirstParse | indexerDatabase/utils/utils_functions.go:220-228 | no result exactly when every layout fails |
| Utils.FirstParseFirst | indexerDatabase/utils/utils_functions.go:224-227 | when some layout succeeds, the result is that of the first layout that succeeds |
| Utils.ParseDateWithFormats | indexerDatabase/utils/utils_functions.go:211-235 | returns the first successful parse among the three layouts in order, or stops (`None`) after all three fail; every attempt is given the same value, with the year appended before the first attempt if at all |
| Utils.SetHeader | indexerDatabase/utils/utils_functions.go:160-208 | the record after one line is `HeaderStep` of the line: the date is normalised, any other recognised field is replaced, anything else is unchanged |
| Utils.HeaderStepStops | indexerDatabase/utils/utils_functions.go:178-180 | one line stops the run exactly when it is a `Date` line that no layout parses |
| Utils.HeaderStepSets | indexerDatabase/utils/utils_functions.go:175-206 | a line that names a string field replaces that field with its trimmed value |
| Utils.HeaderStepKeeps | indexerDatabase/utils/utils_functions.go:163-207 | a line leaves every string field it does not name unchanged |
| Utils.HeaderStepSetsDate | indexerDatabase/utils/utils_functions.go:178-180 | a `Date` line sets the date to the normalised value and changes nothing else |
| Utils.HeaderStepKeepsDate | indexerDatabase/utils/utils_functions.go:163-207 | any other line keeps the date and never stops the run |
| Utils.ApplyHeadersAppend | indexerDatabase/utils/utils_functions.go:77-79 | header lines compose in file order: applying `a + b` is applying `a` and then, unless `a` stopped the run, applying `b` to the record `a` left |
| Utils.StopsAfter | indexerDatabase/utils/utils_functions.go:77-79 | once a prefix of the lines stops the run, the whole block does |
| Utils.ApplyHeadersStops | indexerDatabase/utils/utils_functions.go:77-79 | a header block stops the run exactly when one of its lines is an unparseable date |
| Utils.StoppedAt | indexerDatabase/utils/utils_functions.go:77-79 | a stopped run names the first bad date line: that line is an unparseable date and no earlier line is one |
| Utils.StopsAt | indexerDatabase/utils/utils_functions.go:77-79 | any bad date line stops the run |
| Utils.ApplyHeadersLastWins | indexerDatabase/utils/utils_functions.go:77-79 | the last line that names a string field decides its value |
| Utils.ApplyHeadersUnassigned | indexerDatabase/utils/utils_functions.go:77-79 | a string field no line names keeps its value |
| Utils.ApplyHeadersLastDate | indexerDatabase/utils/utils_functions.go:77-79 | the date is the normalised value of the last `Date` line |
| Utils.ApplyHeadersNoDate | indexerDatabase/utils/utils_functions.go:74-79 | without a `Date` line the date keeps its starting value |
| Utils.ReadEmailFile | indexerDatabase/utils/utils_functions.go:48-86 | the outcome is `ReadFile`: an error for an unreadable file or one without delimiter; otherwise the header lines applied in order to the zero record, with the body as content |
| Utils.SetHeaders | indexerDatabase/utils/utils_functions.go:73-79 | applying the header lines in order to the starting record gives `ApplyHeaders`: every line is applied in file order, and the run stops at the first line that is an unparseable date |
| Utils.ParseContentInvalid | indexerDatabase/utils/utils_functions.go:59-64 | parsing fails exactly when the contents have no `"\n\r"`, and the error is then `InvalidEmail` for that path |
| Utils.ParseContentBody | indexerDatabase/utils/utils_functions.go:71-82 | a parsed record's content is everything from two characters after the first `"\n\r"` |
| Utils.BodyDoesNotAffectHeaders | indexerDatabase/utils/utils_functions.go:59-82 | two files with the same header block parse alike: the body never affects a header field and becomes the content unchanged |
| Utils.ReadPathEmails | indexerDatabase/utils/utils_functions.go:89-127 | the partition is uploaded exactly when every file in `start..end` parses; the outcome is then `Uploaded(BulkOf(records))`, the `Bulk` payload addressed to `IndexName` holding the records of all those files in path order; otherwise it names the first file that failed or stopped the run |
| Legacy.SetHeader | indexerDatabase/main.go:202-249 | the record after one line is `HeaderStep` of the line: a recognised field, the date included, is replaced by the trimmed value; anything else is unchanged |
| Legacy.HeaderStepSets | indexerDatabase/main.go:205-248 | a line that sets a field, the date included, gives it the line's trimmed value |
| Legacy.HeaderStepKeeps | indexerDatabase/main.go:202-249 | a line leaves every field it does not set unchanged |
| Legacy.ApplyHeadersAppend | indexerDatabase/main.go:190-192 | header lines compose in file order: applying `a + b` is applying `b` to the record `a` left |
| Legacy.ApplyHeadersLastWins | indexerDatabase/main.go:190-192 | the last line that names a field decides its value; for the date this is the trimmed raw text |
| Legacy.ApplyHeadersUnassigned | indexerDatabase/main.go:190-192 | a field no line names keeps its value |
| Legacy.ReadEmailFile | indexerDatabase/main.go:161-199 | the record and error are `ReadFile`: the empty record and an error when the file cannot be read or has no delimiter; otherwise the parsed record and no error |
| Legacy.SetHeaders | indexerDatabase/main.go:189-192 | applying the header lines in order to the starting record gives `ApplyHeaders`: every line is applied in file order and none stops the run |
| Legacy.ReadFileError | indexerDatabase/main.go:164-177 | the error occurs exactly when the file is missing or has no `"\n\r"`; the record is then empty and the error for a readable file is `InvalidEmail` |
| Legacy.ReadFileParts | indexerDatabase/main.go:172-198 | a successfully read record is the header lines before the first `"\n\r"` applied to the zero record, with everything after it as content |
| Legacy.ReadPathEmails | indexerDatabase/main.go:141-158 | reads `start..end` in order and stops at the first failure with that file's error; every record sent is the parse of its own file, and the ones before a failure stay sent |
| Legacy.PartitionPaths | indexerDatabase/main.go:103-119 | refuses (exits) exactly when the count is not divisible by the number of partitions; otherwise partition `i` is `[i * division, i * division + division - 1]` |
| Legacy.EvenRangeCovers | indexerDatabase/main.go:112-118 | with an even division every index lies in the range of partition `index / division` |
| Legacy.EvenRangesDisjoint | indexerDatabase/main.go:112-118 | ranges of distinct partitions do not overlap |
| Legacy.EvenRangesSpan | indexerDatabase/main.go:103-118 | the first range starts at 0 and the last ends at `count - 1` |
| Revisions.StepAgree | indexerDatabase/main.go:202-249 | the two revisions' header steps keep matching records matching: same string fields, and the newer date is the normalised older date text |
| Revisions.ApplyAgree | indexerDatabase/main.go:190-192 | applying the same header lines keeps matching records matching |
| Revisions.ReadFileAgree | indexerDatabase/utils/utils_functions.go:48-86 | the two readers fail on the same files with the same error; when the newer parses a file its record matches the older's, and it stops the run only on files the older reads without error |
| Models.Zero | indexerDatabase/models/email.go:4-21 | the zero record has every string field empty and the date at its zero value |
| Models.WithText | indexerDatabase/models/email.go:4-21 | replacing one string field changes that field only |
| Models.Put | indexerDatabase/models/email.go:4-21 | replacing one field of the declared record changes that field only |
| Models.DateUpdateKeepsText | indexerDatabase/models/email.go:4-21 | replacing the date keeps every string field |
| Models.TextExtensional | indexerDatabase/models/email.go:4-21 | a record is determined by its date and its fifteen string fields |
| Models.JsonKeyRoundTrip | indexerDatabase/models/email.go:5-20 | every JSON key leads back to its own field |
| Models.JsonKeysDistinct | indexerDatabase/models/email.go:5-20 | distinct fields have distinct JSON keys |
| Models.JsonKeySnakeCase | indexerDatabase/models/email.go:5-20 | every JSON key is snake_case |
| Headers.HeaderField | indexerDatabase/utils/utils_functions.go:175-207 | no header name selects the body |
| Headers.HeaderNamesMatchFields | indexerDatabase/main.go:217-248 | the fifteen recognised names are exactly the names of the fifteen fields other than the body |
| Headers.HeaderFieldOfName | indexerDatabase/main.go:217-248 | each field other than the body is selected by its own header name |
| Headers.NameOfHeaderField | indexerDatabase/main.go:217-248 | a name that selects a field is that field's header name |
| Headers.HeaderNameChars | indexerDatabase/main.go:217-248 | every recognised name is non-empty and written with letters and hyphens only |
| Headers.HeaderNameShape | indexerDatabase/main.go:217-248 | recognised names contain no colon and no surrounding white space |
| Headers.ParseHeaderLine | indexerDatabase/main.go:205-214 | a line without a colon sets nothing; a line that sets a field sets a field other than the body to a trimmed value |
| Headers.ParseFormattedLine | indexerDatabase/main.go:205-214 | `Name: value` sets the named field to the trimmed value, even when the value contains colons |
| Headers.ParseSpacedLine | indexerDatabase/utils/utils_functions.go:163-175 | a recognised name with any white space before and after it, then a colon, sets that name's field to the trimmed text after the colon, whatever that text holds |
| Headers.ParseHeaderLineShape | indexerDatabase/main.go:205-214 | conversely, a line that sets field `f` to `v` is `f`'s name with white space before and after it, then its first colon, then text that trims to `v` |
| Headers.SplitMessage | indexerDatabase/main.go:171-184 | no split exactly when the contents have no `"\n\r"`; otherwise the lines hold no line feed and rejoin to the text before the first delimiter, and the body is everything from two characters after it |
| Headers.SplitMessageCompose | indexerDatabase/main.go:172-184 | a delimiter-free header block followed by the delimiter and any body splits back into that block's lines and exactly that body |
| Strings.IndexOf | indexerDatabase/main.go:172 | -1 exactly when the pattern never occurs; otherwise the first occurrence |
| Strings.Split | indexerDatabase/main.go:180 | at least one piece; a single piece, the whole text, exactly when the separator is absent; the first piece is a separator-free prefix that ends right before the first separator |
| Strings.SplitPiecesFree | indexerDatabase/main.go:180 | no piece holds the separator |
| Strings.JoinSplit | indexerDatabase/main.go:180 | joining the pieces with the separator gives the text back |
| Strings.SplitJoin | indexerDatabase/main.go:180 | splitting a join of separator-free pieces gives the pieces back |
| Strings.SplitFirst | indexerDatabase/main.go:205-210 | no split exactly when the separator is absent; otherwise a separator-free head and the rest |
| Strings.SplitFirstCompose | indexerDatabase/main.go:205 | only the first separator splits; later ones stay in the second half |
| Strings.TrimSpace | indexerDatabase/main.go:213-214 | the result has no white space at either end; it is the piece of the text that starts after the leading white space and is followed by white space only; trimmed text is left unchanged; the result is empty exactly when the text is all white space |
| Strings.TrimSpaceSplit | indexerDatabase/main.go:213-214 | any text is its trimmed form with white space before and after it |
| Strings.TrimSpaceAround | indexerDatabase/main.go:213-214 | trimming a non-empty trimmed text padded with white space on both sides gives that text back |
| Strings.FramedUnique | indexerDatabase/main.go:213-214 | a text has at most one non-empty piece with no white space at its ends and only white space around it, so the trimmed form is unique |
| Strings.TrimLeftDropsSpace | indexerDatabase/main.go:213-214 | the text the left trim drops is all white space |
| Strings.TrimSpaceLeadingSpace | indexerDatabase/main.go:214 | a leading white-space character does not survive trimming |
| EmailService.ParseName | frontend/src/services/EmailService.ts:85-91 | the result holds no `<` and no `@`, is never empty, has at most one space, and is `Unknown` or a prefix of the input; it is `Unknown` when nothing is left before the first `<` and then the first `@`, and that text itself when it is non-empty and has no space; a non-empty input without `<`, `@` or space is returned unchanged |
| EmailService.BeforeTag | frontend/src/services/EmailService.ts:86 | the result is a prefix without `<` that ends right before the first `<`, and the whole text when it has no `<` |
| EmailService.BeforeAt | frontend/src/services/EmailService.ts:87 | the result is a prefix without `@` that ends right before the first `@`, and the whole text when it has no `@` |
| EmailService.FirstTwoWords | frontend/src/services/EmailService.ts:88 | the result is a prefix of the text with at most one space, and the whole text when it has no space; with a space, the result keeps exactly one space and ends at the end of the text or right before a space |
| EmailService.TwoWordsArePrefix | frontend/src/services/EmailService.ts:88 | the first two space-separated pieces, rejoined by one space, are a prefix of the text |
| EmailService.TwoWordsEnd | frontend/src/services/EmailService.ts:88 | the first two space-separated pieces, rejoined by one space, end at the end of the text or right before its next space |
| EmailService.TwoWordsOneSpace | frontend/src/services/EmailService.ts:88 | the first two space-separated pieces, rejoined by one space, hold a single space |
| EmailService.ParseNameTwoWords | frontend/src/services/EmailService.ts:86-88 | when the text left after the cuts at `<` and `@` has a space, the result is its first two words joined by one space |

## Left out

- Directory walking (`filepath.Walk`) and `os.ReadFile` are not modelled. Files are a map from path to contents. Any read failure is an absent path, so the error text of a failed read is not modelled.
- Goroutines, the `sync.WaitGroup` and the `sem` slot channel are left out. Each worker is modelled as one sequential call, so interleavings between partitions are not captured.
- HTTP and JSON are left out:
  - `createNewIndex`;
  - building and sending the request in both `uploadToDatabase` versions;
  - basic auth with `Admin` and `Password`;
  - `json.Marshal`.
  The model stops at the `Bulk` value (current revision) or at the sequence of records handed to uploads (older revision). JSON field names are modelled as `JsonKey`.
- Printing of error messages, profiling (`pprof`) and timing are left out.
- Go's `time.Parse` layout semantics are left out. Parsing is an arbitrary partial function supplied with `TimeLib`, and the date type is a parameter.
- The record declares `Date` as a string, but the current revision stores a parsed time in it. The model follows the code: `Email<D>` is generic in the date's type. The older revision uses `Email<string>`, as declared.
- `os.Exit` is modelled as an outcome (`None`, `DateExit`, `Halted`, or `None` from `PartitionPaths`). The model does not capture that it also ends every other worker still running.
- The driver's partition count is the parameter `divisionOfPaths` of `Legacy.PartitionPaths`. The constant the driver names is not defined in `indexerDatabase/constants/constants.go`.
- The driver that calls `RangeOfParts` and `ReadPathEmails` in the current revision is not part of this model. The constants that only configure it (`Directory`, `Subdivisions` and `Workers` in `indexerDatabase/constants/constants.go`) are therefore not modelled.
- Utils.RangeOfParts: `number` is a `nat`, so the model does not capture Go's truncating division on a negative count. This assumes the caller passes a length; the caller is not part of this model.
- Utils.ReadPathEmails: requires `start..end` to lie within the path list when it is non-empty. Go's indexing panics on an out-of-range index, and the model does not capture that panic.
- Legacy.ReadPathEmails: requires `start..end` to lie within the path list when it is non-empty, for the same reason. The index panic is not modelled.
- Legacy.PartitionPaths: requires `divisionOfPaths > 0`. Go's integer division by zero panics, and the model does not capture that panic.
- Headers.ParseHeaderLine: its own contract says only that a line without a colon sets nothing and that a set value is trimmed and never the body. The full rule is stated by two lemmas. `Headers.ParseSpacedLine` says which field and value a recognised name before the first colon sets. `Headers.ParseHeaderLineShape` says that every line that sets something has that shape.
- Text is `seq<char>`. Go's `len` and slicing count bytes, and the model counts characters. These agree on ASCII text, which includes every delimiter, header name and layout involved.
- The frontend `parseDate`, the fetch methods and the Vue bootstrapping are left out. `parseDate` depends on locale-specific date formatting.
