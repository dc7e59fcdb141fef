# Course-material portal: model and proofs

The repository is the back end of a portal where students share PDF course material. This project
models the three parts of it where much can go wrong, and proves what they are for:

1. **The text extractor.** A hand-written one-pass scanner over a PDF content stream with four nested
   scanners and a show-operator interpreter. The imperative loops are proved equal to a two-pass
   reference (`Lex`, then `Interp`); about that reference come round trips, exact bracket matching,
   compositionality, an output bound and a bound on the work done.
   (`LiteralString`, `LineEndings`, `HexString`, `Dictionary`, `ContentLexer`, `TextExtractor`,
   `ExtractorProperties`, `ShowOperations`, `StreamRoundTrip`, `StreamConverse`, `TextLayer`)
2. **The upload, rejection and flag protocol.** Every call to the database or the object store is one
   step of a state machine with any number of requests under way; each call may fail before or after
   it takes effect. Invariants hold over every run, and the handlers, as methods on shared objects,
   are proved to take the machine's steps.
   (`Tables`, `Protocol`, `ProtocolInvariant`, `ProtocolTheorems`, `ObjectAgreement`, `StrayObjects`, `ModerationHistory`,
   `Provenance`, `SerialRuns`, `FlagRetries`, `Repositories`, `UploadHandler`, `ModerationHandlers`)
3. **The search cache.** A read-through cache with a time to live, keyed by the hash of the query's
   JSON document. Key injectivity is proved with a reader that inverts the Go encoder's string
   escaping on raw bytes, well-formed UTF-8 or not; agreement with the direct query and bounded age
   are proved over every run of searches, table changes, clock ticks, evictions and corrupted entries.
   (`Utf8`, `JsonText`, `QueryKey`, `SearchCache`, `SearchRepository`)

How it fits together: where the program changes things step by step there is a `method` or a class,
whose contract equates its outcome with a specification function or with the machine's steps; the
lemmas then say what those functions mean. `dafny verify dfyconfig.toml` checks everything.

## What the environment is taken to be

- `strconv.ParseFloat` is a parameter `read`, of which nothing is asked: the stream round trip holds for
  any reader, with every token it takes for a number. `StreamRoundTrip.IntegerKerning` says what that
  comes to for integers where the reader puts them on the right side of -100, which rounding to a
  float64 does not disturb; `StreamRoundTrip.AReaderExists` shows one that does.
- SHA-256 is a parameter `sha`; only the lemmas that say so take it to be injective.
- The outcome of each call, each new UUID, the clock and each change of the tables are chosen by the
  environment. A new UUID has never appeared before, neither as a key nor in a request.
- What pdfcpu makes of a file is a parameter: unparseable, or a list of content streams some of which
  cannot be read back.
- The rows that match a search are a parameter `matches`. The codec of cached results is a pair of
  parameters, `marshal` and `unmarshal`; what marshalling yields is taken to unmarshal to the same
  results.

## Where the code departs from the standards, or from its own comments

The model follows the code.

- A raw CR or CR LF inside a literal string is kept; section 7.3.4.2 of ISO 32000-1 asks for LF
  (`LineEndings.RawCRIsKept`, `LineEndings.RawCRLFIsKept`). A string that closes yields what the section
  asks for if and only if no unescaped CR stands in it (`LineEndings.ScanMeetsIsoExactlyWhen`).
- `/` is skipped alone, so a name spelled like a show operator acts as that operator
  (`StreamRoundTrip.NameActsAsOperator`). Extraction still gives exactly the text a stream is meant to
  show if and only if no name or operand is spelled `TJ`, or spelled like one of the operators that take
  a string while a string is waiting (`StreamRoundTrip.ExtractsExactlyWhen`).
- `skipDict` knows nothing of strings, so `(>>)` inside a dictionary closes it early
  (`Dictionary.CloseInStringEnds`), and what the string goes on with can be shown
  (`StreamRoundTrip.StringInDictionaryIsShown`). A body is skipped whole if and only if it is a printed
  tree when the bytes in strings are taken as they stand (`Dictionary.SkipsBodyExactlyWhen`).
- `TJ` writes a newline even with no array before it (`StreamRoundTrip.BareArrayShowIsALine`), and `[`
  inside an array drops what the outer array had collected (`StreamRoundTrip.InnerArrayDropsTheOuter`).
- Not every row has its object in every run: `SerialRuns.ARowCanLoseItsObject` is a run, with every
  call succeeding, that leaves a row without one. `ObjectAgreement.RowsKeepTheirObjects` gives the exact
  condition: every row has its object after every step, but for rows being deleted, if and only if no
  step drops the object of a row uploaded since the lookup, inserts a row whose object has been dropped
  since its Put, or loses the row delete that was to follow the object's with no other delete under way.
  `ObjectAgreement.RowObjectAgreement` is the exact condition for an agreement that looks ahead to the
  rows of uploads under way, in terms of which requests overlap. A run in which no upload stands between
  its Put and its Create while a rejection of the same content stands between its GetFileKey and the
  store's Delete, and in which no row delete is lost, meets both (`ObjectAgreement.CleanRunsAgree`); it
  is a sufficient condition only, since an overlap can pass without harm.
- Nor does every object have its row: a Put that fails after it took effect, an upload that ends without
  a row, or a row delete whose object delete was lost can leave one behind.
  `StrayObjects.ObjectsKeepTheirOwners` gives the exact condition.
- An upload that is refused or fails can leave a course, an object or even its row behind.
  `SerialRuns.RefusalChangesNothingExactlyWhen` says exactly when it leaves nothing;
  `SerialRuns.RefusalKeepsTheCourse` is the case of a form refused for its title or type.
- `GetFileKey` reports every error as not found, so `ResolveFlag` can answer 204 with the material
  still there. `SerialRuns.ResolvedMeansGone` gives the exact condition for one call,
  `FlagRetries.RetryConverges` for any number of them; `FlagRetries.RetryCanMissTheMaterial` is a retry
  that misses.
- A rejection is not seen by search at once (`SearchCache.HitIgnoresChanges`), but it is after two
  minutes and the slowest search (`SearchCache.GoneAfterTtl`).
- Two queries with malformed text can share a cache key (`QueryKey.MalformedTextsCollide`);
  `QueryKey.SameKeyExactlyWhen` says exactly when. Over a database that refuses malformed text this
  has no effect on any answer (`SearchCache.AgreementForEveryQuery`).

## Model

| member | source | states |
|---|---|---|
| TextExtractor.ExtractTextFromContentStream | internal/materials/pdf.go:82-190 | for every byte sequence the one-pass loop returns what lexing the whole stream first and interpreting the tokens afterwards gives; all loops together, those of the inner scanners included, run at most twice per input byte |
| TextExtractor.FlushOperator | internal/materials/pdf.go:90-104 | the closure's effect on the variables it captures is that of the pure interpreter's operator step |
| TextExtractor.SkipComment | internal/materials/pdf.go:123-126 | a comment ends at the least index that holds CR or LF, or at the end of the data |
| TextExtractor.SkipWord | internal/materials/pdf.go:165-169 | a bare token ends at the least index that holds a delimiter, or at the end of the data |
| TextExtractor.ShowOperatorsAre | internal/materials/pdf.go:90-103 | the operators that show something, in literal bytes, and no others |
| TextExtractor.WordBreakExactlyWhen | internal/materials/pdf.go:113-181 | a number breaks words if and only if it is -100 or less, infinities and NaN included |
| Bytes.ByteClasses | internal/materials/pdf.go:322-329 | white space and delimiters, in literal bytes |
| StreamRoundTrip.ExtractsExactlyWhen | internal/materials/pdf.go:82-190 | for every list of show operations, arrays with strings, numbers in any notation the reader knows and other words, operands and other operators, printed with any literal or hexadecimal spelling, spacing, comments, stray brackets, slashes and nested dictionaries: extraction gives exactly the shown strings, a newline after each show and a space for each number of -100 or less, if and only if no word not meant as a show operator is spelled `TJ`, or is spelled like an operator that takes a string while one is waiting; otherwise more comes out |
| StreamRoundTrip.WholeStreamRoundTrip | internal/materials/pdf.go:82-190 | in particular, extraction gives exactly that text where no name or operand is spelled like a show operator |
| StreamRoundTrip.LexPrinted | internal/materials/pdf.go:117-187 | lexing a printed stream gives back its tokens, whatever the spelling and spacing |
| StreamConverse.EveryStreamIsPrinted | internal/materials/pdf.go:117-187 | conversely, every stream that ends with nothing open but, at most, a word is printed from some list of marks with its tokens |
| ShowOperations.InterpShows | internal/materials/pdf.go:90-186 | from any state outside an array, interpreting the tokens of a list of operations appends the text they are meant to show if no word spelled like a show operator does harm, and a longer text otherwise |
| StreamRoundTrip.EveryListHasASpelling | internal/materials/pdf.go:82-190 | every list of operations can be printed, so the equivalence covers all of them |
| StreamRoundTrip.IntegerKerning | internal/materials/pdf.go:178-181 | an integer kerning is a space exactly when it is -100 or less, for every reader that puts integers on the right side of it |
| StreamRoundTrip.AReaderExists | internal/materials/pdf.go:178-181 | there is such a reader, for integers of any size |
| StreamRoundTrip.NameActsAsOperator | internal/materials/pdf.go:165-185 | after a string, a name spelled like the show operator shows it |
| StreamRoundTrip.StringInDictionaryIsShown | internal/materials/pdf.go:139-141 | a string and its operator inside a string inside a dictionary are shown, when a closing pair stands before them |
| StreamRoundTrip.BareArrayShowIsALine | internal/materials/pdf.go:99-102 | `TJ` with no array before it still gives a newline |
| StreamRoundTrip.InnerArrayDropsTheOuter | internal/materials/pdf.go:153-156 | an array opened inside another drops what the outer one has collected |
| ExtractorProperties.PotentialBound | internal/materials/pdf.go:117-187 | from any state at any index, what is held and written grows by no more than the bytes left to read |
| ExtractorProperties.OutputNeverExceedsInput | internal/materials/pdf.go:82-190 | the extracted text is never longer than the stream |
| ExtractorProperties.Compositionality | internal/materials/pdf.go:117-187 | where the first part ends with nothing open in lexer or interpreter, extracting the concatenation gives the concatenation of the extractions |
| ExtractorProperties.BlanksAreInvisible | internal/materials/pdf.go:120-126 | white space and newline-ended comments inserted between lexemes change nothing |
| ExtractorProperties.InterpKeepsOutput | internal/materials/pdf.go:90-104 | text already written is carried along and never looked at again |
| ContentLexer.LexConcat | internal/materials/pdf.go:117-187 | where the first part ends with no open string, hexadecimal string, dictionary, comment or token that the second would continue, the tokens of the whole are those of the parts |
| ContentLexer.BlanksChangeNothing | internal/materials/pdf.go:120-126 | white space and newline-ended comments between lexemes change no token |
| LiteralString.ParseLiteralString | internal/materials/pdf.go:195-266 | the nested loops compute the scan specification and do at most one iteration per byte consumed |
| LiteralString.ReadEscape | internal/materials/pdf.go:204-248 | the escape branch appends the bytes its escape stands for and stops where the escape ends |
| LiteralString.ReadOctal | internal/materials/pdf.go:234-243 | an octal escape takes at most three digits and yields their value |
| LiteralString.NamedEscapesAre | internal/materials/pdf.go:206-221 | the five named escapes and what they stand for, in literal bytes |
| LiteralString.OctalValueIs | internal/materials/pdf.go:234-242 | one, two or three octal digits have their positional value |
| LiteralString.ExactMatching | internal/materials/pdf.go:201-265 | the scanner stops at m, closed, if and only if m is the least index where the escape-aware parenthesis depth is zero; it stays open if and only if there is no such index, and then it reads to the end |
| LiteralString.ScanStopsAtMatch | internal/materials/pdf.go:201-265 | the same from any index and at any nesting depth |
| LiteralString.RoundTrip | internal/materials/pdf.go:195-266 | every admissible spelling (raw, backslash, named escape, one to three octal digits, balanced parentheses, line continuations) parses back to the bytes it stands for, octal codes modulo 256, and the scan stops just past the closing parenthesis, whatever surrounds the string |
| LiteralString.EveryClosedStringIsASpelling | internal/materials/pdf.go:195-266 | conversely, every string that closes is an admissible spelling of what it yields |
| LiteralString.EveryStringHasASpelling | internal/materials/pdf.go:195-266 | every byte string can be spelled |
| LiteralString.PrefixStability | internal/materials/pdf.go:201-265 | a string that closes parses identically whatever bytes are appended |
| LineEndings.MeansTheSameExactlyWhen | internal/materials/pdf.go:259-261 | a spelling stands for the same bytes to the scanner and in section 7.3.4.2 of ISO 32000-1 if and only if it has no raw CR |
| LineEndings.ScanMeetsIsoExactlyWhen | internal/materials/pdf.go:201-265 | every string that closes yields what that section asks for if and only if no unescaped CR stands between its parentheses |
| LineEndings.RawCRIsKept | internal/materials/pdf.go:259-261 | a raw CR between two bytes stays, where the section asks for LF |
| LineEndings.RawCRLFIsKept | internal/materials/pdf.go:259-261 | a raw CR LF stays, where the section asks for a single LF |
| HexString.ParseHexString | internal/materials/pdf.go:271-295 | the two loops compute the scan specification, within two iterations per byte consumed |
| HexString.ConvertPairs | internal/materials/pdf.go:287-294 | every pair of digits yields a byte: the branch for a conversion error drops none |
| HexString.CollectDigits | internal/materials/pdf.go:274-280 | exactly the digits before the closing bracket are collected, in order |
| HexString.DecodeIsExact | internal/materials/pdf.go:284-294 | the nibbles of the result are the values of the digits, an odd tail being padded by 0 |
| HexString.RoundTrip | internal/materials/pdf.go:271-295 | any body without a closing bracket whose digits, in either case and between any other bytes, are the nibbles of a byte string parses to that string |
| HexString.RoundTripInEitherCase | internal/materials/pdf.go:271-295 | for every byte string, its digits taken from the literal lower-case or upper-case alphabet, as picked for each digit, and put between any other bytes but the closing bracket, parse to that string |
| HexString.HexDigitExactlyWhen | internal/materials/pdf.go:318-320 | the digits are those of the two literal alphabets and no others |
| HexString.EveryStringHasASpelling | internal/materials/pdf.go:271-295 | every byte string can be spelled |
| HexString.PrefixStability | internal/materials/pdf.go:271-295 | a string that closes parses identically whatever bytes are appended |
| Dictionary.SkipDict | internal/materials/pdf.go:300-316 | the loop computes the skip specification; on any input it advances by at least two and stays within bounds |
| Dictionary.RoundTrip | internal/materials/pdf.go:300-316 | for every dictionary tree in which no lone angle bracket is followed by its like, and any bytes before and after, exactly the printed tree is skipped |
| Dictionary.AngleFreeIsWellFormed | internal/materials/pdf.go:300-316 | trees with angle-free leaves are among them |
| Dictionary.EveryClosedDictionaryIsPrinted | internal/materials/pdf.go:300-316 | conversely, every dictionary that closes is such a printed tree |
| Dictionary.ExactMatching | internal/materials/pdf.go:304-314 | the loop stops at m, closed, if and only if m is the least index where the nesting depth, counted over runs of equal brackets without the loop, is zero; it stays open if and only if there is no such index |
| Dictionary.SkipsBodyExactlyWhen | internal/materials/pdf.go:300-316 | bytes before a closing pair are skipped with it and nothing more if and only if they are a printed tree when those in strings are taken as they stand |
| Dictionary.CloseInStringEnds | internal/materials/pdf.go:304-314 | a closing pair inside a string ends the dictionary there, whatever stands before and after |
| Dictionary.PrefixStability | internal/materials/pdf.go:300-316 | a dictionary that closes is skipped identically whatever bytes are appended |
| TextLayer.ExtractText | internal/materials/pdf.go:41-73 | the page loop and the blank check compute the extraction specification, unparseable files and unreadable pages included |
| TextLayer.TextIsThatOfThePages | internal/materials/pdf.go:58-72 | the text of a file with a text layer is that of its readable pages, each at its offset with a newline after it, and nothing else |
| TextLayer.SpaceExactlyWhen | internal/materials/pdf.go:69 | white space is exactly the UTF-8 encoding of the code points with that property, given literally |
| TextLayer.IsBlank | internal/materials/pdf.go:69 | the scan finds that trimming Unicode white space leaves nothing, if and only if that is so |
| TextLayer.LayerIffSomethingIsShown | internal/materials/pdf.go:48-72 | a file has a text layer if and only if it can be unpacked and some readable page shows something other than white space; and if and only if the text is not empty |
| TextLayer.TextNeverExceedsPages | internal/materials/pdf.go:58-65 | the text is no longer than the readable pages and one newline each |
| UploadHandler.UploadEndpoint.ServeHTTP | internal/materials/upload_handler.go:45-156 | the handler's answer, tables and objects are those of the machine's upload steps, for every way its calls turn out |
| UploadHandler.UploadEndpoint.ResolveCourse | internal/materials/upload_handler.go:162-194 | an id is taken as it stands, a malformed form is refused, a name is found or created |
| UploadHandler.UploadEndpoint.BuildInput | internal/materials/upload_handler.go:126-145 | the row to insert is the one the machine's Create step inserts for this request |
| Protocol.InsertedRowTells | internal/materials/upload_handler.go:126-145 | an inserted row carries the request's uploader, course, type, title and size, the hash, the key made from it, whether the file has a text layer, and its text, null where empty; it is pending |
| Protocol.PdfExactlyWhen | internal/materials/pdf.go:17-19 | a file passes for a PDF if and only if it starts with five literal bytes |
| Tables.LiteralsOfTheSchema | migrations/000001_init_schema.up.sql:31 | the three material types, and the shape of an object key |
| UploadHandler.UploadEndpoint.Save | internal/materials/upload_handler.go:126-156 | Put comes before Create, and a failed Put keeps the row from being inserted |
| Repositories.Database.ExistsByContentHash | internal/materials/repository.go:47-51 | whether some row has the hash |
| Repositories.Database.Create | internal/materials/repository.go:31-43 | inserts one pending row with each field as given, empty text stored as null, where the schema's constraints allow it; changes nothing else and nothing otherwise |
| Repositories.Database.Approve | internal/materials/repository.go:144-147 | after a success the row, if there is one, is approved; nothing else changes |
| Repositories.Database.Delete | internal/materials/repository.go:159-162 | removes the row and every flag on it, and nothing else |
| Repositories.Database.FindOrCreate | internal/courses/repository.go:20-33 | one course for each name, branch, year and semester |
| Repositories.Database.InsertFlagRow | internal/moderation/flags_repository.go:18-25 | appends an open flag as reported where the material exists |
| Repositories.Database.Resolve | internal/moderation/flags_repository.go:65-68 | closes the flag with that id and no other |
| Repositories.Database.ListOpen | internal/moderation/flags_repository.go:41-63 | the loop lists the open flags on live materials, every one of them, in order of creation, each with its id, material and reason and with the title and the uploader of the material |
| ModerationHandlers.ModerationEndpoints.DeleteMaterial | internal/moderation/handlers.go:76-85 | takes the machine's lookup, store-delete and row-delete steps, for either caller |
| ModerationHandlers.ModerationEndpoints.Reject | internal/moderation/handlers.go:55-70 | answer, tables and objects are those of the machine's rejection |
| ModerationHandlers.ModerationEndpoints.ResolveFlag | internal/moderation/handlers.go:127-156 | answer, tables and objects are those of the machine's resolution; 204 exactly when it got to the end |
| ModerationHandlers.ModerationEndpoints.Approve | internal/moderation/handlers.go:40-51 | takes the machine's approval step |
| ModerationHandlers.ModerationEndpoints.CreateFlag | internal/moderation/handlers.go:92-113 | takes the machine's flag step; 201 if and only if the call succeeds on a material that is there, 401 without a session |
| Tables.Cascade | migrations/000001_init_schema.up.sql:60 | deleting a material leaves exactly the flags on other materials |
| Tables.KeyOfInjective | internal/materials/upload_handler.go:128 | different hashes have different object keys |
| ProtocolInvariant.ReachableInv | internal/materials/upload_handler.go:45-156 | in every interleaved run: unique hashes, keys made from hashes, flags on live materials only, objects under the key of their own hash, and for each request under way what it has established and may still rely on |
| ProtocolInvariant.StepInv | internal/materials/upload_handler.go:85-149 | every step keeps that invariant, whatever the call does |
| ProtocolTheorems.DedupUnderRaces | internal/materials/upload_handler.go:85-149 | although check and insertion are separate steps, in every run no two rows share a content hash or an object, and each key is that of its row's hash |
| ProtocolTheorems.ObjectsHoldTheirContent | internal/materials/upload_handler.go:128-138 | in every run each stored object's content hashes to its own key |
| ProtocolTheorems.TextLayerConsistency | internal/materials/upload_handler.go:126-145 | in every run each row's has_text_layer is true exactly when its extracted_text is there |
| ProtocolTheorems.LookedUpKeyStays | internal/materials/repository.go:150-154 | in every run the key a rejection has looked up stays the key of its row, made from the row's hash, for as long as the row is there |
| ObjectAgreement.RowsAfterStep | internal/moderation/handlers.go:76-85 | while every row has its object or is being deleted, a step changes that if and only if it drops the object of a newer row, inserts a row whose object is gone, or loses the last row delete |
| ObjectAgreement.RowsKeepTheirObjects | internal/materials/upload_handler.go:128-149 | in every run: every row has its object after every step, but for rows being deleted, if and only if no step is one of those three |
| ObjectAgreement.AgreementAfterStep | internal/moderation/handlers.go:76-85 | with agreement extended to the uploads and rejections under way, a step keeps it if and only if it is not a store delete of an overlap taking effect, an insertion of an overlap, or the loss of the last row delete |
| ObjectAgreement.RowObjectAgreement | internal/materials/upload_handler.go:128-149 | in every run: agreement holds after every step if and only if no step is one of those three |
| ObjectAgreement.CleanRunsAgree | internal/moderation/handlers.go:76-85 | in every run in which no upload between Put and Create overlaps a rejection of its hash between GetFileKey and the store delete, and no row delete is lost, agreement holds throughout |
| ObjectAgreement.OverlapOrphansARow | internal/materials/upload_handler.go:134-145 | from an overlap, the store delete, the row delete and the insertion in that order, all succeeding, leave a row without its object if and only if the upload's course exists |
| ObjectAgreement.LostRowDeleteOrphansTheRow | internal/moderation/handlers.go:82-84 | a row delete that is lost leaves a row without its object |
| StrayObjects.OwnedAfterStep | internal/materials/upload_handler.go:128-149 | while every object belongs to a row or to an upload between Put and Create, a step changes that if and only if it is a Put that fails after taking effect, the end of an upload without a row, or a row delete that finds the object still there, with nobody else to account for the object |
| StrayObjects.ObjectsKeepTheirOwners | internal/moderation/handlers.go:76-85 | in every run: every object has such an owner after every step if and only if no step is one of those three |
| ModerationHistory.RowsAreFrozen | internal/materials/repository.go:144-162 | a row seen at two moments of a run has been there in between and is the same but for an approval, which is never taken back |
| ModerationHistory.ApprovedOnlyByApproval | internal/materials/repository.go:144-147 | a row is approved only if an Approve of its id took effect while the row was there, and the row has stayed since |
| ModerationHistory.ApproveStep | internal/materials/repository.go:144-147 | an approval that takes effect approves the row if it is there, and changes nothing else |
| ModerationHistory.ApprovalLasts | internal/materials/repository.go:144-162 | in every run, from such an approval on the row is approved at every moment at which it is there |
| ModerationHistory.ApprovedExactlyWhen | internal/materials/repository.go:144-147 | in every run a row is approved if and only if some approval of its id found it there and took effect |
| ModerationHistory.CreateFlagStep | internal/moderation/flags_repository.go:18-25 | a report that takes effect on a material that is there appends one open flag as reported, and changes nothing else |
| ModerationHistory.EntriesComeFromFlags | internal/moderation/flags_repository.go:41-63 | every entry of the queue tells an open flag's id, material and reason, and the title and uploader of that material |
| ModerationHistory.OpenFlagsHaveEntries | internal/moderation/flags_repository.go:41-63 | every open flag on a material that is there has such an entry |
| Provenance.EveryRowTellsAnUpload | internal/materials/upload_handler.go:126-145 | in every run every row carries what some upload of that run asked for, with the text and the hash of that upload's file |
| Provenance.OpenExactlyWhen | internal/moderation/flags_repository.go:18-68 | in every run, on a material that is there, a flag is open if and only if it has been reported so and not closed since |
| ModerationHistory.EveryOpenFlagIsListed | internal/moderation/flags_repository.go:41-63 | in every run all flags refer to live materials, so the join drops no open flag |
| ModerationHistory.JoinDropsNothing | internal/moderation/flags_repository.go:42-48 | with live materials the join lists the ids of the open flags, in order |
| ModerationHistory.ResolvedForGood | internal/moderation/handlers.go:127-156 | from a 204 of ResolveFlag to the end of the run the flag is not open, and the material it named is gone with its flags unless its lookup failed |
| SerialRuns.SerialUploadIsARun | internal/materials/upload_handler.go:45-156 | an upload on its own is one of the machine's runs |
| SerialRuns.UploadAnswers | internal/materials/upload_handler.go:75-155 | every answer of an upload, from the request, the tables and the outcome of its calls |
| SerialRuns.CreatedExactlyWhen | internal/materials/upload_handler.go:75-155 | 201 if and only if every check passes and every call succeeds; then there is one more row, pending, that carries the request's fields, the course its form stands for, the hash, the key and the extracted text, with its object; and nothing else has changed but perhaps a course |
| SerialRuns.ConflictExactlyWhen | internal/materials/upload_handler.go:85-93 | 409 if and only if a row has the hash, and then nothing has changed |
| SerialRuns.UploadOutcome | internal/materials/upload_handler.go:75-149 | what courses, rows, flags and objects are after an upload, however far it got and however its calls turned out |
| SerialRuns.RefusalChangesNothingExactlyWhen | internal/materials/upload_handler.go:75-149 | an upload not answered 201 changes no course, row, flag or object if and only if it creates no new course, stores no new content, and its Create is not a lost success |
| SerialRuns.RefusalKeepsTheCourse | internal/materials/upload_handler.go:109-124 | in particular, an upload refused for its title or type has created its course already |
| SerialRuns.RejectOutcome | internal/moderation/handlers.go:55-85 | when the answer is 404 and when 204, and what then becomes of rows, flags and objects |
| SerialRuns.DeleteOutcome | internal/moderation/handlers.go:76-85 | what deleteMaterial leaves behind, call by call |
| SerialRuns.RejectionFreesTheContent | internal/moderation/handlers.go:53-70 | after a rejection the same bytes upload again as a pending row with a new id, with its object and without flags |
| SerialRuns.ResolveOutcome | internal/moderation/handlers.go:127-156 | the answer and the new state of ResolveFlag, call by call |
| SerialRuns.FailedDeleteLeavesFlagsAlone | internal/moderation/handlers.go:140-148 | a failed row delete answers 500 and leaves rows and flags as they were |
| SerialRuns.ResolvedMeansGone | internal/moderation/handlers.go:134-155 | after 204 the flag is not open, and the named material is gone with all its flags if and only if its lookup did not fail on a row that was there |
| FlagRetries.RetryConverges | internal/moderation/handlers.go:127-156 | after any number of attempts, however their calls turned out, the last answered 204: the tables are those of one undisturbed call if and only if the material was not there or some attempt looked it up and its row delete took effect; the objects are if and only if the material was not there, its object was not stored, or some attempt that still found the row got the object dropped |
| FlagRetries.UndisturbedRetryConverges | internal/moderation/handlers.go:127-156 | after any first attempt one undisturbed call gives the tables it would have given alone; the object stays behind if and only if the first attempt dropped the row but not the object that was there |
| FlagRetries.RetryCanMissTheMaterial | internal/moderation/handlers.go:77-80 | a retry whose lookup fails is answered 204 with the material still there |
| SerialRuns.ARowCanLoseItsObject | internal/materials/upload_handler.go:85-149 | a run in which every call succeeds can end with a row whose object is gone |
| JsonText.UnescapeInverts | internal/search/search.go:105-113 | reading an encoded string gives its text back byte for byte, except that malformed bytes all look alike, wherever the string stands in the document |
| JsonText.EncodedAlike | internal/search/search.go:105-113 | two texts have the same encoding if and only if they differ in malformed bytes only |
| JsonText.RuneExactlyWhen | internal/search/search.go:105-113 | a multi-byte sequence counts as well-formed if and only if it is the UTF-8 encoding of a code point |
| JsonText.AsciiIsEscapedSo | internal/search/search.go:105-113 | what the encoder writes for each ASCII byte, in literal bytes |
| JsonText.SeparatorsAndMalformedBytesAreEscapedSo | internal/search/search.go:105-113 | what it writes for the two line separators and for a malformed byte, in literal bytes |
| JsonText.ValidByMarks | internal/search/search.go:105-113 | a text is well-formed UTF-8 if and only if its encoding replaces nothing |
| JsonText.ValidTextIsDetermined | internal/search/search.go:105-113 | a well-formed text is encoded like no other text |
| QueryKey.UuidIsSpelt | internal/search/search.go:105-106 | the text form of a UUID has 36 characters and its digits decode to the UUID |
| QueryKey.UuidLooksSo | internal/search/search.go:105-106 | it has dashes after 8, 12, 16 and 20 digits |
| QueryKey.LiteralsOfTheDocument | internal/search/search.go:105-113 | the field names and the key's prefix, in literal bytes |
| QueryKey.DecodeInverts | internal/search/search.go:105-113 | reading a query's document gives back text, course and type, up to which malformed bytes stood there |
| QueryKey.EncodedAlikeExactlyWhen | internal/search/search.go:105-113 | two queries have the same document if and only if they differ in malformed bytes only |
| QueryKey.SameKeyExactlyWhen | internal/search/search.go:105-114 | two queries have the same cache key if and only if they differ in malformed bytes only |
| QueryKey.ValidQueryOwnsItsKey | internal/search/search.go:105-114 | no filter combination can read the entry of a query over well-formed text but that query itself |
| QueryKey.MalformedTextsCollide | internal/search/search.go:105-114 | two different malformed texts share a key |
| SearchCache.Direct | internal/search/search.go:58-70 | a direct answer is the best-ranked matches: all of them where there are fewer than fifty, else the first fifty |
| SearchCache.CacheAgreement | internal/search/search.go:47-95 | in every run each answer is the direct answer, on the tables as they stood at one instant, to a query with the same key, which for well-formed text is that query; a hit was written through less than two minutes earlier |
| SearchCache.AgreementForEveryQuery | internal/search/search.go:47-95 | over a database that refuses malformed text, in every run each answer is the direct answer to the very query asked, on the tables as they stood at one instant; a hit was written through less than two minutes earlier |
| SearchCache.GoneAfterTtl | internal/search/search.go:88-92 | a material that left the results for good is in no answer given two minutes and the slowest search after the change |
| SearchCache.HitIgnoresChanges | internal/search/search.go:49-56 | the same search less than two minutes later repeats the first answer, whatever the tables have become |
| SearchCache.SerialOutcome | internal/search/search.go:47-95 | a search alone: the live entry that decodes, else the direct answer written through, else an error |
| SearchCache.HitIsExplained | internal/search/search.go:49-56 | an entry that is found and decodes was written through less than two minutes earlier, by a search for a query with the same key |
| SearchCache.StepInv | internal/search/search.go:47-95 | every step, of a search or from outside, keeps every decodable entry backed by a reading for its key |
| SearchRepository.Repository.Query | internal/search/search.go:47-95 | answer and cache are those of the machine's search steps, with or without a cache, for every way the calls turn out |
| SearchRepository.Repository.ScanRows | internal/search/search.go:76-86 | the row loop gives all the rows or an error, never some of them |

## Left out

- pdfcpu, temporary files and the order of the files it writes: the content streams of a file are a parameter. A temporary directory that cannot be made counts as an unparseable file, which is how the upload handler treats it.
- HTTP, multipart parsing, size limits, cookies, routing, JSON responses, metrics and configuration: plumbing. A form is given by what parsing makes of it.
- Sessions, OAuth and the domain check: a request carries claims or it does not.
- The users table and its foreign keys: an insert that they refuse is one of the failures the environment may choose.
- Whether the database accepts the extracted bytes: an insert may fail, so nothing says that every valid PDF gets a row.
- Text search and ranking inside the database, and the filters of the SQL statement: the matching rows are a parameter, cut at fifty.
- The grammar and the rounding of `ParseFloat`: which tokens are numbers, and on which side of -100 they fall, is up to the reader.
- SHA-256 and the Redis and object-store clients: an uninterpreted function, and maps whose calls may fail.
- Corrupted cache entries that happen to decode: the program answers with them, and the model's corruption writes only values that do not.
- The branch of `cacheKeyFor` for a query that cannot be marshalled: no value of the query type reaches it (its comment says it skips the cache; it would give all such queries one key).
- Course listing, listing of pending and approved materials, material detail, presigned URLs and profile changes: each is a single statement that no modelled step reads from or depends on.
- Time inside one search run on its own: `SearchRepository.Repository.Query` reads the clock once; the machine lets the clock move between any two steps.
- Concurrency inside the handler classes: their methods run alone; the interleaved runs are those of `Protocol` and `SearchCache`.
