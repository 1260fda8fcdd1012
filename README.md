# clinvar-xml-tab, modelled in Dafny

`clinvar-xml-tab` turns a ClinVar XML release into text, record by record.
This project models the program's sequential core and proves what that core
promises.

- **Record reader** (`module XmlReader`). The pull parser's event stream is a cursor
  (`EventReader`). `ReadToEndIntoBuffer` is the segmenter. It keeps a nesting
  counter for the record element and stops at the end tag that closes the
  record. To find that end tag it counts the start and end tags whose name is
  the record element's own name; other tags are not matched. `NoteFlattenTreat` is the pre-order walk over a parsed
  record. It keeps a shared path stack (`PathStack`) and calls the handler for
  element nodes only. `ReadXml` is the driver loop. It reacts only to
  `ClinVarSet` start tags, counts the records it walks, and stops at the limit.
  Each method is proved against a specification function:
  - `SegmentFrom` and `SegmentResultOf` for the segmenter;
  - `Calls` for the walk;
  - `RunFrom`, built from one pass `TurnOf`, for the driver.
- **Node writer** (`module XmlHandler`). `BasicNodeWriter` is a class whose
  `written` field is the text its writer has received. `Handle` appends one line:
  - tabs for the depth;
  - the path joined with `.`;
  - the trimmed text, or `No text`;
  - the attributes as `key=value` pieces joined by spaces, or `No attributes`.
- **Status handler** (`module ClinVarRecords`). `RecordHandler.Handle` sets the
  record's status from a `RecordStatus` element at depth 2. `Replay` folds a
  sequence of visits through that rule.
- **Locus getters and the INFO column** (`module ClinVarSetSerde`).
  `print_chrom`, `print_pos`, `print_ref` and `print_alt` are one nested loop
  (`LastOnBuild`). It keeps the last sequence location on the chosen build's
  assembly and is specified by `Selected`. `PrintInfo` packs the accession and
  the normalised classification into a VCF INFO value, as in section 1.6.1 of
  the VCF v4.2 specification. `ParseInfo` reads such a value back.
- **Command line** (`module Cli`). How the two build flags choose a genome
  build.
- **Shared modules.** `Text` holds the Rust string operations the program uses
  (`trim`, `join`, one-character `replace`, ASCII lowercasing). The program
  never splits a string. `Split` and `SplitOnce` are added as the inverses of
  `join` and of the `key=value` format, so that the round-trip lemmas can read
  an output back. `XmlTree` holds the events, the tree nodes, the
  handler calls and the error type. `Common` holds `Option` and `Max`.

The XML libraries enter as values:
- the tokenizer's output is a sequence of `Event`s, where `Malformed` stands for a tokenizer error;
- UTF-8 decoding and the tree library together are a function parameter `parse` from the record's events to a `Result<Node>`.

The concrete handler is generic in the source. The driver and the walk are modelled with a `Recorder` handler that logs every call. The two concrete handlers are given separately: their effect on one call is proved, and for the status handler also its effect on a whole sequence of calls.

## Model

| member | source | states |
|---|---|---|
| XmlReader.EventReader.constructor | src/xml/reader.rs:71 | A new reader is at the start of the events it is given: what remains to read is all of them. |
| XmlReader.EventReader.ReadEvent | src/xml/reader.rs:22 | Reading gives the next event and advances. Past the end it gives `Eof` and stays put. |
| XmlReader.ReadToEndIntoBuffer | src/xml/reader.rs:10-39 | The loop returns the outcome of the segmenter specification on the events it was handed. On a closed record, the cursor is left just after the closing end tag. |
| XmlReader.SegmentFrom | src/xml/reader.rs:20-37 | A closed segment splits the stream into a non-empty body followed by the rest. |
| XmlReader.SegmentSound | src/xml/reader.rs:15-32 | A returned buffer has three properties. Its events are an exact prefix of the stream. It ends in a same-name end tag. Every proper prefix keeps the counter non-negative, it holds no `Eof` or tokenizer error, and the counter ends at -1 only at the last event. |
| XmlReader.SegmentComplete | src/xml/reader.rs:25-37 | Conversely, every stream that starts with such a segment is cut exactly there, whatever follows. |
| XmlReader.SegmentStep | src/xml/reader.rs:25-37 | A same-name start raises the counter. A same-name end lowers it when it is positive. Any other event leaves it unchanged. In each case the event is kept and the loop goes on. |
| XmlReader.SegmentClose | src/xml/reader.rs:27-30 | A same-name end tag with the counter at 0 closes the segment, and it is included. |
| XmlReader.SegmentTruncated | src/xml/reader.rs:33-35 | When the stream runs out, or reaches `Eof`, before any prefix closes the record, the segmenter reports truncation and no buffer. |
| XmlReader.BufferBalanced | src/xml/reader.rs:15-32 | In a buffer (the start tag, then the segment), same-name starts and ends are equal in number. Every non-empty proper prefix has more starts than ends. |
| XmlReader.PathStack.Push | src/xml/reader.rs:48 | The name goes on top of the stack. |
| XmlReader.PathStack.Pop | src/xml/reader.rs:57 | The top is removed and returned. An empty stack is left empty. |
| XmlReader.Recorder.Handle | src/xml/reader.rs:53 | One `handle` call is appended to the log, and it succeeds. |
| XmlReader.NoteFlattenTreat | src/xml/reader.rs:41-64 | The walk makes exactly the calls of the walk specification `Calls` for the node, the entry path and the depth. It leaves the path stack as it found it and returns `Ok`. |
| XmlReader.CallsArePreorder | src/xml/reader.rs:47-62 | The walk's calls are one per element address, in pre-order. Each carries the node at that address, the entry path extended by the names of the element ancestors and the node itself, and the entry depth plus the number of steps down. |
| XmlReader.ChildCallsArePreorder | src/xml/reader.rs:54-61 | The same for the children from the `i`-th on. A non-element node's children are walked with its own path and with depth plus one. |
| XmlReader.PreorderComplete | src/xml/reader.rs:47-62 | An address is in the pre-order list iff it is a valid address of an element node. Non-element nodes get no call, but their descendants do. |
| XmlReader.PreorderOrdered | src/xml/reader.rs:54-61 | The pre-order list is strictly ordered. A parent comes before its descendants, and siblings come in document order. So no element is visited twice. |
| XmlReader.PreorderDistinct | src/xml/reader.rs:54-61 | No address occurs twice in the pre-order list, so the walk visits no element twice. |
| XmlReader.VisitAtChild | src/xml/reader.rs:54-60 | A child's call, seen from its parent, has the parent's inner path and depth plus one. |
| XmlReader.DepthIsPathLength | src/xml/reader.rs:94 | Take a walk from a non-element document root with an empty path and depth 0, in a tree where only elements have children (text and comment leaves are allowed anywhere below the root). Every call is a `handle` of an element. Its depth equals its path's length, which is at least 1, and the path ends in the node's own name. |
| XmlReader.FirstStepIsElement | src/xml/reader.rs:54-60 | In a tree where only elements have children, the first step towards an element lands on an element. The address and the names along it continue from that child. |
| XmlReader.NamesAlongLength | src/xml/reader.rs:48 | Below an element, in a tree where only elements have children, a path to an element gets one name per level, ending in the addressed node's name. |
| XmlReader.CallsOnlyHandle | src/xml/reader.rs:41-64 | The walk never calls `end_record`. |
| XmlReader.RecordStepOf | src/xml/reader.rs:86-94 | Walking a record consumes at least one event. |
| XmlReader.RecordStepWalked | src/xml/reader.rs:86-94 | A walked record was closed by the segmenter and parsed without error. The walk starts from the parsed root with an empty path and depth 0, and reading resumes after the record. |
| XmlReader.TurnOf | src/xml/reader.rs:77-107 | A pass that goes on consumes at least one event, so the loop ends. |
| XmlReader.ReadRecord | src/xml/reader.rs:84-100 | Three cases. A truncated record panics. A tokenizer error is returned as an error. A parse or decoding error is returned as that error. In these cases nothing is handled. Otherwise the record's calls are made, and the cursor is left after the record. |
| XmlReader.ReadXmlTurn | src/xml/reader.rs:77-107 | One pass of the loop does what the one-pass specification says: the outcome, the new count, the calls made and the events left. |
| XmlReader.ReadXml | src/xml/reader.rs:66-110 | The loop's outcome, record count and handler calls are those of the run specification `RunFrom` on the whole stream. |
| XmlReader.RunNext | src/xml/reader.rs:77-108 | A run that goes on after a pass makes that pass's calls, then the calls of the run on the events left. |
| XmlReader.RunLast | src/xml/reader.rs:77-108 | A pass that ends the run is the run. |
| XmlReader.RunNeverEndsRecord | src/xml/reader.rs:66-110 | `read_xml` never calls `end_record`. |
| XmlReader.RunRespectsLimit | src/xml/reader.rs:95-100 | With a limit, the count never drops and ends at most at the larger of the limit and one more than the starting count. |
| XmlReader.RunSkips | src/xml/reader.rs:102-105 | Events that are neither a `ClinVarSet` start tag, `Eof` nor an error are skipped: the run after them is the run without them. |
| XmlReader.RunRecord | src/xml/reader.rs:84-100 | A complete, parsable record is walked from its document root with an empty path and depth 0, and it adds one to the count. The run then stops if the count reaches the limit, and otherwise goes on after the record. |
| XmlReader.RunPanicsOnTruncatedRecord | src/xml/reader.rs:33-35 | A record truncated by `Eof` or by the end of the stream makes the whole run panic. |
| XmlReader.RunDepthIsPathLength | src/xml/reader.rs:94 | Assume the parser gives non-element document roots below which only elements have children (text and comment leaves are allowed). Over a whole run, every call is a `handle`, and its depth equals its path's length. |
| XmlHandler.Indent | src/xml/handler.rs:39 | The indentation is `max(depth - 1, 0)` tabs. |
| XmlHandler.IndentSaturates | src/xml/handler.rs:39 | Depths 0 and 1 are both unindented, and depth `d >= 1` gives `d - 1` tabs. |
| XmlHandler.TextField | src/xml/handler.rs:41 | A node with text `t` gives `Trim(t)`. A node without text gives `No text`. The field never starts or ends with whitespace. |
| XmlHandler.TextFieldAvoids | src/xml/handler.rs:41 | The text field holds no character that neither the node's text nor the placeholder holds. |
| XmlHandler.OrderLength | src/xml/handler.rs:42-45 | An iteration order has as many keys as the map has entries. |
| XmlHandler.PiecesAreThePairs | src/xml/handler.rs:45-48 | Whatever the iteration order, the pieces are exactly the map's `key=value` pairs, each once. |
| XmlHandler.AttributeField | src/xml/handler.rs:42-50 | An empty map gives `No attributes`. |
| XmlHandler.AttributeFieldEmpty | src/xml/handler.rs:42-50 | The field is `No attributes` iff the node has no attributes. |
| XmlHandler.AttributeFieldParses | src/xml/handler.rs:45-49 | Suppose no key or value holds a space and no key holds `=`. Splitting the field at spaces gives one piece per attribute, in iteration order. Each piece splits at its first `=` into that attribute's key and value. |
| XmlHandler.AttributeFieldAvoids | src/xml/handler.rs:42-50 | The attribute field holds no character that neither the attributes, the separators nor the placeholder hold. |
| XmlHandler.PathFieldParses | src/xml/handler.rs:40 | When no name holds `.`, splitting the path field at `.` gives back the path. |
| XmlHandler.Line | src/xml/handler.rs:37-52 | Every line is non-empty and ends in a newline. |
| XmlHandler.LineIsOneLine | src/xml/handler.rs:37-52 | Suppose the names, the text and the attributes hold no newline. Then a line ends in its newline and holds no other. |
| XmlHandler.LineIndentation | src/xml/handler.rs:38-39 | When no name holds a tab, a line starts with exactly `max(depth - 1, 0)` tabs. |
| XmlHandler.BasicNodeWriter.constructor | src/xml/handler.rs:21-23 | A new writer has received nothing. |
| XmlHandler.BasicNodeWriter.Handle | src/xml/handler.rs:29-55 | Exactly one line is appended to what was written, nothing else changes, and the call succeeds. |
| XmlHandler.BasicNodeWriter.EndRecord | src/xml/handler.rs:56-58 | Changes nothing and succeeds. |
| ClinVarRecords.AfterHandle | src/clinvar/record_handler.rs:17-21 | A `RecordStatus` element at depth 2 sets the status to its text, or to the empty string if it has none. Every other field is kept. Any other node, or any other depth, changes nothing. |
| ClinVarRecords.RecordHandler.constructor | src/clinvar/record_handler.rs:5-7 | The handler holds the record it is given. |
| ClinVarRecords.RecordHandler.Handle | src/clinvar/record_handler.rs:10-23 | The record becomes its state after that one call, and the call succeeds. |
| ClinVarRecords.ReplayExtend | src/clinvar/record_handler.rs:10-23 | Handling the calls one by one is handling them all. |
| ClinVarRecords.Replay | src/clinvar/record_handler.rs:17-21 | Over any sequence of calls, only the status changes. No calls leave the record unchanged. |
| ClinVarRecords.ReplayWithoutStatus | src/clinvar/record_handler.rs:17-21 | Without a status-setting call the record is untouched. |
| ClinVarRecords.ReplayLastStatusWins | src/clinvar/record_handler.rs:19 | The status ends as the text of the last status-setting call. |
| ClinVarRecords.LastStatus | src/clinvar/record_handler.rs:17-19 | When some call sets the status, there is a last one. |
| ClinVarRecords.ReplayTwice | src/clinvar/record_handler.rs:17-21 | Handling the same calls again leaves the record as it is. |
| ClinVarRecords.StatusCallsInWalk | src/clinvar/record_handler.rs:17-18 | In a walk of a parsed record, a call sets the status iff its path is two names long and ends in `RecordStatus`. That is a `RecordStatus` element directly below the record element. The tree may hold text and comment leaves. |
| ClinVarRecords.StatusDocumentCalls | src/xml/reader.rs:41-64 | For the document of one record whose `RecordStatus` element holds a text node, the walk makes exactly two calls: the record element with path `[ClinVarSet]` at depth 1, then `RecordStatus` with path `[ClinVarSet, RecordStatus]` at depth 2. The text node gets no call. |
| ClinVarRecords.StatusDocumentSetsStatus | src/clinvar/record_handler.rs:17-21 | That document has the shape `StatusCallsInWalk` asks for. Only its second call sets the status, and replaying the walk's calls into any record sets the status to the text of the `RecordStatus` element. |
| Cli.GenomeOf | src/cli.rs:49-61 | The build is GRCh37 iff only `--hg19` is given. |
| Cli.GenomeCases | src/cli.rs:49-61 | The four flag settings: `--hg19` alone gives Hg19. `--hg38` alone, no flag, or both flags give Hg38. |
| Cli.Input | src/cli.rs:41-43 | The stored input path, if any. |
| Cli.Output | src/cli.rs:45-47 | The stored output path, if any. |
| Cli.AccessorsGiveBack | src/cli.rs:41-47 | `input()` and `output()` give back the stored paths. |
| Cli.GenomeIgnoresPaths | src/cli.rs:49-61 | The paths do not affect the build. |
| ClinVarSetSerde.AssembliesDiffer | src/clinvar_set_serde.rs:112-123 | The two builds select different assemblies (`GRCh37` for Hg19, `GRCh38` for Hg38). |
| ClinVarSetSerde.LastOnBuild | src/clinvar_set_serde.rs:107-128 | The nested loop over the measures and their locations returns the chosen column of the last present location on the build's assembly, or `None`. |
| ClinVarSetSerde.PrintChrom | src/clinvar_set_serde.rs:107-128 | The chromosome of the selected location. |
| ClinVarSetSerde.PrintPos | src/clinvar_set_serde.rs:130-151 | The VCF position of the selected location. |
| ClinVarSetSerde.PrintRef | src/clinvar_set_serde.rs:153-174 | The VCF reference allele of the selected location. |
| ClinVarSetSerde.PrintAlt | src/clinvar_set_serde.rs:176-197 | The VCF alternate allele of the selected location. |
| ClinVarSetSerde.SelectedAppend | src/clinvar_set_serde.rs:110-122 | One more location replaces the choice if it is present and on the assembly, and otherwise keeps it. |
| ClinVarSetSerde.SelectedIsLastMatch | src/clinvar_set_serde.rs:107-128 | Nothing is selected iff no location is present on the assembly. Otherwise the selected one is at an index where every later location is absent or on another assembly. |
| ClinVarSetSerde.SelectedSkipsOthers | src/clinvar_set_serde.rs:111-122 | An absent location, or one on another assembly, can be removed from anywhere without changing the choice. |
| ClinVarSetSerde.SelectedOnItsBuild | src/clinvar_set_serde.rs:112-123 | A selected location is on the build's assembly, never on the other build's. |
| ClinVarSetSerde.LocationsAppend | src/clinvar_set_serde.rs:109-110 | The locations are scanned measure by measure, each measure's in order. |
| ClinVarSetSerde.GettersShareLocation | src/clinvar_set_serde.rs:107-197 | For one build the four getters are all `None` or all `Some`. When `Some`, their values are the fields of one and the same location, which is on the build's assembly. |
| ClinVarSetSerde.PrintRcv | src/clinvar_set_serde.rs:199-204 | The reference assertion's RCV accession. |
| ClinVarSetSerde.PrintDateLastEvaluated | src/clinvar_set_serde.rs:206-211 | The evaluation date of the first germline classification. |
| ClinVarSetSerde.PrintDescription | src/clinvar_set_serde.rs:213-218 | The description of the first germline classification. |
| ClinVarSetSerde.FirstClassificationOnly | src/clinvar_set_serde.rs:206-218 | The description and the evaluation date come from the first germline classification only. Later ones do not matter. |
| ClinVarSetSerde.Normalize | src/clinvar_set_serde.rs:224 | Normalising keeps the length, leaves no space and no upper-case ASCII letter, and maps each character to `_` if it is a space and to its lower-case form otherwise. |
| ClinVarSetSerde.NormalizeIdempotent | src/clinvar_set_serde.rs:224 | Normalising twice is normalising once. |
| ClinVarSetSerde.NormalizeKeeps | src/clinvar_set_serde.rs:224 | Normalising brings in no character other than `_` and lower-case letters. |
| ClinVarSetSerde.PrintInfo | src/clinvar_set_serde.rs:219-228 | The INFO value is `CLNACC=`, the accession, `;`, `CLNSIG=` and the normalised description, in that order. |
| ClinVarSetSerde.PrintInfoParses | src/clinvar_set_serde.rs:219-228 | When neither the accession nor the description holds `;`, reading the INFO value back gives the accession and the normalised description. |
| Text.Trim | src/xml/handler.rs:41 | The result is no longer than the text, and it neither starts nor ends with whitespace. |
| Text.TrimStart | src/xml/handler.rs:41 | Only leading whitespace is cut. What remains is a suffix that does not start with whitespace. |
| Text.TrimEnd | src/xml/handler.rs:41 | Only trailing whitespace is cut. What remains is a prefix that does not end with whitespace. |
| Text.TrimIsPiece | src/xml/handler.rs:41 | The trimmed text is a contiguous piece of the original with only whitespace cut from each side. |
| Text.TrimAvoids | src/xml/handler.rs:41 | Trimming brings in no character. |
| Text.TrimIdempotent | src/xml/handler.rs:41 | Trimming twice is trimming once. |
| Text.TrimAllWhitespace | src/xml/handler.rs:41 | A text that is all whitespace trims to the empty string. |
| Text.Join | src/xml/handler.rs:40-49 | Joining no parts gives the empty string. Otherwise the result starts with the first part. |
| Text.Split | src/xml/handler.rs:40 | Not used by the program: the inverse of `join`, added for the round-trip lemmas. Splitting gives at least one piece, and no piece holds the separator. |
| Text.SplitJoin | src/xml/handler.rs:40 | Joining pieces that do not hold the separator, then splitting, gives back the pieces. |
| Text.JoinSplit | src/clinvar_set_serde.rs:227 | Splitting, then joining with the same separator, gives back the text. |
| Text.SplitOnce | src/xml/handler.rs:47 | Not used by the program: the inverse of the `key=value` format, added for the round-trip lemmas. Splitting at the first separator fails iff the separator is absent. Otherwise it gives a separator-free head and a tail around that separator. |
| Text.SplitOnceAt | src/xml/handler.rs:47 | A `key=value` piece whose key has no `=` splits back into its key and value. |
| Text.JoinAvoids | src/xml/handler.rs:40 | Joining brings in no character that neither the pieces nor the separator hold. |
| Text.LowerAscii | src/clinvar_set_serde.rs:224 | Lower-casing keeps the length and maps each upper-case ASCII letter to the letter 32 code points higher, its lower-case form. It leaves no upper-case ASCII letter and changes nothing else. |
| Text.ReplaceChar | src/clinvar_set_serde.rs:224 | Replacing keeps the length and removes every occurrence of the replaced character. |

## Left out

- quick_xml's tokenizer is not modelled: the stream is given as a sequence of events, and I/O errors of the reader are one kind of tokenizer error (`Malformed`).
- The `Writer` that re-serialises the record's events into bytes is not modelled. The buffer is the sequence of events it is made from, so its bytes are not claimed to match.
- UTF-8 decoding and `roxmltree::Document::parse` are not modelled. Both together are the function parameter `parse`, and each of their errors is returned as propagated.
- `read_xml`'s panic messages and the reader's byte position are not modelled. A panic is the `Panicked` outcome.
- XmlReader.ReadXml: its record count is a ghost out-parameter, since the source keeps it local. The limit is an unbounded `nat` rather than a `u64`, and the depth an unbounded `nat` rather than a `u32`; neither can overflow in the model.
- XmlReader.NoteFlattenTreat: the handler is the call-logging `Recorder`, which never fails, so the early return on a handler error (`?` at src/xml/reader.rs:53, 55 and 60) is not exercised. The two concrete handlers are proved separately, one call at a time.
- XmlReader.RunRespectsLimit: `Some(0)` still walks one record, because the count is compared to the limit only after a record. The bound states this as written.
- The serde derive attributes and deserialisation of `ClinVarSet` (src/clinvar_set_serde.rs:5-104) are not modelled. The getters take the struct tree as a datatype.
- src/clinvar_set_serde_auto.rs, src/clinvar_set_serde_auto_new.rs, src/utils.rs, src/main.rs, src/error.rs and src/clinvar_record.rs are not part of this model. They hold generated declarations, file and decompression plumbing, wiring, and wrappers of foreign errors. The error enum is collapsed to one constructor per failing library.
- clap parsing of the command line and its `multiple = false` group rule (src/cli.rs:1-33) are not modelled. `Cli.GenomeOf` shows what happens when both flags reach `genome()`.
- File paths (`PathBuf`) are text.
- ClinVarSetSerde.Normalize: Unicode `to_lowercase` is modelled for ASCII letters only; every other character is kept unchanged.
- XmlHandler.AttributeField: the hash map's iteration order is not modelled. It is a parameter that lists every key once, and every property is proved for all such orders.
- XmlHandler.BasicNodeWriter.Handle: the writer is the text it has received. `write` is taken to write the whole line, and neither a partial write nor an I/O error is modelled, so the call always succeeds.
- ClinVarRecords.RecordHandler.Handle: the source's `handle` takes `depth: i32` and has no `end_record`, so it does not implement the handler interface as written. The rule is modelled against a visit's node and depth, not as an `EventHandler`. `has_tag_name` is taken as an element with that local name.
- ClinVarSetSerde.PrintDescription and ClinVarSetSerde.PrintDateLastEvaluated require a non-empty classification list where the source would panic on `germline[0]`.
- Text.IsWhitespace follows Rust's `char::is_whitespace`, the Unicode `White_Space` property, listed character by character.
