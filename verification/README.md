# PSPTrace core, modelled in Dafny

PSPTrace reconstructs the flash reads of AMD's Platform Security Processor from a logic-analyzer
capture of the SPI bus. It labels each read with the firmware region it hits and post-processes
the list for display. This project models the core of `psptrace/psptrace.py` as pure Dafny
functions over immutable records:

- `instructions.dfy` (`Instructions`): the Winbond instruction catalogue. Each opcode has a frame
  size and an "expects data" flag.
- `classifier.dfy` (`Classifier`) and `region_table.dfy` (`RegionTable`): the `RangeDict` region
  lookup and its construction from a firmware layout. The layout is a flat sequence of entries and
  a flat sequence of directories.
- `capture.dfy` (`Captures`), `framing.dfy` (`Framing`): a capture as one sequence of
  (timestamp, value) samples; generic framing facts used by the round trips.
- `mosi_decoder.dfy` (`MosiDecoder`): `count_data_bytes` and the single-line (MOSI) branch of
  `find_read_accesses`.
- `value_decoder.dfy` (`ValueDecoder`): the quad-I/O ("value") branch of `find_read_accesses`.
  Each record is finished when the next one opens, and the last one when the loop ends.
- `mosi_roundtrip.dfy`, `value_roundtrip.dfy`: encoders from a list of instructions to a sample
  stream, and proofs that decoding the encoded stream gives back exactly the expected accesses.
- `find_read_accesses.dfy` (`AccessFinder`): the dispatch on the capture shape, with the
  classifier built from the layout.
- `accesses.dfy` (`Accesses`): the access record, a dictionary keyed by start time, and its
  chronological iteration (`sorted(d.items())`).
- `aggregate.dfy` (`Aggregation`): `aggregate_duplicates`. It uses a 200-slot window of recent
  addresses and merges at most 8 accesses into one.
- `collapse.dfy` (`Collapse`): `collapse_entry_types`.
- `normalize.dfy` (`Normalize`): `do_normalize_timestamps`.
- `overview.dfy` (`Overview`): `get_overview_read_accesses`. It gives one summary per region and
  co-processor flag per time block.
- `trace.dfy` (`Trace`): the `limit_rows` truncation and the 0x40-byte co-processor tagging of
  `PSPTrace.__init__`.

Where the code raises, the model returns an error value. This covers an empty capture, a read
opcode as the last sample, a non-byte address sample, and a value stream without any read. Only
normalisation has a precondition (a non-empty dictionary), because `min()` of nothing raises
before any work is done.

Where the description of the program and the code disagree, the model follows the code:

- The last access of the value branch ends at `time[index - 1]`. When that access has a
  non-empty payload, the loop stops at `len(value) - 1`, so the access ends one sample before the
  capture does and its size is one less than its payload. With no payload (its address is the
  final sample) the loop stops at `len(value)`; the access then ends at the final sample with size 0.

## Model

| member | source | states |
|---|---|---|
| Instructions.CatalogueFacts | psptrace/psptrace.py:35-231 | Read Data (0x03) has a 4-byte frame and Fast Read (0x0B) a 5-byte frame, both answered with data. 0x13 and 0xEC are not catalogued. |
| Instructions.FrameSize | psptrace/psptrace.py:35-231 | Every catalogued frame is 1 to 6 bytes long, and a read's frame is at least 4 (opcode plus 3 address bytes). |
| Instructions.ReadFrameCatalogued | psptrace/psptrace.py:393-395 | Both read opcodes are in the catalogue, expect data, and have the frame length the decoder skips. |
| Classifier.Lookup | psptrace/psptrace.py:244-251 | The result is None exactly when no range holds the address. Otherwise it is the label of the first registered range with start <= address < stop. |
| Classifier.Insert | psptrace/psptrace.py:365-375 | Dictionary assignment: a key equal to an existing one keeps its position and gets the new label; any other key is appended; other bindings are untouched; keys stay unique. |
| Classifier.InsertAllMatchesReference | psptrace/psptrace.py:365-375 | Looking up in the table built by successive assignments gives the same answer as a reference: the first registered range that holds the address, labelled by the LAST registration of an equal range. |
| Classifier.InsertTwiceSameKey | psptrace/psptrace.py:365-375 | Assigning twice to equal keys is one assignment of the later label at the first key's position. |
| Classifier.InsertCommute | psptrace/psptrace.py:365-375 | Re-labelling an existing key commutes with assigning a different key. |
| Classifier.InsertAllFlatten | psptrace/psptrace.py:365-375 | Unpacking a dictionary built by assignments (`**{...}`) into another equals assigning its registrations directly. |
| RegionTable.BuildClassifier | psptrace/psptrace.py:365-375 | The classifier has unique keys and is the registrations in order: entries without the 0xffffffff size, then directories, then the entry table. |
| RegionTable.ClassifierLookup | psptrace/psptrace.py:365-375 | Lookup in the built classifier equals the reference lookup over the registration sequence. |
| RegionTable.EntryTableLookup | psptrace/psptrace.py:374 | An address in [0x20000, 0x20040) that no entry or directory holds is labelled as the firmware entry table. |
| RegionTable.SingleEntryExample | psptrace/psptrace.py:365-375 | With one entry at 0x1000 of 0x100 bytes, the addresses 0x1000-0x10ff get its type, the table range gets the entry-table label, and every other address, 0x1100 included, gets None. |
| RegionTable.EqualRangeExample | psptrace/psptrace.py:365-375 | When an entry and a directory register the same range, the directory's label wins (it is assigned later), while a larger range registered in between does not. |
| MosiDecoder.CountDataBytes | psptrace/psptrace.py:254-267 | The count is the least k >= 1 whose sample base+k is a catalogued opcode. When none lies inside the stream it is max(1, len - base). The sample at base is never inspected. |
| MosiDecoder.DataCountUnique | psptrace/psptrace.py:254-267 | That characterisation has exactly one solution, the computed count. |
| MosiDecoder.BigEndianOfBytes | psptrace/psptrace.py:402 | Decoding the big-endian bytes of a number below 256^width gives the number back. |
| MosiDecoder.BytesOfBigEndian | psptrace/psptrace.py:402 | Encoding the big-endian value of a byte sequence gives the bytes back. |
| MosiDecoder.DecodeRead | psptrace/psptrace.py:393-421 | A read fails exactly when it is the last sample or its address samples are not bytes. Otherwise the cursor advances and the instruction index grows by one. |
| MosiDecoder.ReadRecorded | psptrace/psptrace.py:393-421 | A decoded read is stored under its start time. Its fields: big-endian address; the data count as size; end time at cursor + size; latency measured from the previous end. The cursor moves past frame and data. |
| MosiDecoder.SkipInstruction | psptrace/psptrace.py:423-442 | A non-read instruction emits nothing and advances the cursor. A catalogued one copies the current end time into the last end time; an unknown byte leaves it alone and advances by exactly 1. |
| MosiDecoder.ScanErrors | psptrace/psptrace.py:390-442 | A failed scan names a read opcode at or after the cursor that is either the last sample or has a non-byte address sample. |
| MosiDecoder.ScanSucceeds | psptrace/psptrace.py:390-442 | A byte stream whose last sample is not a read opcode scans without error. |
| MosiDecoder.DecodeMosi | psptrace/psptrace.py:386-442 | Fails on an empty capture and only at a read opcode. Every access it returns is keyed by its start and is a read found in the capture at that position. |
| MosiDecoder.MosiTimingSane | psptrace/psptrace.py:397-400 | With non-decreasing timestamps every duration is non-negative, and every latency is non-negative or equal to the start time (the first read after only unknown bytes). |
| MosiDecoder.NoReadsNoAccesses | psptrace/psptrace.py:389-442 | A non-empty capture without read opcodes decodes to no accesses. |
| MosiRoundTrip.MosiRoundTrip | psptrace/psptrace.py:389-442 | Decoding the encoding of any well-formed list of reads, other instructions and unknown bytes gives exactly the expected dictionary of reads. |
| MosiRoundTrip.OtherSkipped | psptrace/psptrace.py:423-433 | A catalogued non-read advances by its frame, plus the data count only when it expects data. It copies the stale end time into the last end time. |
| MosiRoundTrip.InvalidSkipped | psptrace/psptrace.py:435-442 | An unknown byte advances the cursor by one and changes nothing else but the instruction index. |
| MosiRoundTrip.ReadLatency | psptrace/psptrace.py:378-431 | A read's latency: start minus 0 after only unknown bytes; start minus time[0] after a non-read but no read; otherwise start minus the previous read's end. |
| MosiRoundTrip.MosiReadFound | psptrace/psptrace.py:406-416 | With strictly increasing timestamps each read of the list is in the decoded dictionary under its start, with its expected fields, and there is one access per read. |
| MosiRoundTrip.MosiOthersAbsent | psptrace/psptrace.py:423-442 | No access is keyed by the start of a non-read instruction or an unknown byte. |
| MosiRoundTrip.ReadsInOrder | psptrace/psptrace.py:389-421 | With strictly increasing timestamps the reads' starts increase, so no read overwrites another. |
| ValueDecoder.Close | psptrace/psptrace.py:458-471 | A finished record's size is the distance to the next opening (or the final index) minus 2. It ends at the sample before that index, and its latency is measured from the last end time stored when it opened. |
| ValueDecoder.ValueStep | psptrace/psptrace.py:446-489 | An opening advances the index by 2 and the instruction index by 1; anything else advances the index by 1 and changes nothing more. |
| ValueDecoder.OpenFields | psptrace/psptrace.py:450-487 | An opening stores start, the running last end time, the address, its region and the QSPI note. The first opening resets the running end time to 0; later ones finish the previous record and take its end. |
| ValueDecoder.ScanOpens | psptrace/psptrace.py:446-493 | The scan ends with an open record exactly when one was open or some later position opens a read. |
| ValueDecoder.DecodeValues | psptrace/psptrace.py:445-504 | Fails with an empty capture exactly when the capture is empty, and with "no read" exactly when no position opens one. Every returned access is keyed by its start and comes from an opening in the stream. |
| ValueRoundTrip.ValueRoundTrip | psptrace/psptrace.py:446-504 | Decoding the encoding of any well-formed list of quad-I/O reads gives exactly the expected dictionary (sizes, ends, QSPI notes; the last read one sample short when its payload is non-empty, and of size 0 ending at the final sample when it has none). |
| ValueRoundTrip.LatencyTwoBack | psptrace/psptrace.py:463-484 | From the third read on, a read's latency is its start minus the end of the read two before it. |
| ValueRoundTrip.LatencyFromZero | psptrace/psptrace.py:476-484 | The first two reads have latency equal to their start time. |
| AccessFinder.FindReadAccesses | psptrace/psptrace.py:345-506 | Fails exactly as the chosen branch does. Every access is keyed by its start and labelled by the classifier built from the layout, and carries no count. MOSI accesses have no notes; quad-I/O accesses have at most the QSPI note. |
| AccessFinder.FoundRegions | psptrace/psptrace.py:365-404 | Every access's region is the reference lookup of its address over the registrations. |
| Accesses.Chronology | psptrace/psptrace.py:569 | The sorted items have strictly increasing keys, one per entry, each paired with its entry. |
| Accesses.ChronologyOf | psptrace/psptrace.py:569 | Any ascending list of exactly the dictionary's entries is its chronology. |
| Accesses.ByStart | psptrace/psptrace.py:619 | Rebuilding a dictionary from records keys each record by its own start time. |
| Accesses.ByStartAt | psptrace/psptrace.py:619 | With increasing starts every record is found under its start. |
| Aggregation.Remember | psptrace/psptrace.py:527-539 | Appending to the 200-slot window keeps the newest 200 slots and puts the new one last. |
| Aggregation.Forget | psptrace/psptrace.py:548-549 | Deleting a slot shifts the later slots down by one and keeps the earlier ones. |
| Aggregation.StepCases | psptrace/psptrace.py:530-555 | A new address becomes an original with count 1 and enters the window. A repeat raises its original's count while that is below 8; otherwise the repeat frees the slot. Either way the repeat itself is dropped. |
| Aggregation.AggStep | psptrace/psptrace.py:530-555 | An access survives the step exactly when its address is not in the window, and the window stays consistent with the survivors. |
| Aggregation.AggregateDuplicates | psptrace/psptrace.py:518-562 | Survivors are input keys. Each is its input access with a count between 1 and 8 and that count appended once as an "x<n>" note. The earliest access always survives. |
| Aggregation.FirstSurvives | psptrace/psptrace.py:530-539 | The earliest access is an original. |
| Aggregation.RunMatchesOriginals | psptrace/psptrace.py:530-555 | On a run of one address the fold yields the reference originals: one every 9 accesses, counting up to 8. |
| Aggregation.RepeatedAddress | psptrace/psptrace.py:518-562 | For accesses that all share one address, the survivors and their counts are those of the reference. |
| Aggregation.FewRepeats | psptrace/psptrace.py:545-546 | Up to 8 accesses of one address leave only the earliest, counted as their number. |
| Aggregation.TaggedShadows | psptrace/psptrace.py:557-560 | The final pass appends exactly one "x<n>" note with 1 <= n <= 8 and changes nothing else. |
| Collapse.Merge | psptrace/psptrace.py:586-597 | A merged record keeps the first record's identity, start, latency, address and region. It takes the new end, sums sizes and durations, and has no count. |
| Collapse.MergeNotes | psptrace/psptrace.py:599-606 | The merged notes extend the first record's and hold "[c]". They hold "~" exactly when the first did or the count differs from the previous input's. Every other note occurs as often as in the first record. |
| Collapse.MergedNotesHas | psptrace/psptrace.py:599-606 | A merged record's notes hold "[c]", hold "~" exactly when the leader did or a count changed, and no note other than these two is added. |
| Collapse.MergedNotesTwice | psptrace/psptrace.py:599-606 | Absorbing further accesses gives the same notes as one merge, with "~" when a count changed at any step. |
| Collapse.AddOnceCounts | psptrace/psptrace.py:599-606 | Adding a note that is present changes nothing; otherwise it adds exactly one copy. |
| Collapse.CollapseGroups | psptrace/psptrace.py:579-616 | There is one record per group leader, in order. Each record keeps its leader's head fields, ends where the group's last access ends, sums the group's sizes and durations, and its notes are exactly the leader's followed by "[c]" and, when a count changes inside the group, "~" (each unless already there). |
| Collapse.CollapseCount | psptrace/psptrace.py:579-609 | The number of records is the number of accesses that do not join their predecessor. |
| Collapse.CollapseOrdered | psptrace/psptrace.py:569-609 | Records start in increasing order, no later than the last access considered. |
| Collapse.CollapseKeepsSize | psptrace/psptrace.py:594 | The records' sizes sum to the accesses' sizes. |
| Collapse.CollapseKeepsDuration | psptrace/psptrace.py:591 | The records' durations sum to the accesses' durations. |
| Collapse.NotesOnce | psptrace/psptrace.py:599-606 | If no input repeats "[c]" or "~", no record does. |
| Collapse.CollapsedEntries | psptrace/psptrace.py:565-619 | An access's start is a key of the result exactly when the access leads its group (it is first, or has another region than the access before it, or its address lies past that access's address + size). |
| Collapse.CollapsedLeaders | psptrace/psptrace.py:565-619 | The record under a leader's start is the one its group yields, as described for CollapseGroups. |
| Collapse.CollapsedKeys | psptrace/psptrace.py:565-619 | Every key of the result is the start of a leader. |
| Collapse.CollapsedDomain | psptrace/psptrace.py:565-619 | The result's keys are input keys, one per leader. |
| Collapse.CollapsedOrder | psptrace/psptrace.py:569-619 | Records are ordered by start, and the result has one entry per record. |
| Collapse.CollapsedNotesOnce | psptrace/psptrace.py:599-606 | In the collapsed dictionary "[c]" and "~" each appear at most once per record. |
| Normalize.EarliestStart | psptrace/psptrace.py:624 | The minimum of the start-time fields: no start is earlier, and some access has it. |
| Normalize.NormalizeTimestamps | psptrace/psptrace.py:622-631 | Keys are kept, every start becomes non-negative and some start becomes 0. |
| Normalize.NormalizeKeeps | psptrace/psptrace.py:626-629 | Only start and end move: duration, latency, end - start and the distances between accesses are unchanged. |
| Normalize.NormalizedEarliest | psptrace/psptrace.py:622-631 | After normalisation the earliest start is 0. |
| Normalize.NormalizeIdempotent | psptrace/psptrace.py:622-631 | Normalising twice equals normalising once. |
| Overview.OverviewStep | psptrace/psptrace.py:645-669 | A gap above 50 µs forgets every group but the current one. Otherwise the current group is added and the others are kept. At most the current start becomes a new row, and the current group's row covers the access's address range. |
| Overview.Widen | psptrace/psptrace.py:662-669 | A widened row keeps its record. Its lowest is the min of the old lowest and the access's address; its highest is the max of the old highest and the access's address + size. |
| Overview.BlockOfBounds | psptrace/psptrace.py:649-651 | A block starts at the first access or at an access whose latency in µs (integer division by 1000) exceeds 50, and no later access of the block does. |
| Overview.OneRowPerGroupAndBlock | psptrace/psptrace.py:645-662 | Two accesses share a row exactly when they have the same region and co-processor flag and no block starts between them. |
| Overview.LowestIsLeast | psptrace/psptrace.py:664-665 | A row's lowest address is the least address among the accesses it summarises, and one of them has it. |
| Overview.HighestIsGreatest | psptrace/psptrace.py:667-669 | A row's highest address is the greatest address + size among the accesses it summarises, and one of them reaches it. |
| Overview.RunInvariant | psptrace/psptrace.py:645-669 | After any prefix, the known groups are exactly those of the current block's accesses, each mapped to its row's start. The rows are exactly the accesses so far that open their group in their block, with the bounds of the accesses they summarise. |
| Overview.GetOverview | psptrace/psptrace.py:639-670 | Every row is keyed by an input start time. |
| Overview.OverviewRows | psptrace/psptrace.py:639-670 | The rows are exactly the accesses that open their group in their block, each with lowest and highest over its group and block. Rows of earlier blocks survive later resets. |
| Overview.BootFirstBlock | psptrace/psptrace.py:645-669 | Two boot-loader reads 10 µs apart share one row covering both. |
| Overview.BootScenario | psptrace/psptrace.py:639-670 | Three boot-loader reads: the first two share a row, and a third read after a 100 µs gap opens a second row. |
| Trace.SliceEnd | psptrace/psptrace.py:681 | Python's `[:n]` keeps min(n, len) items, or all but the last -n for negative n. |
| Trace.LimitRows | psptrace/psptrace.py:680-681 | Only input entries are kept, unchanged. No limit and a limit of 0 keep everything. |
| Trace.LimitKeepsPrefix | psptrace/psptrace.py:680-681 | A non-zero limit keeps exactly the first items of the chronology. |
| Trace.LimitSize | psptrace/psptrace.py:680-681 | A non-zero limit keeps as many entries as the slice does. |
| Trace.TagCcp | psptrace/psptrace.py:683-686 | Keys and every field but the notes are kept, and the old notes are a prefix of the new ones. |
| Trace.CcpExactly | psptrace/psptrace.py:683-686 | For an access without the note, the "CCP" note is added exactly when its size is 0x40, once, and no other note changes. |
| Trace.PrepareAccesses | psptrace/psptrace.py:680-686 | After the limit and the tagging, only input keys remain, the fields are kept, and an untagged access carries "CCP" exactly when its size is 0x40. |

## Left out

- Reading the CSV export, the pickle cache and the conversion of float seconds to whole
  nanoseconds: the model takes integer timestamps as input.
- Time and value columns: a row whose value fails to parse after its time parsed would shift the
  columns apart. The model assumes they are aligned, since a capture is one sequence of samples.
- The firmware-image parser: its directories and entries are taken as flat sequences of entries
  and of directories (address, size, type or magic), not as its object graph.
- The `unparsable_instructions` and `invalid_instructions` counters: diagnostics that are never
  returned.
- Shared `info` lists: in the program, aggregation's shallow copy and the in-place appends of
  later stages mutate lists shared between dictionaries. Every stage here builds new records.
- The `last_end_time` key that the value branch leaves in every record: it is kept in the pending
  record while the access is open and not copied into the finished access.
- The dictionary view of the output tables (`display_overview`, `display_all`), their labels
  through the parser's entry-type table, and the command-line front end.
- `psptrace/winbond_instructions.py`, an unused copy of the catalogue, and `setup.py`.
- Overview.GetOverview: its own ensures says only that rows are keyed by input start times; the
  full characterisation of the rows is the lemma Overview.OverviewRows.
