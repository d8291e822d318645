/**
 * Construction of the region classifier from a firmware layout. The layout itself comes from the
 * firmware-image parser and is an input here: the directories of every ROM, each with its entries.
 * Registration order sets priority: entries (skipping those whose buffer size is the "unbounded"
 * sentinel), then directory headers labelled with their magic, then the fixed firmware entry table.
 */
module RegionTable {
  import opened Wrappers
  import opened Classifier

  /** A directory entry as the image parser reports it: flash address, buffer size and numeric type. */
  datatype Entry = Entry(address: int, bufferSize: int, entryType: int)

  /** A directory header: flash address, byte length and its magic (such as "$PSP"). */
  datatype Directory = Directory(address: int, length: int, magic: string)

  /** Buffer size the parser reports for entries without a meaningful extent. */
  const UnboundedSize: int := 0xffff_ffff

  /** The firmware entry table sits at a fixed flash offset and spans 0x40 bytes. */
  const EntryTableBinding: Binding := Binding(Span(0x20000, 0x20040), FirmwareEntryTable)

  function EntryBinding(e: Entry): Binding {
    Binding(Span(e.address, e.address + e.bufferSize), EntryType(e.entryType))
  }

  function DirectoryBinding(d: Directory): Binding {
    Binding(Span(d.address, d.address + d.length), DirectoryMagic(d.magic))
  }

  /** The entry registrations, in order: one per entry whose size is not the sentinel. */
  function EntryBindings(entries: seq<Entry>): (r: seq<Binding>)
    ensures |r| <= |entries|
    ensures forall b | b in r :: exists e | e in entries :: e.bufferSize != UnboundedSize && b == EntryBinding(e)
    ensures forall e | e in entries && e.bufferSize != UnboundedSize :: EntryBinding(e) in r
  {
    if |entries| == 0 then []
    else
      var rest := EntryBindings(entries[1..]);
      assert forall e | e in entries[1..] :: e in entries;
      if entries[0].bufferSize == UnboundedSize then rest else [EntryBinding(entries[0])] + rest
  }

  function DirectoryBindings(dirs: seq<Directory>): seq<Binding> {
    seq(|dirs|, i requires 0 <= i < |dirs| => DirectoryBinding(dirs[i]))
  }

  /** Every registration in the order the classifier receives it. */
  function Registrations(entries: seq<Entry>, dirs: seq<Directory>): seq<Binding> {
    EntryBindings(entries) + DirectoryBindings(dirs) + [EntryTableBinding]
  }

  /** The classifier `find_read_accesses` builds: a dictionary comprehension over the entries and
      one over the directories, merged into a literal that then adds the entry table. The
      result is the same as assigning every registration, in order, into one dictionary. */
  function BuildClassifier(entries: seq<Entry>, dirs: seq<Directory>): (t: seq<Binding>)
    ensures UniqueKeys(t)
    ensures t == InsertAll([], Registrations(entries, dirs))
  {
    var entryDict := InsertAll([], EntryBindings(entries));
    var directoryDict := InsertAll([], DirectoryBindings(dirs));
    InsertAllFlatten([], EntryBindings(entries));
    InsertAllFlatten(entryDict, DirectoryBindings(dirs));
    InsertAllAppend([], EntryBindings(entries), DirectoryBindings(dirs));
    InsertAllAppend([], EntryBindings(entries) + DirectoryBindings(dirs), [EntryTableBinding]);
    Insert(InsertAll(InsertAll([], entryDict), directoryDict), EntryTableBinding)
  }

  /** Classifying an address: the first registered range containing it decides, and that range
      carries the label of the last registration of an equal range; no containing range means
      "unknown area". */
  lemma ClassifierLookup(entries: seq<Entry>, dirs: seq<Directory>, a: int)
    ensures Lookup(BuildClassifier(entries, dirs), a) == RefLookup(Registrations(entries, dirs), a)
  {
    InsertAllMatchesReference(Registrations(entries, dirs), a);
  }

  /** The reference semantics resolves an otherwise uncovered entry-table address to the table. */
  lemma EntryTableReference(entries: seq<Entry>, dirs: seq<Directory>, a: int)
    requires 0x20000 <= a < 0x20040
    requires forall e | e in entries && e.bufferSize != UnboundedSize :: !Contains(EntryBinding(e).span, a)
    requires forall d | d in dirs :: !Contains(DirectoryBinding(d).span, a)
    ensures RefLookup(Registrations(entries, dirs), a) == Some(FirmwareEntryTable)
  {
    var regs := Registrations(entries, dirs);
    var eb := EntryBindings(entries);
    var n := |regs| - 1;
    forall i | 0 <= i < n
      ensures !Contains(Spans(regs)[i], a)
    {
      if i < |eb| {
        assert regs[i] == eb[i];
        assert eb[i] in eb;
      } else {
        var k := i - |eb|;
        assert regs[i] == DirectoryBinding(dirs[k]);
        assert dirs[k] in dirs;
      }
    }
    assert Contains(Spans(regs)[n], a);
    assert FirstMatch(Spans(regs), a) == Some(n);
  }

  /** An address inside the entry table that no entry or directory covers resolves to the table. */
  lemma EntryTableLookup(entries: seq<Entry>, dirs: seq<Directory>, a: int)
    requires 0x20000 <= a < 0x20040
    requires forall e | e in entries && e.bufferSize != UnboundedSize :: !Contains(EntryBinding(e).span, a)
    requires forall d | d in dirs :: !Contains(DirectoryBinding(d).span, a)
    ensures Lookup(BuildClassifier(entries, dirs), a) == Some(FirmwareEntryTable)
  {
    ClassifierLookup(entries, dirs, a);
    EntryTableReference(entries, dirs, a);
  }

  lemma SingleEntryReference(a: int)
    ensures RefLookup(Registrations([Entry(0x1000, 0x100, 0x01)], []), a)
            == if 0x1000 <= a < 0x1100 then Some(EntryType(0x01))
               else if 0x20000 <= a < 0x20040 then Some(FirmwareEntryTable)
               else None
  {
    var regs := Registrations([Entry(0x1000, 0x100, 0x01)], []);
    assert EntryBindings([Entry(0x1000, 0x100, 0x01)]) == [Binding(Span(0x1000, 0x1100), EntryType(0x01))];
    assert regs == [Binding(Span(0x1000, 0x1100), EntryType(0x01)), EntryTableBinding];
    assert Spans(regs) == [Span(0x1000, 0x1100), Span(0x20000, 0x20040)];
    assert LatestLabel(regs, 0) == EntryType(0x01);
    assert LatestLabel(regs, 1) == FirmwareEntryTable;
  }

  /** A single-entry layout: an address from the entry's start up to (not including) its end
      resolves to its type; its end address and any address outside it and the entry table
      resolve to nothing. */
  lemma SingleEntryExample(a: int)
    ensures Lookup(BuildClassifier([Entry(0x1000, 0x100, 0x01)], []), a)
            == if 0x1000 <= a < 0x1100 then Some(EntryType(0x01))
               else if 0x20000 <= a < 0x20040 then Some(FirmwareEntryTable)
               else None
  {
    ClassifierLookup([Entry(0x1000, 0x100, 0x01)], [], a);
    SingleEntryReference(a);
  }

  lemma EqualRangeReference()
    ensures RefLookup(Registrations([Entry(0x1000, 0x100, 0x01), Entry(0x1000, 0x400, 0x02)],
                                    [Directory(0x1000, 0x100, "$PSP")]), 0x1080)
            == Some(DirectoryMagic("$PSP"))
  {
    var entries := [Entry(0x1000, 0x100, 0x01), Entry(0x1000, 0x400, 0x02)];
    var dirs := [Directory(0x1000, 0x100, "$PSP")];
    var regs := Registrations(entries, dirs);
    assert EntryBindings(entries) == [EntryBinding(entries[0]), EntryBinding(entries[1])];
    assert DirectoryBindings(dirs) == [DirectoryBinding(dirs[0])];
    assert regs == [EntryBinding(entries[0]), EntryBinding(entries[1]), DirectoryBinding(dirs[0]), EntryTableBinding];
    assert Spans(regs) == [Span(0x1000, 0x1100), Span(0x1000, 0x1400), Span(0x1000, 0x1100), Span(0x20000, 0x20040)];
    assert FirstMatch(Spans(regs), 0x1080) == Some(0);
    assert LatestLabel(regs, 0) == DirectoryMagic("$PSP");
  }

  /** A directory whose range equals an entry's range takes over that entry's label and keeps the
      entry's priority over a later, wider entry: an equal key replaces the value, not the position. */
  lemma EqualRangeExample()
    ensures Lookup(BuildClassifier([Entry(0x1000, 0x100, 0x01), Entry(0x1000, 0x400, 0x02)],
                                   [Directory(0x1000, 0x100, "$PSP")]), 0x1080)
            == Some(DirectoryMagic("$PSP"))
  {
    ClassifierLookup([Entry(0x1000, 0x100, 0x01), Entry(0x1000, 0x400, 0x02)], [Directory(0x1000, 0x100, "$PSP")], 0x1080);
    EqualRangeReference();
  }
}
