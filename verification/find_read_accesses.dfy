/**
 * The access finder: classify the flash layout, then decode the capture with the branch its shape
 * selects (a MOSI column or a column of wide values). Both branches key accesses by start time
 * and label every access with the region its address falls into.
 */
module AccessFinder {
  import opened Wrappers
  import opened Classifier
  import opened RegionTable
  import opened Instructions
  import opened Captures
  import opened Accesses
  import opened MosiDecoder
  import opened ValueDecoder

  /** Every access carries the label the classifier gives its address. */
  predicate Labelled(m: map<int, Access>, table: seq<Binding>) {
    forall k | k in m :: m[k].region == Lookup(table, m[k].address)
  }

  /** The accesses of a MOSI capture have no annotation, and those of a value capture at most the
      quad-I/O one; none went through aggregation. */
  predicate FreshTags(c: Capture, m: map<int, Access>) {
    forall k | k in m ::
      && m[k].dupCount == None
      && (if c.MosiCapture? then m[k].info == [] else m[k].info == [Qspi] || m[k].info == [])
  }

  /** `find_read_accesses` for a capture and the image's layout. An empty capture fails before
      either loop; a value capture without any read fails at the final completion; whatever is
      found is keyed by start time, classified and annotated as its branch annotates. */
  function FindReadAccesses(c: Capture, entries: seq<Entry>, dirs: seq<Directory>)
    : (r: Result<map<int, Access>, DecodeError>)
    ensures r == Err(EmptyCapture) <==> |c.samples| == 0
    ensures c.ValueCapture? ==> (r == Err(NoReadOpened) <==> |c.samples| > 0 && forall i :: !OpensAt(c.samples, i))
    ensures c.MosiCapture? && r.Err? && |c.samples| > 0 ==>
              exists i :: 0 <= i < |c.samples| && IsSpiRead(c.samples[i].value)
    ensures r.Ok? ==> KeyedByStart(r.value) && Labelled(r.value, BuildClassifier(entries, dirs))
    ensures r.Ok? ==> FreshTags(c, r.value)
  {
    var table := BuildClassifier(entries, dirs);
    match c
    case MosiCapture(s) =>
      var r := DecodeMosi(s, table);
      assert r.Ok? ==> Labelled(r.value, table) && FreshTags(c, r.value) by {
        if r.Ok? {
          forall k | k in r.value
            ensures r.value[k].region == Lookup(table, r.value[k].address)
            ensures r.value[k].dupCount == None && r.value[k].info == []
          {
            var i :| 0 <= i < |s| && ReadAt(s, table, i, r.value[k]) && LatencyFromEarlier(s, i, r.value[k].start, r.value[k].latency);
          }
        }
      }
      r
    case ValueCapture(s) =>
      var r := DecodeValues(s, table);
      assert r.Ok? ==> Labelled(r.value, table) && FreshTags(c, r.value) by {
        if r.Ok? {
          forall k | k in r.value
            ensures r.value[k].region == Lookup(table, r.value[k].address)
            ensures r.value[k].dupCount == None && (r.value[k].info == [Qspi] || r.value[k].info == [])
          {
            var i :| 0 <= i < |s| && ValueReadAt(s, table, i, r.value[k]) && LatencyFromEarlier(s, i, r.value[k].start, r.value[k].latency);
          }
        }
      }
      r
  }

  /** The label of every found access is the reference answer for the layout's registrations: the
      first registered range holding the address, with the label of the last equal registration. */
  lemma FoundRegions(c: Capture, entries: seq<Entry>, dirs: seq<Directory>)
    ensures var r := FindReadAccesses(c, entries, dirs);
            r.Ok? ==> forall k | k in r.value :: r.value[k].region == RefLookup(Registrations(entries, dirs), r.value[k].address)
  {
    var r := FindReadAccesses(c, entries, dirs);
    if r.Ok? {
      forall k | k in r.value
        ensures r.value[k].region == RefLookup(Registrations(entries, dirs), r.value[k].address)
      {
        ClassifierLookup(entries, dirs, r.value[k].address);
      }
    }
  }
}
