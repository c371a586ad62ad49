/** The folder container of huffmanCompress.cpp: `compressFolder` writes,
    for each entry of the traversal in order, `'<' path '|'` for a
    directory and `'>' path '|' record` for a file, where the record is what
    `compressFileUtil` gives for the file's bytes; `decompressFolder`
    replays the entries, reading each file record with
    `decompressFileUtil`. The traversal is a given list of entries and the
    files and directories replayed are returned as a list. */
module Container {
  import opened Bytes
  import opened Bits
  import opened Huffman
  import opened Format
  import opened Heap
  import opened Compressor
  import opened Decompressor

  /** One entry of the traversal: a directory, or a file with its bytes.
      Paths are the bytes of `relative_path`. */
  datatype Entry = Dir(path: seq<byte>) | File(path: seq<byte>, data: seq<byte>)

  /** `'<'`, `'>'` and `'|'`. */
  const DirMark: byte := 60
  const FileMark: byte := 62
  const Bar: byte := 124

  /** The bytes written for one entry; `record` is the file's record. */
  function EntryBytes(e: Entry, record: seq<byte>): seq<byte>
  {
    match e
    case Dir(path) => [DirMark] + path + [Bar]
    case File(path, _) => [FileMark] + path + [Bar] + record
  }

  /** The container: the entries' bytes in traversal order. */
  function ArchiveBytes(entries: seq<Entry>, records: seq<seq<byte>>): seq<byte>
    requires |records| == |entries|
  {
    if entries == [] then [] else EntryBytes(entries[0], records[0]) + ArchiveBytes(entries[1..], records[1..])
  }

  lemma {:induction false} ArchiveAppend(entries: seq<Entry>, records: seq<seq<byte>>, e: Entry, r: seq<byte>)
    requires |records| == |entries|
    ensures ArchiveBytes(entries + [e], records + [r]) == ArchiveBytes(entries, records) + EntryBytes(e, r)
    decreases |entries|
  {
    if entries == [] {
      assert entries + [e] == [e] && records + [r] == [r];
      assert [e][1..] == [] && [r][1..] == [];
    } else {
      assert (entries + [e])[1..] == entries[1..] + [e];
      assert (records + [r])[1..] == records[1..] + [r];
      ArchiveAppend(entries[1..], records[1..], e, r);
      ConcatAssoc(EntryBytes(entries[0], records[0]), ArchiveBytes(entries[1..], records[1..]), EntryBytes(e, r));
    }
  }

  /** What `compressFileUtil` produced for `data`, with the tree `root`
      built and the header order `order`. */
  ghost predicate WrittenRecord(record: seq<byte>, root: Node, order: seq<Node>, data: seq<byte>)
  {
    if data == [] then record == [0]
    else
      && Built(root, order, data) && WellFormed(root) && Ascending(order)
      && record == RecordBytes(SymbolsOf(order), CodeTable(root), data, WrittenField(|Encode(data, CodeTable(root))|))
  }

  /** Every file entry's record is what `compressFileUtil` wrote for it. */
  ghost predicate AllWritten(entries: seq<Entry>, records: seq<seq<byte>>, roots: seq<Node>, orders: seq<seq<Node>>)
  {
    && |records| == |roots| == |orders| == |entries|
    && forall i :: 0 <= i < |entries| && entries[i].File? ==> WrittenRecord(records[i], roots[i], orders[i], entries[i].data)
  }

  lemma {:induction false} AllWrittenAppend(entries: seq<Entry>, records: seq<seq<byte>>, roots: seq<Node>, orders: seq<seq<Node>>,
                                            e: Entry, record: seq<byte>, root: Node, order: seq<Node>)
    requires AllWritten(entries, records, roots, orders)
    requires e.File? ==> WrittenRecord(record, root, order, e.data)
    ensures AllWritten(entries + [e], records + [record], roots + [root], orders + [order])
  {
    var es, rs, ros, os := entries + [e], records + [record], roots + [root], orders + [order];
    forall i | 0 <= i < |es| && es[i].File?
      ensures WrittenRecord(rs[i], ros[i], os[i], es[i].data)
    {
      if i < |entries| {
        assert es[i] == entries[i] && rs[i] == records[i] && ros[i] == roots[i] && os[i] == orders[i];
      }
    }
  }

  /** One step of `compressFolder`: the bytes written for `e`, and for a
      file the record `compressFileUtil` gives with its tree and order. */
  method CompressEntry(hc: HuffmanCompress, e: Entry)
    returns (bytes: seq<byte>, ghost record: seq<byte>, ghost root: Node, ghost order: seq<Node>)
    requires hc.Idle()
    modifies hc, hc.pq
    ensures hc.Idle()
    ensures bytes == EntryBytes(e, record)
    ensures e.File? ==> WrittenRecord(record, root, order, e.data)
  {
    record, root, order := [], Leaf(0, 0), [];
    if e.File? {
      var rec;
      rec, order := hc.CompressFileUtil(e.data);
      record := rec;
      if e.data != [] {
        root := hc.root.value;
      }
      bytes := [FileMark] + e.path + [Bar] + rec;
    } else {
      bytes := [DirMark] + e.path + [Bar];
    }
  }

  /** The prefix of `s` one longer than `s[..i]`. */
  lemma PrefixStep<X>(s: seq<X>, i: nat)
    requires i < |s|
    ensures s[..i + 1] == s[..i] + [s[i]]
  {
  }

  /** `compressFolder` over the traversal `entries`: the container bytes,
      with the record of every file as `compressFileUtil` writes it.
      `records`, `roots` and `orders` give, per entry, the record, the tree
      and the header order (unused for a directory). */
  method CompressFolder(hc: HuffmanCompress, entries: seq<Entry>)
    returns (out: seq<byte>, ghost records: seq<seq<byte>>, ghost roots: seq<Node>, ghost orders: seq<seq<Node>>)
    requires hc.Idle()
    modifies hc, hc.pq
    ensures hc.Idle()
    ensures AllWritten(entries, records, roots, orders)
    ensures out == ArchiveBytes(entries, records)
  {
    out, records, roots, orders := [], [], [], [];
    for i := 0 to |entries|
      invariant hc.Idle()
      invariant AllWritten(entries[..i], records, roots, orders)
      invariant out == ArchiveBytes(entries[..i], records)
    {
      var bytes, record, root, order := CompressEntry(hc, entries[i]);
      ArchiveAppend(entries[..i], records, entries[i], record);
      AllWrittenAppend(entries[..i], records, roots, orders, entries[i], record, root, order);
      PrefixStep(entries, i);
      out := out + bytes;
      records, roots, orders := records + [record], roots + [root], orders + [order];
    }
    assert entries[..|entries|] == entries;
  }

  // ---------------------------------------------------------------------
  // Reading the container back

  /** `std::string::find(c, from)`: the first position at or after `from`
      holding `c`, or none (`npos`). */
  function Find(buf: seq<byte>, c: byte, from: nat): (r: Option<nat>)
    ensures r.Some? ==> from <= r.value < |buf| && buf[r.value] == c
    ensures r.Some? ==> forall k :: from <= k < r.value ==> buf[k] != c
    ensures r.None? ==> forall k :: from <= k < |buf| ==> buf[k] != c
    decreases |buf| - from
  {
    if from >= |buf| then None
    else if buf[from] == c then Some(from)
    else Find(buf, c, from + 1)
  }

  /** One pass of the `decompressFolder` loop: the entry replayed (none for
      an unknown type byte) and the next position. */
  datatype Step = Step(item: Option<Entry>, next: nat)

  /** One pass of the `decompressFolder` loop from `pos`, as written: the
      type byte, the path up to the next '|', then for '>' the record read
      by `decompressFileUtil` (`None` where it throws). Without a '|',
      `find` gives `npos`, the path is the rest of the buffer and
      `pos = pathEnd + 1` wraps to 0. */
  function StepAt(buf: seq<byte>, pos: nat): (r: Option<Step>)
    requires pos < |buf|
    ensures r.Some? && Find(buf, Bar, pos + 1).Some? ==> r.value.next > pos
  {
    match Find(buf, Bar, pos + 1)
    case Some(bar) => PassAt(buf, pos, bar, bar + 1)
    case None => PassAt(buf, pos, |buf|, 0)
  }

  /** The rest of one pass once `find` has given the end of the path,
      `pathEnd`, and the position after it, `after`. */
  function PassAt(buf: seq<byte>, pos: nat, pathEnd: nat, after: nat): (r: Option<Step>)
    requires pos < pathEnd <= |buf|
    ensures r.Some? ==> r.value.next >= after
  {
    var path := buf[pos + 1..pathEnd];
    if buf[pos] == DirMark then Some(Step(Some(Dir(path)), after))
    else if buf[pos] == FileMark then
      match ParseRecord(buf, after)
      case None => None
      case Some(rec) => Some(Step(Some(File(path, rec.data)), rec.next))
    else Some(Step(None, after))
  }

  /** A pass that finds its '|' at `bar` goes on from `bar + 1`. */
  lemma {:induction false} StepAtBar(buf: seq<byte>, pos: nat, bar: nat)
    requires pos < |buf| && Find(buf, Bar, pos + 1) == Some(bar)
    ensures StepAt(buf, pos) == PassAt(buf, pos, bar, bar + 1)
  {
  }

  /** The entries replayed, and whether the replay stopped on an error. */
  datatype Replay = Replay(done: seq<Entry>, failed: bool)

  function Items(item: Option<Entry>): seq<Entry>
  {
    if item.Some? then [item.value] else []
  }

  /** `decompressFolder` from `pos`, with the check the source leaves as a
      comment after `find`: a type byte with no '|' after it is an error
      (as in `info`) instead of a jump back to position 0. */
  function ParseArchive(buf: seq<byte>, pos: nat): Replay
    decreases |buf| - pos
  {
    if pos >= |buf| then Replay([], false)
    else if Find(buf, Bar, pos + 1).None? then Replay([], true)
    else match StepAt(buf, pos)
      case None => Replay([], true)
      case Some(s) =>
        var rest := ParseArchive(buf, s.next);
        Replay(Items(s.item) + rest.done, rest.failed)
  }

  /** The `decompressFolder` loop: replay each entry, reading a file's
      record with `decompressFileUtil` and going on after it. */
  method DecompressFolder(buf: seq<byte>) returns (done: seq<Entry>, failed: bool)
    ensures Replay(done, failed) == ParseArchive(buf, 0)
  {
    done, failed := [], false;
    var pos: nat := 0;
    while pos < |buf|
      invariant ParseArchive(buf, 0) == Replay(done + ParseArchive(buf, pos).done, ParseArchive(buf, pos).failed)
      decreases |buf| - pos
    {
      match Find(buf, Bar, pos + 1) {
        case None =>
          failed := true;
          break;
        case Some(bar) =>
          var item, next, ok := ReplayEntry(buf, pos, bar);
          if !ok {
            PassFails(buf, pos, bar);
            failed := true;
            break;
          }
          PassStep(buf, pos, bar, item, next);
          ConcatAssoc(done, Items(item), ParseArchive(buf, next).done);
          done := done + Items(item);
          pos := next;
      }
    }
    if !failed {
      assert done + [] == done;
    }
  }

  /** One pass of the `decompressFolder` loop once its '|' is found at
      `bar`: a directory entry, a file entry read with
      `decompressFileUtil` (which may throw), or nothing for any other
      type byte. */
  method ReplayEntry(buf: seq<byte>, pos: nat, bar: nat) returns (item: Option<Entry>, next: nat, ok: bool)
    requires pos < bar < |buf|
    ensures ok <==> PassAt(buf, pos, bar, bar + 1).Some?
    ensures ok ==> PassAt(buf, pos, bar, bar + 1) == Some(Step(item, next))
  {
    var kind := buf[pos];
    var path := buf[pos + 1..bar];
    item, next, ok := None, bar + 1, true;
    if kind == DirMark {
      item := Some(Dir(path));
    } else if kind == FileMark {
      var rec := DecompressFileUtil(buf, next);
      if rec.None? {
        ok := false;
      } else {
        item := Some(File(path, rec.value.data));
        next := rec.value.next;
      }
    }
  }

  /** A pass that finds its '|' puts what it replays in front of the
      replay after it. */
  lemma {:induction false} PassStep(buf: seq<byte>, pos: nat, bar: nat, item: Option<Entry>, next: nat)
    requires pos < |buf| && Find(buf, Bar, pos + 1) == Some(bar)
    requires PassAt(buf, pos, bar, bar + 1) == Some(Step(item, next))
    ensures ParseArchive(buf, pos) == Replay(Items(item) + ParseArchive(buf, next).done, ParseArchive(buf, next).failed)
  {
    StepAtBar(buf, pos, bar);
  }

  /** A pass that finds its '|' and then fails ends the replay with an
      error. */
  lemma {:induction false} PassFails(buf: seq<byte>, pos: nat, bar: nat)
    requires pos < |buf| && Find(buf, Bar, pos + 1) == Some(bar)
    requires PassAt(buf, pos, bar, bar + 1).None?
    ensures ParseArchive(buf, pos) == Replay([], true)
  {
    StepAtBar(buf, pos, bar);
  }

  // ---------------------------------------------------------------------
  // Round trips

  /** `record`, wherever it lies in a buffer, reads back as `data` and
      ends where it ends. */
  ghost predicate ReadsBack(record: seq<byte>, data: seq<byte>)
  {
    forall buf: seq<byte>, pos: nat, end: nat :: Contains(buf, pos, record) && end == pos + |record| ==> ReadsAs(buf, pos, data, end)
  }

  /** `decompressFileUtil` from `pos` gives `data` and returns `end`. */
  ghost predicate ReadsAs(buf: seq<byte>, pos: nat, data: seq<byte>, end: nat)
  {
    ParseRecord(buf, pos) == Some(Parsed(data, end))
  }

  /** What a file record written by `compressFileUtil` needs to read back:
      fewer than 128 symbols, a code-bit count that is not a multiple of
      8 and fits the 32-bit count. */
  ghost predicate WrittenFits(root: Node, order: seq<Node>, data: seq<byte>)
  {
    data != [] ==>
      && |order| < 128
      && |Encode(data, CodeTable(root))| % 8 != 0
      && |Encode(data, CodeTable(root))| + 8 < 0x1_0000_0000
  }

  /** A record `compressFileUtil` writes reads back when it fits. */
  lemma {:induction false} WrittenReadsBack(record: seq<byte>, root: Node, order: seq<Node>, data: seq<byte>)
    requires WrittenRecord(record, root, order, data) && WrittenFits(root, order, data)
    ensures ReadsBack(record, data)
  {
    forall buf: seq<byte>, pos: nat, end: nat | Contains(buf, pos, record) && end == pos + |record|
      ensures ReadsAs(buf, pos, data, end)
    {
      WrittenRecordReads(buf, pos, record, root, order, data, end);
    }
  }

  lemma {:induction false} WrittenRecordReads(buf: seq<byte>, pos: nat, record: seq<byte>, root: Node, order: seq<Node>, data: seq<byte>, end: nat)
    requires WrittenRecord(record, root, order, data) && WrittenFits(root, order, data)
    requires Contains(buf, pos, record) && end == pos + |record|
    ensures ReadsAs(buf, pos, data, end)
  {
    if data == [] {
      assert record == [0];
      EmptyRecordReads(buf, pos);
    } else {
      BuiltReadable(root, order, data);
      var w := CodeTable(root);
      var field := WrittenField(|Encode(data, w)|);
      WrittenFieldRounds(Encode(data, w));
      RecordReadsExactly(buf, pos, SymbolsOf(order), w, data, field, end);
    }
  }

  /** A file record with the code-bit count itself in the count field. */
  ghost predicate IntendedRecord(record: seq<byte>, root: Node, order: seq<Node>, data: seq<byte>)
  {
    if data == [] then record == [0]
    else
      && Built(root, order, data) && |order| < 128
      && |Encode(data, CodeTable(root))| + 7 < 0x1_0000_0000
      && record == RecordBytes(SymbolsOf(order), CodeTable(root), data, IntendedField(|Encode(data, CodeTable(root))|))
  }

  /** Such a record reads back whatever the number of code bits. */
  lemma {:induction false} IntendedReadsBack(record: seq<byte>, root: Node, order: seq<Node>, data: seq<byte>)
    requires IntendedRecord(record, root, order, data)
    ensures ReadsBack(record, data)
  {
    forall buf: seq<byte>, pos: nat, end: nat | Contains(buf, pos, record) && end == pos + |record|
      ensures ReadsAs(buf, pos, data, end)
    {
      IntendedRecordReads(buf, pos, record, root, order, data, end);
    }
  }

  lemma {:induction false} IntendedRecordReads(buf: seq<byte>, pos: nat, record: seq<byte>, root: Node, order: seq<Node>, data: seq<byte>, end: nat)
    requires IntendedRecord(record, root, order, data)
    requires Contains(buf, pos, record) && end == pos + |record|
    ensures ReadsAs(buf, pos, data, end)
  {
    if data == [] {
      assert record == [0];
      EmptyRecordReads(buf, pos);
    } else {
      BuiltReadable(root, order, data);
      var w := CodeTable(root);
      var field := IntendedField(|Encode(data, w)|);
      assert record == RecordBytes(SymbolsOf(order), w, data, field);
      IntendedFieldRounds(Encode(data, w));
      RecordReadsExactly(buf, pos, SymbolsOf(order), w, data, field, end);
    }
  }

  /** No path holds '|', and every file record reads back. */
  ghost predicate Replayable(entries: seq<Entry>, records: seq<seq<byte>>)
  {
    && |records| == |entries|
    && (forall i :: 0 <= i < |entries| ==> Bar !in entries[i].path)
    && (forall i :: 0 <= i < |entries| && entries[i].File? ==> ReadsBack(records[i], entries[i].data))
  }

  /** A container whose paths hold no '|' and whose records read back
      replays as its entries, from wherever it starts to the end of the
      buffer. */
  lemma {:induction false} ArchiveReplays(buf: seq<byte>, pos: nat, entries: seq<Entry>, records: seq<seq<byte>>)
    requires Replayable(entries, records)
    requires pos <= |buf| && buf[pos..] == ArchiveBytes(entries, records)
    ensures ParseArchive(buf, pos) == Replay(entries, false)
    decreases |entries|
  {
    if entries != [] {
      var e, r := entries[0], records[0];
      var next, bar := pos + |EntryBytes(e, r)|, pos + 1 + |e.path|;
      ReplayableTail(entries, records);
      EntryReplays(buf, pos, e, r, ArchiveBytes(entries[1..], records[1..]), bar, next);
      ArchiveReplays(buf, next, entries[1..], records[1..]);
      PassStep(buf, pos, bar, Some(e), next);
      assert entries == [e] + entries[1..];
    }
  }

  /** The first entry of a replayable container, and the rest of it. */
  lemma {:induction false} ReplayableTail(entries: seq<Entry>, records: seq<seq<byte>>)
    requires Replayable(entries, records) && entries != []
    ensures Bar !in entries[0].path
    ensures entries[0].File? ==> ReadsBack(records[0], entries[0].data)
    ensures Replayable(entries[1..], records[1..])
  {
    assert forall i :: 0 <= i < |entries| - 1 ==> entries[1..][i] == entries[i + 1] && records[1..][i] == records[i + 1];
  }

  /** One entry with no '|' in its path and, for a file, a record that
      reads back, is replayed by one pass, which goes on after it. */
  lemma {:induction false} EntryReplays(buf: seq<byte>, pos: nat, e: Entry, r: seq<byte>, rest: seq<byte>, bar: nat, next: nat)
    requires Bar !in e.path && (e.File? ==> ReadsBack(r, e.data))
    requires pos <= |buf| && buf[pos..] == EntryBytes(e, r) + rest
    requires bar == pos + 1 + |e.path| && next == pos + |EntryBytes(e, r)|
    ensures pos < |buf| && Find(buf, Bar, pos + 1) == Some(bar)
    ensures PassAt(buf, pos, bar, bar + 1) == Some(Step(Some(e), next))
    ensures next <= |buf| && buf[next..] == rest
  {
    EntrySlices(buf, pos, e, r, rest);
    BarAfterPath(buf, pos, e.path, bar);
    if e.File? {
      ContainsSlice(buf, bar + 1, r);
      assert ReadsAs(buf, bar + 1, e.data, next);
    }
    EntryStep(buf, pos, e, bar, next);
  }

  /** The first '|' after a path free of '|' is the one that ends it. */
  lemma {:induction false} BarAfterPath(buf: seq<byte>, pos: nat, path: seq<byte>, bar: nat)
    requires Bar !in path && bar == pos + 1 + |path| && bar < |buf|
    requires buf[pos + 1..bar] == path && buf[bar] == Bar
    ensures Find(buf, Bar, pos + 1) == Some(bar)
  {
    assert forall k :: pos + 1 <= k < bar ==> buf[k] == path[k - pos - 1];
  }

  /** One pass over an entry whose '|' is found and whose record, for a
      file, reads back. */
  lemma {:induction false} EntryStep(buf: seq<byte>, pos: nat, e: Entry, bar: nat, next: nat)
    requires pos < bar < |buf| && bar == pos + 1 + |e.path|
    requires buf[pos] == (if e.File? then FileMark else DirMark) && buf[pos + 1..bar] == e.path
    requires e.Dir? ==> next == bar + 1
    requires e.File? ==> ReadsAs(buf, bar + 1, e.data, next)
    ensures PassAt(buf, pos, bar, bar + 1) == Some(Step(Some(e), next))
  {
    var path := buf[pos + 1..bar];
    if e.Dir? {
      assert e == Dir(path);
    } else {
      assert buf[pos] != DirMark;
      assert e == File(path, e.data);
    }
  }

  /** The parts of one entry as they lie in the buffer. */
  lemma {:induction false} EntrySlices(buf: seq<byte>, pos: nat, e: Entry, r: seq<byte>, rest: seq<byte>)
    requires pos <= |buf| && buf[pos..] == EntryBytes(e, r) + rest
    ensures pos + |EntryBytes(e, r)| <= |buf|
    ensures buf[pos] == (if e.File? then FileMark else DirMark)
    ensures buf[pos + 1..pos + 1 + |e.path|] == e.path
    ensures buf[pos + 1 + |e.path|] == Bar
    ensures e.File? ==> buf[pos + 2 + |e.path|..pos + |EntryBytes(e, r)|] == r
    ensures buf[pos + |EntryBytes(e, r)|..] == rest
  {
    var head := [if e.File? then FileMark else DirMark] + e.path + [Bar];
    assert EntryBytes(e, r) == head + (if e.File? then r else []);
    assert buf[pos..][..|head|] == head;
    assert buf[pos + 1..pos + 1 + |e.path|] == head[1..1 + |e.path|];
  }

  /** `decompressFolder` gives back what `compressFolder` wrote, when no
      path holds '|' and every non-empty file fits: fewer than 128
      distinct bytes and a code-bit count that is not a multiple of 8. */
  lemma {:induction false} FolderRoundTrip(entries: seq<Entry>, records: seq<seq<byte>>, roots: seq<Node>, orders: seq<seq<Node>>)
    requires AllWritten(entries, records, roots, orders)
    requires forall i :: 0 <= i < |entries| ==> Bar !in entries[i].path
    requires forall i :: 0 <= i < |entries| && entries[i].File? ==> WrittenFits(roots[i], orders[i], entries[i].data)
    ensures ParseArchive(ArchiveBytes(entries, records), 0) == Replay(entries, false)
  {
    forall i | 0 <= i < |entries| && entries[i].File?
      ensures ReadsBack(records[i], entries[i].data)
    {
      WrittenReadsBack(records[i], roots[i], orders[i], entries[i].data);
    }
    var buf := ArchiveBytes(entries, records);
    assert buf[0..] == buf;
    ArchiveReplays(buf, 0, entries, records);
  }

  /** With the count of code bits itself in each record, the container
      replays as its entries for every file of fewer than 128 distinct
      bytes, whatever its number of code bits. */
  lemma {:induction false} IntendedFolderRoundTrip(entries: seq<Entry>, records: seq<seq<byte>>, roots: seq<Node>, orders: seq<seq<Node>>)
    requires |records| == |roots| == |orders| == |entries|
    requires forall i :: 0 <= i < |entries| && entries[i].File? ==> IntendedRecord(records[i], roots[i], orders[i], entries[i].data)
    requires forall i :: 0 <= i < |entries| ==> Bar !in entries[i].path
    ensures ParseArchive(ArchiveBytes(entries, records), 0) == Replay(entries, false)
  {
    forall i | 0 <= i < |entries| && entries[i].File?
      ensures ReadsBack(records[i], entries[i].data)
    {
      IntendedReadsBack(records[i], roots[i], orders[i], entries[i].data);
    }
    var buf := ArchiveBytes(entries, records);
    assert buf[0..] == buf;
    ArchiveReplays(buf, 0, entries, records);
  }

  /** Without a '|' after a type byte, one pass of the loop as written
      comes back to position 0: on the container `'<' 'a'` it replays the
      directory "a" and starts again where it started, for ever. */
  lemma MissingBarLoops()
    ensures StepAt([DirMark, 97], 0) == Some(Step(Some(Dir([97])), 0))
  {
    var buf: seq<byte> := [DirMark, 97];
    assert Find(buf, Bar, 1) == None;
    assert buf[1..2] == [97];
  }

  /** Without a '|' after a '>' type byte, the pass as written reads a
      record from position 0 instead: on the container `'>'` that record
      has symbol count 62 and its table runs past the buffer. */
  lemma MissingBarRereads()
    ensures StepAt([FileMark], 0) == None
  {
    var buf: seq<byte> := [FileMark];
    assert Find(buf, Bar, 1) == None;
    assert Read(buf, 1, 2) == None;
    assert ParseTable(buf, 1, 62, map[]) == None;
    assert ParseRecord(buf, 0) == None;
  }

  // ---------------------------------------------------------------------
  // info

  /** A line of the `info` listing: `[Dir] path`, or `[File] path` with
      its compressed size in bytes. */
  datatype Line = DirLine(path: seq<byte>) | FileLine(path: seq<byte>, size: nat)

  /** The lines listed, and whether the listing stopped on an error. */
  datatype Listing = Listing(lines: seq<Line>, failed: bool)

  function Then(first: seq<Line>, rest: Listing): Listing
  {
    Listing(first + rest.lines, rest.failed)
  }

  /** The compressed size reported for a file and the position after it. */
  datatype Extent = Extent(size: nat, next: nat)

  /** What `info` makes of the bytes after a file's '|', at `p`: the four
      count bytes, the padding byte, then `(count + 7) / 8` bytes in
      `uint32_t`, as if the record had no symbol table. */
  function CountExtent(buf: seq<byte>, p: nat): (r: Option<Extent>)
    ensures r.Some? ==> r.value.next > p
  {
    match Read(buf, p, 4)
    case None => None
    case Some(le) =>
      var size := (FromLittleEndian32(le) + 7) % 0x1_0000_0000 / 8;
      if At(buf, p + 4).None? then None else Some(Extent(size, p + 5 + size))
  }

  /** The extent of the record at `q` read past its symbol table: a
      symbol count of 0 is one byte of size 0; otherwise the table is
      skipped as `decompressFileUtil` reads it, then the count gives the
      size and the end. */
  function RecordExtent(buf: seq<byte>, q: nat): (r: Option<Extent>)
    ensures r.Some? ==> r.value.next > q
  {
    match At(buf, q)
    case None => None
    case Some(b) =>
      var n := SignedChar(b);
      if n == 0 then Some(Extent(0, q + 1))
      else if n < 0 then None
      else match ParseTable(buf, q + 1, n, map[])
        case None => None
        case Some(t) => CountAt4(buf, t.next)
  }

  /** From the four count bytes at `p`: the size and the end of the
      payload as `decompressFileUtil` computes it. */
  function CountAt4(buf: seq<byte>, p: nat): (r: Option<Extent>)
    ensures r.Some? ==> r.value.next > p
  {
    match Read(buf, p, 4)
    case None => None
    case Some(le) =>
      var field := FromLittleEndian32(le);
      Some(Extent((field + 7) % 0x1_0000_0000 / 8, p + 4 + PayloadLength(field)))
  }

  /** The lines of one pass of the `info` loop and the next position. */
  datatype Pass = Pass(lines: seq<Line>, next: nat)

  /** One pass of the `info` loop from `pos`: the type byte, the path up to
      the '|' (a missing '|' throws), then `[Dir]`, `[File]` with the
      file's extent, or nothing for an unknown type. As written
      (`skipTable` false) the extent is `CountExtent`; as intended it is
      `RecordExtent`, past the symbol table. */
  function InfoPass(buf: seq<byte>, pos: nat, skipTable: bool): (r: Option<Pass>)
    requires pos < |buf|
    ensures r.Some? ==> r.value.next > pos
  {
    match Find(buf, Bar, pos + 1)
    case None => None
    case Some(bar) => ListAt(buf, pos, bar, skipTable)
  }

  /** The rest of one pass of the `info` loop once its '|' is found at
      `bar`. */
  function ListAt(buf: seq<byte>, pos: nat, bar: nat, skipTable: bool): (r: Option<Pass>)
    requires pos < bar < |buf|
    ensures r.Some? ==> r.value.next > bar
  {
    var path := buf[pos + 1..bar];
    if buf[pos] == DirMark then Some(Pass([DirLine(path)], bar + 1))
    else if buf[pos] == FileMark then
      match (if skipTable then RecordExtent(buf, bar + 1) else CountExtent(buf, bar + 1))
      case None => None
      case Some(x) => Some(Pass([FileLine(path, x.size)], x.next))
    else Some(Pass([], bar + 1))
  }

  /** A pass of the `info` loop that finds its '|' at `bar`. */
  lemma {:induction false} InfoPassBar(buf: seq<byte>, pos: nat, bar: nat, skipTable: bool)
    requires pos < |buf| && Find(buf, Bar, pos + 1) == Some(bar)
    ensures InfoPass(buf, pos, skipTable) == ListAt(buf, pos, bar, skipTable)
  {
  }

  /** `info` from `pos`: the lines of each pass until the end of the
      buffer or an error. */
  function InfoFrom(buf: seq<byte>, pos: nat, skipTable: bool): Listing
    decreases |buf| - pos
  {
    if pos >= |buf| then Listing([], false)
    else match InfoPass(buf, pos, skipTable)
      case None => Listing([], true)
      case Some(p) => Then(p.lines, InfoFrom(buf, p.next, skipTable))
  }

  /** The `info` loop over the container bytes, as written. */
  method Info(buf: seq<byte>) returns (lines: seq<Line>, failed: bool)
    ensures Listing(lines, failed) == InfoFrom(buf, 0, false)
  {
    lines, failed := [], false;
    var pos: nat := 0;
    while pos < |buf|
      invariant InfoFrom(buf, 0, false) == Then(lines, InfoFrom(buf, pos, false))
      decreases |buf| - pos
    {
      var pass := InfoEntry(buf, pos);
      if pass.None? {
        failed := true;
        break;
      }
      ConcatAssoc(lines, pass.value.lines, InfoFrom(buf, pass.value.next, false).lines);
      lines := lines + pass.value.lines;
      pos := pass.value.next;
    }
    if !failed {
      assert lines + [] == lines;
    }
  }

  /** One pass of the `info` loop as written. */
  method InfoEntry(buf: seq<byte>, pos: nat) returns (r: Option<Pass>)
    requires pos < |buf|
    ensures r == InfoPass(buf, pos, false)
  {
    var bar := Find(buf, Bar, pos + 1);
    if bar.None? {
      r := None;
    } else {
      InfoPassBar(buf, pos, bar.value, false);
      var path := buf[pos + 1..bar.value];
      if buf[pos] == DirMark {
        r := Some(Pass([DirLine(path)], bar.value + 1));
      } else if buf[pos] == FileMark {
        var x := SkipCount(buf, bar.value + 1);
        r := if x.None? then None else Some(Pass([FileLine(path, x.value.size)], x.value.next));
      } else {
        r := Some(Pass([], bar.value + 1));
      }
    }
  }

  /** The file branch of the `info` loop: read the count byte by byte,
      read the padding byte, skip the rounded-up count. */
  method SkipCount(buf: seq<byte>, p: nat) returns (r: Option<Extent>)
    ensures r == CountExtent(buf, p)
  {
    var count := ReadCount(buf, p);
    if count.None? || At(buf, p + 4).None? {
      r := None;
    } else {
      var size := (count.value + 7) % 0x1_0000_0000 / 8;
      r := Some(Extent(size, p + 5 + size));
    }
  }

  /** A record that `decompressFileUtil` reads has an extent past its
      symbol table, and it ends where the reader stops. */
  lemma {:induction false} ExtentOfRecord(buf: seq<byte>, q: nat)
    requires ParseRecord(buf, q).Some?
    ensures RecordExtent(buf, q).Some? && RecordExtent(buf, q).value.next == ParseRecord(buf, q).value.next
  {
    var n := SignedChar(At(buf, q).value);
    if n != 0 {
      var t := ParseTable(buf, q + 1, n, map[]).value;
      assert TableAt(buf, q + 1, n) == CountAt(buf, t.next, t.codes);
    }
  }

  /** A line names an entry: same kind, same path. */
  predicate Names(line: Line, e: Entry)
  {
    (line.DirLine? <==> e.Dir?) && line.path == e.path
  }

  predicate ListsAll(lines: seq<Line>, entries: seq<Entry>)
  {
    |lines| == |entries| && forall i :: 0 <= i < |lines| ==> Names(lines[i], entries[i])
  }

  lemma {:induction false} ListsConcat(a: seq<Line>, b: seq<Entry>, c: seq<Line>, d: seq<Entry>)
    requires ListsAll(a, b) && ListsAll(c, d)
    ensures ListsAll(a + c, b + d)
  {
    forall i | 0 <= i < |a| + |c|
      ensures Names((a + c)[i], (b + d)[i])
    {
      if i >= |a| {
        assert (a + c)[i] == c[i - |a|] && (b + d)[i] == d[i - |a|];
      } else {
        assert (a + c)[i] == a[i] && (b + d)[i] == b[i];
      }
    }
  }

  /** Where one pass of `decompressFolder` succeeds after the '|' at
      `bar`, the intended `info` pass succeeds too, lists the entry
      replayed (nothing for an unknown type byte) and goes on from the
      same position. */
  lemma {:induction false} ListsPass(buf: seq<byte>, pos: nat, bar: nat)
    requires pos < bar < |buf| && PassAt(buf, pos, bar, bar + 1).Some?
    ensures ListAt(buf, pos, bar, true).Some?
    ensures ListsAll(ListAt(buf, pos, bar, true).value.lines, Items(PassAt(buf, pos, bar, bar + 1).value.item))
    ensures ListAt(buf, pos, bar, true).value.next == PassAt(buf, pos, bar, bar + 1).value.next
  {
    var path := buf[pos + 1..bar];
    if buf[pos] == DirMark {
      assert PassAt(buf, pos, bar, bar + 1).value.item == Some(Dir(path));
    } else if buf[pos] == FileMark {
      var rec := ParseRecord(buf, bar + 1).value;
      ExtentOfRecord(buf, bar + 1);
      var x := RecordExtent(buf, bar + 1).value;
      assert PassAt(buf, pos, bar, bar + 1).value == Step(Some(File(path, rec.data)), rec.next);
      assert ListAt(buf, pos, bar, true).value == Pass([FileLine(path, x.size)], x.next);
      assert Names(FileLine(path, x.size), File(path, rec.data));
    } else {
      assert PassAt(buf, pos, bar, bar + 1).value.item == None;
    }
  }

  /** `ListsPass` from the position of the type byte. */
  lemma {:induction false} InfoStep(buf: seq<byte>, pos: nat)
    requires pos < |buf| && Find(buf, Bar, pos + 1).Some? && StepAt(buf, pos).Some?
    ensures InfoPass(buf, pos, true).Some?
    ensures ListsAll(InfoPass(buf, pos, true).value.lines, Items(StepAt(buf, pos).value.item))
    ensures InfoPass(buf, pos, true).value.next == StepAt(buf, pos).value.next
  {
    var bar := Find(buf, Bar, pos + 1).value;
    StepAtBar(buf, pos, bar);
    InfoPassBar(buf, pos, bar, true);
    ListsPass(buf, pos, bar);
  }

  /** Wherever `decompressFolder` replays a container without error, the
      intended `info` lists it without error, one line per entry replayed,
      with its kind and path. */
  lemma {:induction false} InfoListsReplay(buf: seq<byte>, pos: nat)
    requires !ParseArchive(buf, pos).failed
    ensures !InfoFrom(buf, pos, true).failed
    ensures ListsAll(InfoFrom(buf, pos, true).lines, ParseArchive(buf, pos).done)
    decreases |buf| - pos
  {
    if pos < |buf| {
      var s := StepAt(buf, pos).value;
      InfoStep(buf, pos);
      var p := InfoPass(buf, pos, true).value;
      InfoListsReplay(buf, s.next);
      ListsConcat(p.lines, Items(s.item), InfoFrom(buf, s.next, true).lines, ParseArchive(buf, s.next).done);
    }
  }

  /** The container of one file "a" whose record has symbol count 1: `info`
      as written reads the symbol-table bytes 1, 'a', 1, '0' as the count
      and reports 100674593 bytes; past the table the count is 2 and the
      size 1 byte. */
  lemma InfoMisreadsCount()
    ensures InfoFrom([FileMark, 97, Bar, 1, 97, 1, 48, 2, 0, 0, 0, 7, 0], 0, false) == Listing([FileLine([97], 100674593)], false)
    ensures InfoFrom([FileMark, 97, Bar, 1, 97, 1, 48, 2, 0, 0, 0, 7, 0], 0, true) == Listing([FileLine([97], 1)], false)
  {
    var buf: seq<byte> := [FileMark, 97, Bar, 1, 97, 1, 48, 2, 0, 0, 0, 7, 0];
    assert Find(buf, Bar, 1) == Some(2);
    assert buf[1..2] == [97];
    assert buf[3..7] == [1, 97, 1, 48];
    assert CountExtent(buf, 3) == Some(Extent(100674593, 100674601));
    assert InfoPass(buf, 0, false) == Some(Pass([FileLine([97], 100674593)], 100674601));
    assert InfoFrom(buf, 100674601, false) == Listing([], false);
    assert [FileLine([97], 100674593)] + [] == [FileLine([97], 100674593)];
    assert buf[4..6] == [97, 1] && buf[6..7] == [48];
    assert AsChars([48]) == ['0'];
    assert ParseTable(buf, 7, 0, map[['0'] := 97]) == Some(TableRead(map[['0'] := 97], 7));
    assert ParseTable(buf, 4, 1, map[]) == Some(TableRead(map[['0'] := 97], 7));
    assert buf[7..11] == [2, 0, 0, 0];
    assert RecordExtent(buf, 3) == Some(Extent(1, 13));
    assert InfoPass(buf, 0, true) == Some(Pass([FileLine([97], 1)], 13));
    assert InfoFrom(buf, 13, true) == Listing([], false);
    assert [FileLine([97], 1)] + [] == [FileLine([97], 1)];
  }
}
