/** BGI (Buriko General Interpreter) ARC archives (bgi/arc): the 12-byte magic
    "PackFile    ", a u32 file count, a table of 32-byte entries and the
    payloads. An entry's stored offset counts from the end of the table. */
module BgiArc {
  import opened Base
  import opened Cursors
  import opened Tables

  const Magic: seq<byte> := Ascii("PackFile    ")
  const NameSize: nat := 16

  datatype Entry = Entry(name: seq<byte>, offset: nat, size: nat)

  // ---------------------------------------------------------------------------
  // read_table

  /** file_data_start: the position after the count plus count * 32, where the
      product is a u32 product and the final offset a u32 sum. */
  function DataStart(start: nat, count: nat): nat
  {
    start + (count * 32) % U32
  }

  /** One entry: name (16 bytes up to the first zero), LE u32 offset relative
      to `dataStart`, LE u32 size, then 8 skipped bytes. */
  function EntryAt(s: seq<byte>, dataStart: nat, pos: nat): Result<Parsed<Entry>>
  {
    var name :- ToZeroAt(s, pos, NameSize);
    var offset :- U32LeAt(s, name.next);
    var size :- U32LeAt(s, offset.next);
    var end :- SkipAt(s, size.next, 8);
    Ok(Parsed(Entry(name.value, (offset.value + dataStart) % U32, size.value), end))
  }

  function EntryReader(s: seq<byte>, dataStart: nat): nat -> Result<Parsed<Entry>>
  {
    (pos: nat) => EntryAt(s, dataStart, pos)
  }

  /** read_table checks nothing about an entry. */
  function NoCheck(): Entry -> Option<Error>
  {
    e => None
  }

  function TableAt(s: seq<byte>, pos: nat): Result<Parsed<seq<Entry>>>
  {
    var count :- U32LeAt(s, pos);
    Entries(EntryReader(s, DataStart(count.next, count.value)), NoCheck(), count.next, count.value, [])
  }

  // ---------------------------------------------------------------------------
  // The table by its fixed layout

  /** Where entry k of a table starting at `start` lies. */
  function Slots(start: nat): nat -> nat
  {
    (k: nat) => start + 32 * k
  }

  /** The entry stored in the 32 bytes at `p`. */
  function EntryOf(s: seq<byte>, dataStart: nat, p: nat): Entry
    requires p + 32 <= |s|
  {
    Entry(TakeToZero(s[p..p + 16]), (Le32(s[p + 16..p + 20]) + dataStart) % U32, Le32(s[p + 20..p + 24]))
  }

  /** Entry k of a table starting at `start`, wherever it lies inside the archive. */
  function SlotEntry(s: seq<byte>, dataStart: nat, start: nat): nat -> Entry
  {
    (k: nat) => if start + 32 * k + 32 <= |s| then EntryOf(s, dataStart, start + 32 * k) else Entry([], 0, 0)
  }

  /** An entry can be read exactly when its 32 bytes lie inside the archive. */
  lemma EntryAtPlace(s: seq<byte>, dataStart: nat, p: nat)
    ensures EntryAt(s, dataStart, p).Ok? <==> p + 32 <= |s|
    ensures p + 32 <= |s| ==> EntryAt(s, dataStart, p) == Ok(Parsed(EntryOf(s, dataStart, p), p + 32))
  {
  }

  /** A non-empty table of n entries from `p` reads exactly when its n * 32 bytes fit. */
  lemma {:induction false} TableRoom(s: seq<byte>, dataStart: nat, p: nat, n: nat, acc: seq<Entry>)
    ensures Entries(EntryReader(s, dataStart), NoCheck(), p, n, acc).Ok? <==> n == 0 || p + 32 * n <= |s|
    decreases n
  {
    if n > 0 {
      EntryAtPlace(s, dataStart, p);
      if p + 32 <= |s| {
        var e := EntryOf(s, dataStart, p);
        assert NoCheck()(e).None?;
        assert Entries(EntryReader(s, dataStart), NoCheck(), p, n, acc)
            == Entries(EntryReader(s, dataStart), NoCheck(), p + 32, n - 1, acc + [e]);
        TableRoom(s, dataStart, p + 32, n - 1, acc + [e]);
      }
    }
  }

  /** The entries of a table of n slots that fits in the archive. */
  lemma TableLaidOut(s: seq<byte>, dataStart: nat, start: nat, n: nat)
    requires n == 0 || start + 32 * n <= |s|
    ensures LaidOut(EntryReader(s, dataStart), Slots(start), SlotEntry(s, dataStart, start), 0, n)
    ensures AllPass(NoCheck(), SlotEntry(s, dataStart, start), 0, n)
  {
    forall j | 0 <= j < n
      ensures EntryReader(s, dataStart)(Slots(start)(j))
           == Ok(Parsed(SlotEntry(s, dataStart, start)(j), Slots(start)(j + 1)))
    {
      EntryAtPlace(s, dataStart, start + 32 * j);
    }
  }

  /** read_table accepts exactly the archives whose count is followed by
      count * 32 bytes of table. Entry k is then the one stored in slot k, with
      its offset moved by the data start, and the table ends after the last slot. */
  lemma TableShape(s: seq<byte>, pos: nat)
    requires pos + 4 <= |s|
    ensures var n := Le32(s[pos..pos + 4]);
            var start := pos + 4;
            var r := TableAt(s, pos);
      && (r.Ok? <==> start + 32 * n <= |s|)
      && (r.Ok? ==> && |r.value.value| == n
                    && r.value.next == start + 32 * n
                    && forall k | 0 <= k < n :: r.value.value[k] == EntryOf(s, DataStart(start, n), start + 32 * k))
  {
    var n := Le32(s[pos..pos + 4]);
    var start := pos + 4;
    var ds := DataStart(start, n);
    TableRoom(s, ds, start, n, []);
    if start + 32 * n <= |s| {
      TableLaidOut(s, ds, start, n);
      ReadLaidOut(EntryReader(s, ds), NoCheck(), Slots(start), SlotEntry(s, ds, start), 0, n, []);
    }
  }

  /** When the table is shorter than 4 GiB, the data start is the end of the
      table, so stored offsets count from there (modulo 2^32). */
  lemma DataStartIsTableEnd(start: nat, n: nat)
    requires 32 * n < U32
    ensures DataStart(start, n) == start + 32 * n
  {
  }

  /** The u32 product wraps: 2^27 entries give a data start equal to the table start. */
  lemma DataStartWraps(start: nat)
    ensures DataStart(start, 0x800_0000) == start
  {
  }

  // ---------------------------------------------------------------------------
  // read_file, is_recognized_internal, unpack_internal

  /** The file of an entry: the size bytes at its offset, under its name; the
      extension is left to content sniffing. */
  function FileAt(s: seq<byte>, e: Entry): Result<File>
  {
    var at :- SeekTo(s, e.offset);
    var stored :- ReadAt(s, at, e.size);
    Ok(File(e.name, stored.value, Guessed))
  }

  lemma FileShape(s: seq<byte>, e: Entry)
    ensures FileAt(s, e).Ok? <==> e.offset + e.size <= |s|
    ensures FileAt(s, e).Fail? ==> FileAt(s, e).error == (if e.offset > |s| then OutOfBounds else Truncated)
    ensures FileAt(s, e).Ok? ==> FileAt(s, e).value == File(e.name, s[e.offset..e.offset + e.size], Guessed)
  {
  }

  /** is_recognized_internal: whether the next 12 bytes are the magic. The
      read is not guarded, so a shorter archive makes it raise. */
  function Recognized(s: seq<byte>, pos: nat): Result<bool>
  {
    var m :- ReadAt(s, pos, |Magic|);
    Ok(m.value == Magic)
  }

  lemma RecognizedMeansMagic(s: seq<byte>, pos: nat)
    ensures Recognized(s, pos).Fail? <==> pos + 12 > |s|
    ensures Recognized(s, pos).Fail? ==> Recognized(s, pos).error == Truncated
    ensures Recognized(s, pos) == Ok(true) <==> pos + 12 <= |s| && s[pos..pos + 12] == Magic
  {
  }

  function Reader(s: seq<byte>): Entry -> Result<File>
  {
    e => FileAt(s, e)
  }

  /** unpack_internal: skip the magic, read the table, save one file per entry. */
  function UnpackAt(s: seq<byte>, pos: nat): Unpacked
  {
    match SkipAt(s, pos, |Magic|)
    case Fail(e) => Unpacked([], Some(e))
    case Ok(start) =>
      match TableAt(s, start)
      case Fail(e) => Unpacked([], Some(e))
      case Ok(t) => Extract(Reader(s), t.value, 0, [])
  }

  /** Nothing is saved unless the whole table was read; then the saved files
      are those of the entries, in table order, up to the first that fails. */
  lemma UnpackShape(s: seq<byte>, pos: nat)
    ensures var u := UnpackAt(s, pos);
      && (pos + 12 > |s| ==> u == Unpacked([], Some(OutOfBounds)))
      && (pos + 12 <= |s| ==>
            match TableAt(s, pos + 12)
            case Fail(e) => u == Unpacked([], Some(e))
            case Ok(t) => ExtractedInOrder(Reader(s), t.value, u))
  {
    if pos + 12 <= |s| && TableAt(s, pos + 12).Ok? {
      ExtractInOrder(Reader(s), TableAt(s, pos + 12).value.value);
    }
  }

  // ---------------------------------------------------------------------------
  // The imperative reader

  method ReadEntry(arc: Cursor, dataStart: nat) returns (r: Result<Entry>)
    modifies arc
    ensures Finished(EntryAt(arc.data, dataStart, old(arc.pos)), r, arc.pos)
  {
    var name := arc.ReadToZero(NameSize);
    if name.Fail? {
      return Fail(name.error);
    }
    var offset := arc.ReadU32Le();
    if offset.Fail? {
      return Fail(offset.error);
    }
    var size := arc.ReadU32Le();
    if size.Fail? {
      return Fail(size.error);
    }
    var end := arc.Skip(8);
    if end.Fail? {
      return Fail(end.error);
    }
    r := Ok(Entry(name.value, (offset.value + dataStart) % U32, size.value));
  }

  /** The loop of read_table: n entries from the cursor's position. */
  method ReadEntries(arc: Cursor, n: nat, dataStart: nat) returns (r: Result<seq<Entry>>)
    modifies arc
    ensures Finished(Entries(EntryReader(arc.data, dataStart), NoCheck(), old(arc.pos), n, []), r, arc.pos)
  {
    ghost var start := arc.pos;
    var entries: seq<Entry> := [];
    for i := 0 to n
      invariant arc.pos == start + 32 * i && |entries| == i && (i == 0 || start + 32 * i <= |arc.data|)
      invariant forall k | 0 <= k < i :: entries[k] == SlotEntry(arc.data, dataStart, start)(k)
    {
      EntryAtPlace(arc.data, dataStart, arc.pos);
      var entry := ReadEntry(arc, dataStart);
      if entry.Fail? {
        EntriesCutShort(arc.data, dataStart, start, i, n);
        return Fail(entry.error);
      }
      entries := entries + [entry.value];
    }
    EntriesRead(arc.data, dataStart, start, n, entries);
    r := Ok(entries);
  }

  lemma EntriesCutShort(s: seq<byte>, dataStart: nat, start: nat, i: nat, n: nat)
    requires i < n && (i == 0 || start + 32 * i <= |s|) && EntryAt(s, dataStart, start + 32 * i).Fail?
    ensures Entries(EntryReader(s, dataStart), NoCheck(), start, n, [])
         == Fail(EntryAt(s, dataStart, start + 32 * i).error)
  {
    TableLaidOut(s, dataStart, start, i);
    assert Slots(start)(0) == start && Slots(start)(i) == start + 32 * i;
    ReadUnreadable(EntryReader(s, dataStart), NoCheck(), Slots(start), SlotEntry(s, dataStart, start), 0, i, n, []);
  }

  lemma EntriesRead(s: seq<byte>, dataStart: nat, start: nat, n: nat, entries: seq<Entry>)
    requires (n == 0 || start + 32 * n <= |s|) && |entries| == n
    requires forall k | 0 <= k < n :: entries[k] == SlotEntry(s, dataStart, start)(k)
    ensures Entries(EntryReader(s, dataStart), NoCheck(), start, n, []) == Ok(Parsed(entries, start + 32 * n))
  {
    TableLaidOut(s, dataStart, start, n);
    assert Slots(start)(0) == start;
    ReadLaidOut(EntryReader(s, dataStart), NoCheck(), Slots(start), SlotEntry(s, dataStart, start), 0, n, []);
    assert Entries(EntryReader(s, dataStart), NoCheck(), start, n, []).value.value == entries;
  }

  method ReadTable(arc: Cursor) returns (r: Result<seq<Entry>>)
    modifies arc
    ensures Finished(TableAt(arc.data, old(arc.pos)), r, arc.pos)
  {
    var count := arc.ReadU32Le();
    if count.Fail? {
      return Fail(count.error);
    }
    var dataStart := arc.pos + (count.value * 32) % U32;
    r := ReadEntries(arc, count.value, dataStart);
  }

  method ReadFile(arc: Cursor, e: Entry) returns (r: Result<File>)
    modifies arc
    ensures r == FileAt(arc.data, e)
  {
    var at := arc.Seek(e.offset);
    if at.Fail? {
      return Fail(at.error);
    }
    var bytes := arc.Read(e.size);
    if bytes.Fail? {
      return Fail(bytes.error);
    }
    r := Ok(File(e.name, bytes.value, Guessed));
  }

  method IsRecognized(arc: Cursor) returns (recognized: Result<bool>)
    modifies arc
    ensures recognized == Recognized(arc.data, old(arc.pos))
  {
    var magic := arc.Read(|Magic|);
    if magic.Fail? {
      return Fail(magic.error);
    }
    recognized := Ok(magic.value == Magic);
  }

  method Unpack(arc: Cursor) returns (u: Unpacked)
    modifies arc
    ensures u == UnpackAt(arc.data, old(arc.pos))
  {
    var start := arc.Skip(|Magic|);
    if start.Fail? {
      return Unpacked([], Some(start.error));
    }
    var table := ReadTable(arc);
    if table.Fail? {
      return Unpacked([], Some(table.error));
    }
    var entries := table.value;
    var saved: seq<File> := [];
    for i := 0 to |entries|
      invariant Extract(Reader(arc.data), entries, 0, []) == Extract(Reader(arc.data), entries, i, saved)
    {
      var file := ReadFile(arc, entries[i]);
      if file.Fail? {
        return Unpacked(saved, Some(file.error));
      }
      saved := saved + [file.value];
    }
    u := Unpacked(saved, None);
  }
}
