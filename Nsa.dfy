/** NScripter NSA archives: a big-endian header (u16 file count, u32 offset
    to the files), a table of zero-terminated names each followed by 13 bytes
    (u8 compression type, u32 origin, compressed size, original size), and the
    payloads. Both the unpacker and the packer are modelled. */
module Nsa {
  import opened Base
  import opened Cursors
  import opened Tables

  const NoCompression: nat := 0
  const SpbCompression: nat := 1
  const LzssCompression: nat := 2

  /** A table entry; `origin` is already rebased onto the offset to the files. */
  datatype Entry = Entry(name: seq<byte>, kind: nat, origin: nat, sizeCompressed: nat, sizeOriginal: nat)

  datatype Header = Header(count: nat, offsetToFiles: nat)

  // ---------------------------------------------------------------------------
  // Unpacker#read_table

  function HeaderAt(s: seq<byte>, pos: nat): Result<Parsed<Header>>
  {
    var b :- ReadAt(s, pos, 6);
    var h := Header(Be16(b.value[..2]), Be32(b.value[2..]));
    if h.offsetToFiles > |s| then Fail(BadOffsetToFiles) else Ok(Parsed(h, b.next))
  }

  /** The 13 bytes after an entry's name. */
  function Fields(name: seq<byte>, b: seq<byte>, offsetToFiles: nat): Entry
    requires |b| == 13
  {
    Entry(name, b[0], Be32(b[1..5]) + offsetToFiles, Be32(b[5..9]), Be32(b[9..13]))
  }

  function EntryAt(s: seq<byte>, offsetToFiles: nat, pos: nat): Result<Parsed<Entry>>
  {
    var name :- UntilZeroAt(s, pos);
    var b :- ReadAt(s, name.next, 13);
    Ok(Parsed(Fields(name.value, b.value, offsetToFiles), b.next))
  }

  function EntryReader(s: seq<byte>, offsetToFiles: nat): nat -> Result<Parsed<Entry>>
  {
    (pos: nat) => EntryAt(s, offsetToFiles, pos)
  }

  /** The check made after each entry is read: its data must end inside the archive. */
  predicate InArchive(e: Entry, size: nat)
  {
    e.origin + e.sizeCompressed <= size
  }

  function OriginCheck(size: nat): Entry -> Option<Error>
  {
    e => if InArchive(e, size) then None else Some(BadOffsetToFile)
  }

  function TableAt(s: seq<byte>, pos: nat): Result<Parsed<seq<Entry>>>
  {
    var header :- HeaderAt(s, pos);
    Entries(EntryReader(s, header.value.offsetToFiles), OriginCheck(|s|), header.next, header.value.count, [])
  }

  /** The header: a table is refused when its offset to the files lies past the
      end of the archive; otherwise the entries start right after the 6 bytes. */
  lemma HeaderShape(s: seq<byte>, pos: nat)
    requires pos + 6 <= |s|
    ensures var off := Be32(s[pos + 2..pos + 6]);
      && (off > |s| ==> TableAt(s, pos) == Fail(BadOffsetToFiles))
      && (off <= |s| ==> TableAt(s, pos) == Entries(EntryReader(s, off), OriginCheck(|s|), pos + 6, Be16(s[pos..pos + 2]), []))
  {
    assert s[pos..pos + 6][..2] == s[pos..pos + 2];
    assert s[pos..pos + 6][2..] == s[pos + 2..pos + 6];
  }

  /** Every table read holds `count` entries whose data lie inside the archive. */
  lemma TableInArchive(s: seq<byte>, pos: nat)
    requires TableAt(s, pos).Ok?
    ensures var t := TableAt(s, pos).value.value;
      && |t| == HeaderAt(s, pos).value.value.count
      && forall k | 0 <= k < |t| :: InArchive(t[k], |s|)
  {
    var h := HeaderAt(s, pos).value;
    EntriesPass(EntryReader(s, h.value.offsetToFiles), OriginCheck(|s|), h.next, h.value.count, []);
    var t := TableAt(s, pos).value.value;
    forall k | 0 <= k < |t| ensures InArchive(t[k], |s|) {
      assert OriginCheck(|s|)(t[k]).None?;
    }
  }

  /** An entry whose data end past the archive aborts the table, whatever follows. */
  lemma EntryOutsideFails(s: seq<byte>, off: nat, pos: nat, n: nat, acc: seq<Entry>)
    requires n > 0 && EntryAt(s, off, pos).Ok? && !InArchive(EntryAt(s, off, pos).value.value, |s|)
    ensures Entries(EntryReader(s, off), OriginCheck(|s|), pos, n, acc) == Fail(BadOffsetToFile)
  {
  }

  // ---------------------------------------------------------------------------
  // Unpacker#read_contents and #decompress

  /** decompress: SPB always fails, LZSS is `decode`, any other type is stored as is. */
  function Decompress(data: seq<byte>, kind: nat, decode: seq<byte> -> seq<byte>): Result<seq<byte>>
  {
    if kind == SpbCompression then Fail(SpbUnsupported)
    else if kind == LzssCompression then Ok(decode(data))
    else Ok(data)
  }

  /** The file of one entry: its compressed bytes at its origin, decompressed,
      and refused unless the result has the recorded original size. */
  function FileAt(s: seq<byte>, e: Entry, decode: seq<byte> -> seq<byte>): Result<File>
  {
    var at :- SeekTo(s, e.origin);
    var stored :- ReadAt(s, at, e.sizeCompressed);
    var data :- Decompress(stored.value, e.kind, decode);
    if |data| != e.sizeOriginal then Fail(BadFileSize) else Ok(File(e.name, data, Kept))
  }

  /** An unpacked file has exactly its entry's original size; a stored file
      is the entry's bytes in the archive. */
  lemma FileShape(s: seq<byte>, e: Entry, decode: seq<byte> -> seq<byte>)
    ensures var r := FileAt(s, e, decode);
      && (r.Ok? ==> r.value.name == e.name && |r.value.data| == e.sizeOriginal && e.kind != SpbCompression)
      && (e.kind == SpbCompression && InArchive(e, |s|) ==> r == Fail(SpbUnsupported))
      && (InArchive(e, |s|) && e.kind != SpbCompression && e.kind != LzssCompression ==>
            r == if e.sizeCompressed == e.sizeOriginal
                 then Ok(File(e.name, s[e.origin..e.origin + e.sizeCompressed], Kept))
                 else Fail(BadFileSize))
  {
  }

  function Reader(s: seq<byte>, decode: seq<byte> -> seq<byte>): Entry -> Result<File>
  {
    e => FileAt(s, e, decode)
  }

  /** unpack: the table, then one file per entry in table order. */
  function UnpackAt(s: seq<byte>, decode: seq<byte> -> seq<byte>): Unpacked
  {
    match TableAt(s, 0)
    case Fail(e) => Unpacked([], Some(e))
    case Ok(t) => Extract(Reader(s, decode), t.value, 0, [])
  }

  lemma UnpackShape(s: seq<byte>, decode: seq<byte> -> seq<byte>)
    ensures var u := UnpackAt(s, decode);
      match TableAt(s, 0)
      case Fail(e) => u == Unpacked([], Some(e))
      case Ok(t) => ExtractedInOrder(Reader(s, decode), t.value, u)
  {
    if TableAt(s, 0).Ok? {
      ExtractInOrder(Reader(s, decode), TableAt(s, 0).value.value);
    }
  }

  // ---------------------------------------------------------------------------
  // The imperative unpacker

  method ReadHeader(arc: Cursor) returns (r: Result<Header>)
    modifies arc
    ensures Finished(HeaderAt(arc.data, old(arc.pos)), r, arc.pos)
  {
    var b := arc.Read(6);
    if b.Fail? {
      return Fail(b.error);
    }
    var header := Header(Be16(b.value[..2]), Be32(b.value[2..]));
    if header.offsetToFiles > arc.Size() {
      return Fail(BadOffsetToFiles);
    }
    r := Ok(header);
  }

  method ReadEntry(arc: Cursor, offsetToFiles: nat) returns (r: Result<Entry>)
    modifies arc
    ensures Finished(EntryAt(arc.data, offsetToFiles, old(arc.pos)), r, arc.pos)
  {
    var name := arc.ReadUntilZero();
    if name.Fail? {
      return Fail(name.error);
    }
    var b := arc.Read(13);
    if b.Fail? {
      return Fail(b.error);
    }
    r := Ok(Fields(name.value, b.value, offsetToFiles));
  }

  /** One pass of the loop of read_table: the entry is read, rebased and
      checked; the table read from here on is this entry followed by the rest. */
  method ReadCheckedEntry(arc: Cursor, offsetToFiles: nat, n: nat, acc: seq<Entry>) returns (r: Result<Entry>)
    requires n > 0
    modifies arc
    ensures Entries(EntryReader(arc.data, offsetToFiles), OriginCheck(|arc.data|), old(arc.pos), n, acc)
         == match r
            case Fail(err) => Fail(err)
            case Ok(e) => Entries(EntryReader(arc.data, offsetToFiles), OriginCheck(|arc.data|), arc.pos, n - 1, acc + [e])
  {
    r := ReadEntry(arc, offsetToFiles);
    if r.Ok? && r.value.origin + r.value.sizeCompressed > arc.Size() {
      r := Fail(BadOffsetToFile);
    }
  }

  /** The loop of read_table: n entries from the cursor's position. */
  method ReadEntries(arc: Cursor, n: nat, offsetToFiles: nat) returns (r: Result<seq<Entry>>)
    modifies arc
    ensures Finished(Entries(EntryReader(arc.data, offsetToFiles), OriginCheck(|arc.data|), old(arc.pos), n, []), r, arc.pos)
  {
    ghost var reader := EntryReader(arc.data, offsetToFiles);
    ghost var check := OriginCheck(|arc.data|);
    ghost var whole := Entries(reader, check, arc.pos, n, []);
    var table: seq<Entry> := [];
    for i := 0 to n
      invariant whole == Entries(reader, check, arc.pos, n - i, table)
    {
      var entry := ReadCheckedEntry(arc, offsetToFiles, n - i, table);
      if entry.Fail? {
        return Fail(entry.error);
      }
      table := table + [entry.value];
    }
    r := Ok(table);
  }

  method ReadTable(arc: Cursor) returns (r: Result<seq<Entry>>)
    modifies arc
    ensures Finished(TableAt(arc.data, old(arc.pos)), r, arc.pos)
  {
    var header := ReadHeader(arc);
    if header.Fail? {
      return Fail(header.error);
    }
    r := ReadEntries(arc, header.value.count, header.value.offsetToFiles);
  }

  method ReadFile(arc: Cursor, e: Entry, decode: seq<byte> -> seq<byte>) returns (r: Result<File>)
    modifies arc
    ensures r == FileAt(arc.data, e, decode)
  {
    var at := arc.Seek(e.origin);
    if at.Fail? {
      return Fail(at.error);
    }
    var stored := arc.Read(e.sizeCompressed);
    if stored.Fail? {
      return Fail(stored.error);
    }
    var data := Decompress(stored.value, e.kind, decode);
    if data.Fail? {
      return Fail(data.error);
    }
    if |data.value| != e.sizeOriginal {
      return Fail(BadFileSize);
    }
    r := Ok(File(e.name, data.value, Kept));
  }

  method Unpack(arc: Cursor, decode: seq<byte> -> seq<byte>) returns (u: Unpacked)
    requires arc.pos == 0
    modifies arc
    ensures u == UnpackAt(arc.data, decode)
  {
    var table := ReadTable(arc);
    if table.Fail? {
      return Unpacked([], Some(table.error));
    }
    var entries := table.value;
    var saved: seq<File> := [];
    for i := 0 to |entries|
      invariant Extract(Reader(arc.data, decode), entries, 0, []) == Extract(Reader(arc.data, decode), entries, i, saved)
    {
      var file := ReadFile(arc, entries[i], decode);
      if file.Fail? {
        return Unpacked(saved, Some(file.error));
      }
      saved := saved + [file.value];
    }
    u := Unpacked(saved, None);
  }
}
