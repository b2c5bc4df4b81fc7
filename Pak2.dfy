/** Nitroplus PAK2 archives: the magic 02 00 00 00, three LE u32 header fields
    (file count, table size, compressed table size), a zlib-compressed table at
    offset 276 whose entries carry length-prefixed names, and the payloads,
    each stored as is or compressed with zlib. Zlib is the `inflate`
    parameter: None where Zlib.inflate raises. */
module Pak2 {
  import opened Base
  import opened Cursors
  import opened Tables

  const Magic: seq<byte> := [2, 0, 0, 0]
  /** Where the compressed table starts, whatever the header says. */
  const TableOrigin: nat := 276
  /** The bytes after an entry's name: origin, original size, 4 unused bytes,
      flags and compressed size. */
  const FieldsSize: nat := 20

  datatype Header = Header(count: nat, tableSize: nat, compressedTableSize: nat)

  datatype Entry = Entry(name: seq<byte>, origin: nat, sizeOriginal: nat, flags: nat, sizeCompressed: nat)

  /** The inflated table, and the offset to the files: the position right
      after the compressed table. */
  datatype Table = Table(raw: seq<byte>, offsetToFiles: nat)

  // ---------------------------------------------------------------------------
  // Unpacker#unpack and #read_file_table

  /** read(4) == MAGIC: a shorter archive does not match either. */
  predicate HasMagic(s: seq<byte>)
  {
    |s| >= 4 && s[..4] == Magic
  }

  /** read(12).unpack('LLL'). */
  function HeaderAt(s: seq<byte>, pos: nat): Result<Parsed<Header>>
  {
    var b :- ReadAt(s, pos, 12);
    Ok(Parsed(Header(Le32(b.value[..4]), Le32(b.value[4..8]), Le32(b.value[8..])), b.next))
  }

  /** seek(276), read and inflate the table, then check its length. */
  function TableAt(s: seq<byte>, h: Header, inflate: seq<byte> -> Option<seq<byte>>): Result<Table>
  {
    var at :- SeekTo(s, TableOrigin);
    var packed :- ReadAt(s, at, h.compressedTableSize);
    match inflate(packed.value)
    case None => Fail(InflateFailed)
    case Some(raw) => if |raw| != h.tableSize then Fail(BadFileTableSize) else Ok(Table(raw, packed.next))
  }

  // ---------------------------------------------------------------------------
  // Unpacker#read_file_name and #read_file

  /** A LE u32 length, then that many bytes of name. */
  function NameAt(raw: seq<byte>, pos: nat): Result<Parsed<seq<byte>>>
  {
    var n :- U32LeAt(raw, pos);
    ReadAt(raw, n.next, n.value)
  }

  /** The name, then read(20).unpack('LLxxxxLL'). */
  function EntryAt(raw: seq<byte>, pos: nat): Result<Parsed<Entry>>
  {
    var name :- NameAt(raw, pos);
    var b :- ReadAt(raw, name.next, FieldsSize);
    var f := b.value;
    Ok(Parsed(Entry(name.value, Le32(f[0..4]), Le32(f[4..8]), Le32(f[12..16]), Le32(f[16..20])), b.next))
  }

  /** The data of an entry, at its origin past the offset to the files: the
      inflated compressed bytes when a flag is set, the stored bytes otherwise. */
  function DataAt(s: seq<byte>, e: Entry, offsetToFiles: nat, inflate: seq<byte> -> Option<seq<byte>>): Result<seq<byte>>
  {
    var at :- SeekTo(s, e.origin + offsetToFiles);
    if e.flags > 0 then
      var packed :- ReadAt(s, at, e.sizeCompressed);
      match inflate(packed.value)
      case None => Fail(InflateFailed)
      case Some(data) => Ok(data)
    else
      var stored :- ReadAt(s, at, e.sizeOriginal);
      Ok(stored.value)
  }

  /** read_file: the next entry of the table, then its data from the archive. */
  function FileAt(s: seq<byte>, raw: seq<byte>, pos: nat, offsetToFiles: nat,
                  inflate: seq<byte> -> Option<seq<byte>>): Result<Parsed<File>>
  {
    var e :- EntryAt(raw, pos);
    var data :- DataAt(s, e.value, offsetToFiles, inflate);
    Ok(Parsed(File(e.value.name, data, Kept), e.next))
  }

  /** file_count.times: n more files, each entry read from the table just
      before its data; the first failure stops the unpacking. */
  function FilesFrom(s: seq<byte>, raw: seq<byte>, offsetToFiles: nat, inflate: seq<byte> -> Option<seq<byte>>,
                     pos: nat, n: nat, saved: seq<File>): Unpacked
    decreases n
  {
    if n == 0 then Unpacked(saved, None)
    else match FileAt(s, raw, pos, offsetToFiles, inflate)
      case Fail(e) => Unpacked(saved, Some(e))
      case Ok(f) => FilesFrom(s, raw, offsetToFiles, inflate, f.next, n - 1, saved + [f.value])
  }

  /** unpack: the magic, the header, the table, then the files. */
  function UnpackAt(s: seq<byte>, inflate: seq<byte> -> Option<seq<byte>>): Unpacked
  {
    if !HasMagic(s) then Unpacked([], Some(NotPakArchive))
    else match HeaderAt(s, 4)
      case Fail(e) => Unpacked([], Some(e))
      case Ok(h) =>
        match TableAt(s, h.value, inflate)
        case Fail(e) => Unpacked([], Some(e))
        case Ok(t) => FilesFrom(s, t.raw, t.offsetToFiles, inflate, 0, h.value.count, [])
  }

  // ---------------------------------------------------------------------------
  // The layout, stated by offsets

  /** The compressed table, when it lies inside the archive, inflated. */
  function InflatedTable(s: seq<byte>, h: Header, inflate: seq<byte> -> Option<seq<byte>>): Option<seq<byte>>
  {
    if TableOrigin + h.compressedTableSize <= |s| then inflate(s[TableOrigin..TableOrigin + h.compressedTableSize])
    else None
  }

  /** The table is accepted exactly when its compressed bytes lie inside the
      archive, inflate, and inflate to `table_size` bytes; the files then start
      right after the compressed bytes. */
  lemma TableShape(s: seq<byte>, h: Header, inflate: seq<byte> -> Option<seq<byte>>)
    ensures var r := TableAt(s, h, inflate);
            var t := InflatedTable(s, h, inflate);
      && (r.Ok? <==> t.Some? && |t.value| == h.tableSize)
      && (r.Ok? ==> r.value == Table(t.value, TableOrigin + h.compressedTableSize))
      && (r.Fail? && t.Some? ==> r.error == BadFileTableSize)
      && (r.Fail? && TableOrigin + h.compressedTableSize <= |s| && t.None? ==> r.error == InflateFailed)
      && (TableOrigin + h.compressedTableSize > |s| ==> r.error == if TableOrigin > |s| then OutOfBounds else Truncated)
  {
  }

  /** An entry can be read exactly when its length field, its name and its 20
      bytes of fields lie inside the table; it then consists of those bytes,
      the 4 bytes after the original size left unread. */
  lemma EntryShape(raw: seq<byte>, pos: nat)
    ensures var r := EntryAt(raw, pos);
      && (pos + 4 > |raw| ==> r == Fail(Truncated))
      && (pos + 4 <= |raw| ==>
            var q := pos + 4 + Le32(raw[pos..pos + 4]);
            && (r.Ok? <==> q + FieldsSize <= |raw|)
            && (r.Fail? ==> r.error == Truncated)
            && (r.Ok? ==> r == Ok(Parsed(Entry(raw[pos + 4..q], Le32(raw[q..q + 4]), Le32(raw[q + 4..q + 8]),
                                               Le32(raw[q + 12..q + 16]), Le32(raw[q + 16..q + 20])),
                                         q + FieldsSize))))
  {
    if pos + 4 <= |raw| {
      var q := pos + 4 + Le32(raw[pos..pos + 4]);
      if q + FieldsSize <= |raw| {
        var f := raw[q..q + FieldsSize];
        assert f[0..4] == raw[q..q + 4];
        assert f[4..8] == raw[q + 4..q + 8];
        assert f[12..16] == raw[q + 12..q + 16];
        assert f[16..20] == raw[q + 16..q + 20];
      }
    }
  }

  /** A file whose flags are zero is the `original size` bytes at its origin
      past the offset to the files; one with a flag set is the inflation of
      the `compressed size` bytes there. Neither checks the other size. */
  lemma DataShape(s: seq<byte>, e: Entry, offsetToFiles: nat, inflate: seq<byte> -> Option<seq<byte>>)
    ensures var at := e.origin + offsetToFiles;
            var size := if e.flags > 0 then e.sizeCompressed else e.sizeOriginal;
            var r := DataAt(s, e, offsetToFiles, inflate);
      && (at + size > |s| ==> r == Fail(if at > |s| then OutOfBounds else Truncated))
      && (at + size <= |s| && e.flags == 0 ==> r == Ok(s[at..at + size]))
      && (at + size <= |s| && e.flags > 0 ==>
            r == match inflate(s[at..at + size]) case None => Fail(InflateFailed) case Some(d) => Ok(d))
  {
  }

  // ---------------------------------------------------------------------------
  // What unpacking gives

  /** The errors the file loop can end with: a table or archive cut short, a
      seek past the end, or zlib refusing the data. */
  predicate LoopError(e: Error)
  {
    e == Truncated || e == OutOfBounds || e == InflateFailed
  }

  lemma FileError(s: seq<byte>, raw: seq<byte>, pos: nat, offsetToFiles: nat, inflate: seq<byte> -> Option<seq<byte>>)
    ensures var r := FileAt(s, raw, pos, offsetToFiles, inflate);
      r.Fail? ==> LoopError(r.error)
  {
  }

  /** The file loop saves at most n more files, exactly n when nothing fails,
      and fails only with a loop error. */
  lemma {:induction false} FilesFromShape(s: seq<byte>, raw: seq<byte>, offsetToFiles: nat,
                                          inflate: seq<byte> -> Option<seq<byte>>, pos: nat, n: nat, saved: seq<File>)
    ensures var u := FilesFrom(s, raw, offsetToFiles, inflate, pos, n, saved);
      && |saved| <= |u.saved| <= |saved| + n && u.saved[..|saved|] == saved
      && (u.failure.None? ==> |u.saved| == |saved| + n)
      && (u.failure.Some? ==> LoopError(u.failure.value))
    decreases n
  {
    if n > 0 {
      var r := FileAt(s, raw, pos, offsetToFiles, inflate);
      if r.Ok? {
        var more := saved + [r.value.value];
        FilesFromShape(s, raw, offsetToFiles, inflate, r.value.next, n - 1, more);
        var u := FilesFrom(s, raw, offsetToFiles, inflate, pos, n, saved);
        assert u.saved[..|saved|] == u.saved[..|more|][..|saved|];
      } else {
        FileError(s, raw, pos, offsetToFiles, inflate);
      }
    }
  }

  /** Unpacking fails with 'Not a PAK archive' exactly when the archive does
      not start with the magic, and then saves nothing. */
  lemma MagicChecked(s: seq<byte>, inflate: seq<byte> -> Option<seq<byte>>)
    ensures UnpackAt(s, inflate).failure == Some(NotPakArchive) <==> !HasMagic(s)
    ensures !HasMagic(s) ==> UnpackAt(s, inflate).saved == []
  {
    if HasMagic(s) && HeaderAt(s, 4).Ok? {
      var h := HeaderAt(s, 4).value.value;
      TableShape(s, h, inflate);
      var t := TableAt(s, h, inflate);
      if t.Ok? {
        FilesFromShape(s, t.value.raw, t.value.offsetToFiles, inflate, 0, h.count, []);
      }
    }
  }

  /** Unpacking fails with 'Bad file table size' exactly when the magic and
      the header are read and the table inflates to a length other than
      `table_size`, and then saves nothing. */
  lemma TableSizeChecked(s: seq<byte>, inflate: seq<byte> -> Option<seq<byte>>)
    ensures var u := UnpackAt(s, inflate);
      && (u.failure == Some(BadFileTableSize) <==>
            && HasMagic(s) && HeaderAt(s, 4).Ok?
            && var h := HeaderAt(s, 4).value.value;
               InflatedTable(s, h, inflate).Some? && |InflatedTable(s, h, inflate).value| != h.tableSize)
      && (u.failure == Some(BadFileTableSize) ==> u.saved == [])
  {
    if HasMagic(s) && HeaderAt(s, 4).Ok? {
      var h := HeaderAt(s, 4).value.value;
      TableShape(s, h, inflate);
      var t := TableAt(s, h, inflate);
      if t.Ok? {
        FilesFromShape(s, t.value.raw, t.value.offsetToFiles, inflate, 0, h.count, []);
      }
    }
  }

  /** An unpacking that does not fail saves exactly `file_count` files. */
  lemma CountSaved(s: seq<byte>, inflate: seq<byte> -> Option<seq<byte>>)
    ensures var u := UnpackAt(s, inflate);
      u.failure.None? ==> && HasMagic(s) && HeaderAt(s, 4).Ok?
                          && |u.saved| == HeaderAt(s, 4).value.value.count
  {
    if HasMagic(s) && HeaderAt(s, 4).Ok? {
      var h := HeaderAt(s, 4).value.value;
      var t := TableAt(s, h, inflate);
      if t.Ok? {
        FilesFromShape(s, t.value.raw, t.value.offsetToFiles, inflate, 0, h.count, []);
      }
    }
  }

  // ---------------------------------------------------------------------------
  // The files in table order

  function EntryReader(raw: seq<byte>): nat -> Result<Parsed<Entry>>
  {
    (pos: nat) => EntryAt(raw, pos)
  }

  /** read_file_table checks nothing about an entry. */
  function NoCheck(): Entry -> Option<Error>
  {
    e => None
  }

  function Reader(s: seq<byte>, offsetToFiles: nat, inflate: seq<byte> -> Option<seq<byte>>): Entry -> Result<File>
  {
    e => match DataAt(s, e, offsetToFiles, inflate)
         case Fail(err) => Fail(err)
         case Ok(data) => Ok(File(e.name, data, Kept))
  }

  /** read_file is the entry at `pos` followed by the read of its data. */
  lemma FileStep(s: seq<byte>, raw: seq<byte>, pos: nat, offsetToFiles: nat, inflate: seq<byte> -> Option<seq<byte>>)
    requires EntryAt(raw, pos).Ok?
    ensures var e := EntryAt(raw, pos).value;
      FileAt(s, raw, pos, offsetToFiles, inflate)
        == match Reader(s, offsetToFiles, inflate)(e.value)
           case Fail(err) => Fail(err)
           case Ok(f) => Ok(Parsed(f, e.next))
  {
  }

  /** When the whole table can be read, reading each entry just before its
      data is the same as reading the table first and then the files in
      table order. */
  lemma {:induction false} FilesFromTable(s: seq<byte>, raw: seq<byte>, offsetToFiles: nat,
                                          inflate: seq<byte> -> Option<seq<byte>>,
                                          pos: nat, n: nat, acc: seq<Entry>, saved: seq<File>)
    requires Entries(EntryReader(raw), NoCheck(), pos, n, acc).Ok?
    ensures var table := Entries(EntryReader(raw), NoCheck(), pos, n, acc).value.value;
      FilesFrom(s, raw, offsetToFiles, inflate, pos, n, saved)
        == Extract(Reader(s, offsetToFiles, inflate), table, |acc|, saved)
    decreases n
  {
    var table := Entries(EntryReader(raw), NoCheck(), pos, n, acc).value.value;
    if n > 0 {
      var e := EntryAt(raw, pos).value;
      EntriesStep(EntryReader(raw), NoCheck(), pos, n, acc);
      EntriesPass(EntryReader(raw), NoCheck(), e.next, n - 1, acc + [e.value]);
      assert table[|acc|] == table[..|acc| + 1][|acc|] == e.value;
      var read := Reader(s, offsetToFiles, inflate);
      FileStep(s, raw, pos, offsetToFiles, inflate);
      if read(e.value).Ok? {
        FilesFromTable(s, raw, offsetToFiles, inflate, e.next, n - 1, acc + [e.value], saved + [read(e.value).value]);
      }
    }
  }

  /** When the table can be read, unpacking hands over the files of its
      entries in table order, each carrying its entry's name: all
      `file_count` of them, or those before the first whose data cannot be read
      together with that file's error. */
  lemma UnpackInOrder(s: seq<byte>, inflate: seq<byte> -> Option<seq<byte>>)
    requires HasMagic(s) && HeaderAt(s, 4).Ok?
    requires var h := HeaderAt(s, 4).value.value;
      TableAt(s, h, inflate).Ok? && Entries(EntryReader(TableAt(s, h, inflate).value.raw), NoCheck(), 0, h.count, []).Ok?
    ensures var h := HeaderAt(s, 4).value.value;
            var t := TableAt(s, h, inflate).value;
            var table := Entries(EntryReader(t.raw), NoCheck(), 0, h.count, []).value.value;
      && |table| == h.count
      && ExtractedInOrder(Reader(s, t.offsetToFiles, inflate), table, UnpackAt(s, inflate))
  {
    var h := HeaderAt(s, 4).value.value;
    var t := TableAt(s, h, inflate).value;
    var table := Entries(EntryReader(t.raw), NoCheck(), 0, h.count, []).value.value;
    EntriesPass(EntryReader(t.raw), NoCheck(), 0, h.count, []);
    FilesFromTable(s, t.raw, t.offsetToFiles, inflate, 0, h.count, [], []);
    ExtractInOrder(Reader(s, t.offsetToFiles, inflate), table);
  }

  /** The file loop is the table reader's loop that reads each entry just
      before its file, with no check on the entry. */
  lemma {:induction false} FilesFromInterleaved(s: seq<byte>, raw: seq<byte>, offsetToFiles: nat,
                                                inflate: seq<byte> -> Option<seq<byte>>, pos: nat, n: nat, saved: seq<File>)
    ensures FilesFrom(s, raw, offsetToFiles, inflate, pos, n, saved)
         == Interleaved(EntryReader(raw), NoCheck(), Reader(s, offsetToFiles, inflate), pos, n, saved)
    decreases n
  {
    if n > 0 && EntryAt(raw, pos).Ok? {
      var e := EntryAt(raw, pos).value;
      var read := Reader(s, offsetToFiles, inflate);
      FileStep(s, raw, pos, offsetToFiles, inflate);
      if read(e.value).Ok? {
        FilesFromInterleaved(s, raw, offsetToFiles, inflate, e.next, n - 1, saved + [read(e.value).value]);
      }
    }
  }

  /** However the unpacking ends, saved file k is the read of entry k of the
      table: the entries up to it can be read, even when a later one cannot. */
  lemma UnpackPrefix(s: seq<byte>, inflate: seq<byte> -> Option<seq<byte>>, k: nat)
    requires k < |UnpackAt(s, inflate).saved|
    ensures && HasMagic(s) && HeaderAt(s, 4).Ok?
            && TableAt(s, HeaderAt(s, 4).value.value, inflate).Ok?
    ensures var t := TableAt(s, HeaderAt(s, 4).value.value, inflate).value;
      ReachesFile(EntryReader(t.raw), NoCheck(), Reader(s, t.offsetToFiles, inflate), 0, [], k, Ok(UnpackAt(s, inflate).saved[k]))
  {
    var h := HeaderAt(s, 4).value.value;
    var t := TableAt(s, h, inflate).value;
    FilesFromInterleaved(s, t.raw, t.offsetToFiles, inflate, 0, h.count, []);
    InterleavedSaved(EntryReader(t.raw), NoCheck(), Reader(s, t.offsetToFiles, inflate), 0, h.count, [], [], k);
  }

  /** An unpacking whose table was read but which still failed stopped at
      entry |saved|: that entry could not be read from the table, or its
      data could not be read, and the failure is that error. */
  lemma UnpackStop(s: seq<byte>, inflate: seq<byte> -> Option<seq<byte>>)
    requires HasMagic(s) && HeaderAt(s, 4).Ok?
    requires TableAt(s, HeaderAt(s, 4).value.value, inflate).Ok?
    requires UnpackAt(s, inflate).failure.Some?
    ensures var u := UnpackAt(s, inflate);
            var t := TableAt(s, HeaderAt(s, 4).value.value, inflate).value;
      StopsAtFile(EntryReader(t.raw), NoCheck(), Reader(s, t.offsetToFiles, inflate), 0, [], |u.saved|, u.failure.value)
  {
    var h := HeaderAt(s, 4).value.value;
    var t := TableAt(s, h, inflate).value;
    FilesFromInterleaved(s, t.raw, t.offsetToFiles, inflate, 0, h.count, []);
    InterleavedStops(EntryReader(t.raw), NoCheck(), Reader(s, t.offsetToFiles, inflate), 0, h.count, [], []);
  }

  // ---------------------------------------------------------------------------
  // The imperative unpacker

  method ReadHeader(arc: Cursor) returns (r: Result<Header>)
    modifies arc
    ensures Finished(HeaderAt(arc.data, old(arc.pos)), r, arc.pos)
  {
    var b := arc.Read(12);
    if b.Fail? {
      return Fail(b.error);
    }
    r := Ok(Header(Le32(b.value[..4]), Le32(b.value[4..8]), Le32(b.value[8..])));
  }

  /** read_file_table up to the loop: the table inflated into a cursor of
      its own, and the offset to the files. */
  method ReadFileTable(arc: Cursor, h: Header, inflate: seq<byte> -> Option<seq<byte>>)
    returns (r: Result<Table>)
    modifies arc
    ensures r == TableAt(arc.data, h, inflate)
    ensures r.Ok? ==> arc.pos == r.value.offsetToFiles
  {
    var at := arc.Seek(TableOrigin);
    if at.Fail? {
      return Fail(at.error);
    }
    var packed := arc.Read(h.compressedTableSize);
    if packed.Fail? {
      return Fail(packed.error);
    }
    var raw := inflate(packed.value);
    if raw.None? {
      return Fail(InflateFailed);
    }
    var offsetToFiles := arc.pos;
    if |raw.value| != h.tableSize {
      return Fail(BadFileTableSize);
    }
    r := Ok(Table(raw.value, offsetToFiles));
  }

  method ReadFileName(table: Cursor) returns (r: Result<seq<byte>>)
    modifies table
    ensures Finished(NameAt(table.data, old(table.pos)), r, table.pos)
  {
    var n := table.ReadU32Le();
    if n.Fail? {
      return Fail(n.error);
    }
    r := table.Read(n.value);
  }

  /** read_file_name, then read(20).unpack('LLxxxxLL'). */
  method ReadEntry(table: Cursor) returns (r: Result<Entry>)
    modifies table
    ensures Finished(EntryAt(table.data, old(table.pos)), r, table.pos)
  {
    var name := ReadFileName(table);
    if name.Fail? {
      return Fail(name.error);
    }
    var fields := table.Read(FieldsSize);
    if fields.Fail? {
      return Fail(fields.error);
    }
    var f := fields.value;
    r := Ok(Entry(name.value, Le32(f[0..4]), Le32(f[4..8]), Le32(f[12..16]), Le32(f[16..20])));
  }

  /** The seek and the read of read_file, inflating when a flag is set. */
  method ReadData(arc: Cursor, e: Entry, offsetToFiles: nat, inflate: seq<byte> -> Option<seq<byte>>)
    returns (r: Result<seq<byte>>)
    modifies arc
    ensures r == DataAt(arc.data, e, offsetToFiles, inflate)
  {
    var at := arc.Seek(e.origin + offsetToFiles);
    if at.Fail? {
      return Fail(at.error);
    }
    if e.flags > 0 {
      var packed := arc.Read(e.sizeCompressed);
      if packed.Fail? {
        return Fail(packed.error);
      }
      var inflated := inflate(packed.value);
      if inflated.None? {
        return Fail(InflateFailed);
      }
      r := Ok(inflated.value);
    } else {
      var stored := arc.Read(e.sizeOriginal);
      if stored.Fail? {
        return Fail(stored.error);
      }
      r := Ok(stored.value);
    }
  }

  method ReadFile(table: Cursor, arc: Cursor, offsetToFiles: nat, inflate: seq<byte> -> Option<seq<byte>>)
    returns (r: Result<File>)
    requires table != arc
    modifies table, arc
    ensures Finished(FileAt(arc.data, table.data, old(table.pos), offsetToFiles, inflate), r, table.pos)
  {
    var e := ReadEntry(table);
    if e.Fail? {
      return Fail(e.error);
    }
    var data := ReadData(arc, e.value, offsetToFiles, inflate);
    if data.Fail? {
      return Fail(data.error);
    }
    r := Ok(File(e.value.name, data.value, Kept));
  }

  method Unpack(arc: Cursor, inflate: seq<byte> -> Option<seq<byte>>) returns (u: Unpacked)
    requires arc.pos == 0
    modifies arc
    ensures u == UnpackAt(arc.data, inflate)
  {
    var magic := arc.Read(4);
    if magic.Fail? || magic.value != Magic {
      return Unpacked([], Some(NotPakArchive));
    }
    var h := ReadHeader(arc);
    if h.Fail? {
      return Unpacked([], Some(h.error));
    }
    var t := ReadFileTable(arc, h.value, inflate);
    if t.Fail? {
      return Unpacked([], Some(t.error));
    }
    var table := new Cursor(t.value.raw);
    var saved: seq<File> := [];
    ghost var whole := FilesFrom(arc.data, t.value.raw, t.value.offsetToFiles, inflate, 0, h.value.count, []);
    for i := 0 to h.value.count
      invariant whole == FilesFrom(arc.data, table.data, t.value.offsetToFiles, inflate, table.pos, h.value.count - i, saved)
    {
      var file := ReadFile(table, arc, t.value.offsetToFiles, inflate);
      if file.Fail? {
        return Unpacked(saved, Some(file.error));
      }
      saved := saved + [file.value];
    }
    u := Unpacked(saved, None);
  }
}
