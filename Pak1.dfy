/** Touhou PAK1 archives (th/pak1): a u16 file count, a table of 0x6C-byte
    entries encrypted with the rolling-XOR cipher, and the payloads, some of
    which are encrypted too. */
module Pak1 {
  import opened Base
  import opened Cursors
  import opened Tables
  import Cipher

  const NameSize: nat := 0x64
  const EntrySize: nat := 0x6C
  /** The only archive size at which a file count of zero is accepted. */
  const EmptyArchiveSize: nat := 6
  const TableKey := Cipher.Params(0x64, 0x64, 0x4D)

  datatype Entry = Entry(name: seq<byte>, offset: nat, size: nat)

  // ---------------------------------------------------------------------------
  // read_table

  /** One entry of the decrypted table: name, LE u32 size, LE u32 offset. */
  function EntryAt(t: seq<byte>, pos: nat): Result<Parsed<Entry>>
  {
    var name :- ToZeroAt(t, pos, NameSize);
    var size :- U32LeAt(t, name.next);
    var offset :- U32LeAt(t, size.next);
    Ok(Parsed(Entry(name.value, offset.value, size.value), offset.next))
  }

  /** The bound check of read_table. The sum is a u32 sum and wraps. */
  predicate Fits(e: Entry, arcSize: nat)
  {
    (e.offset + e.size) % 0x1_0000_0000 <= arcSize
  }

  function EntryReader(t: seq<byte>): nat -> Result<Parsed<Entry>>
  {
    (pos: nat) => EntryAt(t, pos)
  }

  function BoundCheck(arcSize: nat): Entry -> Option<Error>
  {
    e => if Fits(e, arcSize) then None else Some(BadDataOffset)
  }

  /** read_raw_table: the table's bytes, decrypted. */
  function RawTableAt(s: seq<byte>, pos: nat, count: nat): Result<Parsed<seq<byte>>>
  {
    var size := count * EntrySize;
    if pos + size > |s| then Fail(Recognition)
    else Ok(Parsed(Cipher.Transform(s[pos..pos + size], TableKey), pos + size))
  }

  function TableAt(s: seq<byte>, pos: nat): Result<Parsed<seq<Entry>>>
  {
    var count :- U16LeAt(s, pos);
    if count.value == 0 && |s| != EmptyArchiveSize then Fail(Recognition)
    else
      var raw :- RawTableAt(s, count.next, count.value);
      var entries :- Entries(EntryReader(raw.value), BoundCheck(|s|), 0, count.value, []);
      Ok(Parsed(entries.value, raw.next))
  }

  // ---------------------------------------------------------------------------
  // The table by its fixed layout

  /** Where table slot k starts. */
  function Slot(k: nat): nat
  {
    0x6C * k
  }

  /** Entry k of a decrypted table, read at its fixed place k * 0x6C. */
  function EntryOf(t: seq<byte>, k: nat): Entry
    requires Slot(k + 1) <= |t|
  {
    var base := Slot(k);
    Entry(TakeToZero(t[base..base + NameSize]), Le32(t[base + 0x68..base + 0x6C]), Le32(t[base + 0x64..base + 0x68]))
  }

  /** The decrypted table of an archive whose count field is at `pos`. */
  function DecryptedTable(s: seq<byte>, pos: nat, n: nat): (t: seq<byte>)
    requires pos + 2 + Slot(n) <= |s|
    ensures |t| == Slot(n)
  {
    Cipher.Transform(s[pos + 2..pos + 2 + Slot(n)], TableKey)
  }

  lemma EntryAtFixedPlace(t: seq<byte>, k: nat)
    requires Slot(k + 1) <= |t|
    ensures EntryAt(t, Slot(k)) == Ok(Parsed(EntryOf(t, k), Slot(k + 1)))
  {
  }

  /** Entry j of a decrypted table, for every slot that lies inside it. */
  function SlotEntry(t: seq<byte>): nat -> Entry
  {
    (j: nat) => if Slot(j + 1) <= |t| then EntryOf(t, j) else Entry([], 0, 0)
  }

  /** The entries of a decrypted table of n slots. */
  lemma DecryptedEntries(t: seq<byte>, n: nat, arcSize: nat)
    requires |t| == Slot(n)
    ensures var r := Entries(EntryReader(t), BoundCheck(arcSize), 0, n, []);
      && (r.Ok? <==> forall k | 0 <= k < n :: Fits(EntryOf(t, k), arcSize))
      && (r.Fail? ==> r.error == BadDataOffset)
      && (r.Ok? ==> && r.value.next == Slot(n)
                    && |r.value.value| == n
                    && forall k | 0 <= k < n :: r.value.value[k] == EntryOf(t, k))
  {
    forall j | 0 <= j < n
      ensures EntryReader(t)(Slot(j)) == Ok(Parsed(SlotEntry(t)(j), Slot(j + 1)))
    {
      EntryAtFixedPlace(t, j);
    }
    forall k | 0 <= k < n
      ensures SlotEntry(t)(k) == EntryOf(t, k)
      ensures BoundCheck(arcSize)(EntryOf(t, k)).None? <==> Fits(EntryOf(t, k), arcSize)
    {
      assert Slot(k + 1) <= |t|;
    }
    ReadLaidOut(EntryReader(t), BoundCheck(arcSize), Slot, SlotEntry(t), 0, n, []);
    ReadLaidOutError(EntryReader(t), BoundCheck(arcSize), Slot, SlotEntry(t), 0, n, []);
  }

  /** read_table, once the count is known: refused unless the table fits,
      otherwise the entries of the decrypted table. */
  lemma TableAtSized(s: seq<byte>, pos: nat)
    requires pos + 2 <= |s|
    ensures var n := Le16(s[pos..pos + 2]);
            var sized := (n != 0 || |s| == EmptyArchiveSize) && pos + 2 + Slot(n) <= |s|;
      && (!sized ==> TableAt(s, pos) == Fail(Recognition))
      && (sized ==>
            TableAt(s, pos) == match Entries(EntryReader(DecryptedTable(s, pos, n)), BoundCheck(|s|), 0, n, [])
                               case Fail(e) => Fail(e)
                               case Ok(t) => Ok(Parsed(t.value, pos + 2 + Slot(n))))
  {
  }

  /** read_table accepts an archive exactly when the count is non-zero (or the
      archive is 6 bytes long), the 0x6C-byte entries fit in what follows the
      count, and every entry passes the u32 bound check. It then returns one
      entry per table slot, in on-disk order, and stops right after the table. */
  lemma TableShape(s: seq<byte>, pos: nat)
    requires pos + 2 <= |s|
    ensures var n := Le16(s[pos..pos + 2]);
            var r := TableAt(s, pos);
            var sized := (n != 0 || |s| == EmptyArchiveSize) && pos + 2 + Slot(n) <= |s|;
      && (!sized ==> r == Fail(Recognition))
      && (sized ==>
            var t := DecryptedTable(s, pos, n);
            && (r.Ok? <==> forall k | 0 <= k < n :: Fits(EntryOf(t, k), |s|))
            && (r.Fail? ==> r.error == BadDataOffset)
            && (r.Ok? ==> && |r.value.value| == n
                          && r.value.next == pos + 2 + Slot(n)
                          && forall k | 0 <= k < n :: r.value.value[k] == EntryOf(t, k)))
  {
    TableAtSized(s, pos);
    var n := Le16(s[pos..pos + 2]);
    if (n != 0 || |s| == EmptyArchiveSize) && pos + 2 + Slot(n) <= |s| {
      DecryptedEntries(DecryptedTable(s, pos, n), n, |s|);
    }
  }

  /** The bound check is done in u32 arithmetic, so it lets through an entry
      that ends far past the archive: 0xFFFFFFFF + 1 wraps to 0. */
  lemma FitsWraps()
    ensures Fits(Entry([], 0xFFFF_FFFF, 1), EmptyArchiveSize)
    ensures 0xFFFF_FFFF + 1 > EmptyArchiveSize
  {
  }

  // ---------------------------------------------------------------------------
  // read_file

  /** The payload parameters, chosen by the first pattern the name contains. */
  function PayloadKey(name: seq<byte>): Option<Cipher.Params>
  {
    if Contains(name, Ascii("musicroom.dat")) then Some(Cipher.Params(0x5C, 0x5A, 0x3D))
    else if Contains(name, Ascii(".sce")) then Some(Cipher.Params(0x63, 0x62, 0x42))
    else if Contains(name, Ascii("cardlist.dat")) then Some(Cipher.Params(0x60, 0x61, 0x41))
    else None
  }

  /** The file made from an entry's stored bytes: decrypted and given the
      extension .txt when the name matches a pattern, copied unchanged otherwise. */
  function Decoded(name: seq<byte>, stored: seq<byte>): File
  {
    match PayloadKey(name)
    case None => File(name, stored, Kept)
    case Some(key) => File(name, Cipher.Transform(stored, key), ChangedTo(Ascii(".txt")))
  }

  function FileAt(s: seq<byte>, e: Entry): Result<File>
  {
    var at :- SeekTo(s, e.offset);
    var stored :- ReadAt(s, at, e.size);
    Ok(Decoded(e.name, stored.value))
  }

  /** read_file succeeds exactly when the entry lies inside the archive; the
      file keeps the entry's name and size, and encrypting its data again with
      the key its name selects gives back the stored bytes. */
  lemma FileShape(s: seq<byte>, e: Entry)
    ensures FileAt(s, e).Ok? <==> e.offset + e.size <= |s|
    ensures FileAt(s, e).Fail? ==> FileAt(s, e).error == (if e.offset > |s| then OutOfBounds else Truncated)
    ensures FileAt(s, e).Ok? ==>
      var f := FileAt(s, e).value;
      var stored := s[e.offset..e.offset + e.size];
      && f.name == e.name && |f.data| == e.size
      && match PayloadKey(e.name)
         case None => f.data == stored && f.extension == Kept
         case Some(key) => Cipher.Transform(f.data, key) == stored && f.extension == ChangedTo(Ascii(".txt"))
  {
    if e.offset + e.size <= |s| {
      var stored := s[e.offset..e.offset + e.size];
      match PayloadKey(e.name)
      case None =>
      case Some(key) => Cipher.TransformInvolution(stored, key);
    }
  }

  // ---------------------------------------------------------------------------
  // unpack

  function Reader(s: seq<byte>): Entry -> Result<File>
  {
    e => FileAt(s, e)
  }

  /** unpack_internal: read the table, then save one file per entry in order. */
  function UnpackAt(s: seq<byte>, pos: nat): Unpacked
  {
    match TableAt(s, pos)
    case Fail(e) => Unpacked([], Some(e))
    case Ok(t) => Extract(Reader(s), t.value, 0, [])
  }

  /** Nothing reaches the saver unless the whole table was read; then the saved
      files are those of the table's entries, in table order. */
  lemma UnpackShape(s: seq<byte>, pos: nat)
    ensures var u := UnpackAt(s, pos);
      match TableAt(s, pos)
      case Fail(e) => u == Unpacked([], Some(e))
      case Ok(t) => ExtractedInOrder(Reader(s), t.value, u)
  {
    if TableAt(s, pos).Ok? {
      ExtractInOrder(Reader(s), TableAt(s, pos).value.value);
    }
  }

  // ---------------------------------------------------------------------------
  // The imperative reader

  method ReadRawTable(arc: Cursor, count: nat) returns (r: Result<seq<byte>>)
    modifies arc
    ensures Stepped(RawTableAt(arc.data, old(arc.pos), count), r, old(arc.pos), arc.pos)
  {
    var size := count * EntrySize;
    if size > arc.Size() - arc.pos {
      return Fail(Recognition);
    }
    var bytes := arc.Read(size);
    var stored := bytes.value;
    var buffer := new byte[size](k requires 0 <= k < size => stored[k]);
    assert buffer[..] == stored;
    Cipher.Decrypt(buffer, TableKey);
    r := Ok(buffer[..]);
  }

  method ReadEntry(table: Cursor) returns (r: Result<Entry>)
    modifies table
    ensures Finished(EntryAt(table.data, old(table.pos)), r, table.pos)
  {
    var name := table.ReadToZero(NameSize);
    if name.Fail? {
      return Fail(name.error);
    }
    var size := table.ReadU32Le();
    if size.Fail? {
      return Fail(size.error);
    }
    var offset := table.ReadU32Le();
    if offset.Fail? {
      return Fail(offset.error);
    }
    r := Ok(Entry(name.value, offset.value, size.value));
  }

  method ReadTable(arc: Cursor) returns (r: Result<seq<Entry>>)
    modifies arc
    ensures Finished(TableAt(arc.data, old(arc.pos)), r, arc.pos)
  {
    var count := arc.ReadU16Le();
    if count.Fail? {
      return Fail(count.error);
    }
    var n := count.value;
    if n == 0 && arc.Size() != EmptyArchiveSize {
      return Fail(Recognition);
    }
    var raw := ReadRawTable(arc, n);
    if raw.Fail? {
      return Fail(raw.error);
    }
    var table := new Cursor(raw.value);
    r := ReadEntries(table, n, arc.Size());
  }

  /** A decrypted table whose every slot passes the bound check reads as those slots. */
  lemma EntriesAllFit(t: seq<byte>, n: nat, arcSize: nat, entries: seq<Entry>)
    requires |t| == Slot(n) && |entries| == n
    requires forall k | 0 <= k < n :: entries[k] == EntryOf(t, k) && Fits(entries[k], arcSize)
    ensures Entries(EntryReader(t), BoundCheck(arcSize), 0, n, []) == Ok(Parsed(entries, Slot(n)))
  {
    DecryptedEntries(t, n, arcSize);
    var r := Entries(EntryReader(t), BoundCheck(arcSize), 0, n, []);
    assert r.value.value == entries;
  }

  /** A decrypted table with a slot that fails the bound check is refused. */
  lemma EntriesMisfit(t: seq<byte>, n: nat, arcSize: nat, i: nat)
    requires |t| == Slot(n) && i < n && !Fits(EntryOf(t, i), arcSize)
    ensures Entries(EntryReader(t), BoundCheck(arcSize), 0, n, []) == Fail(BadDataOffset)
  {
    DecryptedEntries(t, n, arcSize);
  }

  /** The loop of read_table over a decrypted table of n slots. */
  method ReadEntries(table: Cursor, n: nat, arcSize: nat) returns (r: Result<seq<Entry>>)
    requires table.pos == 0 && |table.data| == Slot(n)
    modifies table
    ensures Finished(Entries(EntryReader(table.data), BoundCheck(arcSize), 0, n, []), r, table.pos)
  {
    var entries: seq<Entry> := [];
    for i := 0 to n
      invariant table.pos == Slot(i) && |entries| == i
      invariant forall k | 0 <= k < i :: entries[k] == EntryOf(table.data, k) && Fits(entries[k], arcSize)
    {
      EntryAtFixedPlace(table.data, i);
      var entry := ReadEntry(table);
      if !Fits(entry.value, arcSize) {
        EntriesMisfit(table.data, n, arcSize, i);
        return Fail(BadDataOffset);
      }
      entries := entries + [entry.value];
    }
    EntriesAllFit(table.data, n, arcSize, entries);
    r := Ok(entries);
  }

  method ReadFile(arc: Cursor, e: Entry) returns (r: Result<File>)
    modifies arc
    ensures r == FileAt(arc.data, e)
  {
    var at := arc.Seek(e.offset);
    if at.Fail? {
      return Fail(at.error);
    }
    var bytes := arc.Read(e.size);
    if bytes.Fail? {
      return Fail(bytes.error);
    }
    var stored := bytes.value;
    var buffer := new byte[|stored|](k requires 0 <= k < |stored| => stored[k]);
    assert buffer[..] == stored;
    var extension := Kept;
    if Contains(e.name, Ascii("musicroom.dat")) {
      Cipher.Decrypt(buffer, Cipher.Params(0x5C, 0x5A, 0x3D));
      extension := ChangedTo(Ascii(".txt"));
    } else if Contains(e.name, Ascii(".sce")) {
      Cipher.Decrypt(buffer, Cipher.Params(0x63, 0x62, 0x42));
      extension := ChangedTo(Ascii(".txt"));
    } else if Contains(e.name, Ascii("cardlist.dat")) {
      Cipher.Decrypt(buffer, Cipher.Params(0x60, 0x61, 0x41));
      extension := ChangedTo(Ascii(".txt"));
    }
    r := Ok(File(e.name, buffer[..], extension));
  }

  /** is_recognized_internal: true exactly when read_table raises nothing. */
  method IsRecognized(arc: Cursor) returns (recognized: bool)
    modifies arc
    ensures recognized == TableAt(arc.data, old(arc.pos)).Ok?
  {
    var table := ReadTable(arc);
    recognized := table.Ok?;
  }

  method Unpack(arc: Cursor) returns (u: Unpacked)
    modifies arc
    ensures u == UnpackAt(arc.data, old(arc.pos))
  {
    var table := ReadTable(arc);
    if table.Fail? {
      return Unpacked([], Some(table.error));
    }
    var entries := table.value;
    var saved: seq<File> := [];
    for i := 0 to |entries|
      invariant Extract(Reader(arc.data), entries, 0, []) == Extract(Reader(arc.data), entries, i, saved)
    {
      var file := ReadFile(arc, entries[i]);
      if file.Fail? {
        return Unpacked(saved, Some(file.error));
      }
      saved := saved + [file.value];
    }
    u := Unpacked(saved, None);
  }
}
