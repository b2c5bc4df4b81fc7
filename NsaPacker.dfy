/** NScripter NSA archives, the packing side: the header, room for the table
    filled with zeros, the payloads one after another, and finally the table
    written back into the room it was given. */
module NsaPacker {
  import opened Base
  import opened Cursors
  import opened Tables
  import opened Nsa

  /** One of the packer's input files: its name and its contents. */
  datatype Input = Input(name: seq<byte>, data: seq<byte>)

  const Slash: byte := 0x2F
  const Backslash: byte := 0x5C

  /** file_name.gsub('/', '\\'). */
  function Slashes(name: seq<byte>): (r: seq<byte>)
    ensures |r| == |name|
  {
    if name == [] then []
    else [if name[0] == Slash then Backslash else name[0]] + Slashes(name[1..])
  }

  /** No slash is left: each one became a backslash, and every other byte
      stayed where it was. */
  lemma {:induction false} SlashesReplaced(name: seq<byte>)
    ensures forall k | 0 <= k < |name| :: Slashes(name)[k] != Slash
    ensures forall k | 0 <= k < |name| :: name[k] != Slash ==> Slashes(name)[k] == name[k]
    ensures forall k | 0 <= k < |name| :: name[k] == Slash ==> Slashes(name)[k] == Backslash
  {
    if name != [] {
      SlashesReplaced(name[1..]);
      var r := Slashes(name);
      assert forall k | 1 <= k < |name| :: r[k] == Slashes(name[1..])[k - 1] && name[k] == name[1..][k - 1];
    }
  }

  /** "\x00" * n. */
  function Zeros(n: nat): (r: seq<byte>)
    ensures |r| == n && forall k | 0 <= k < n :: r[k] == 0
  {
    seq(n, _ => 0)
  }

  // ---------------------------------------------------------------------------
  // Packer#compress

  /** What compress gives for a type it accepts: LZSS through `encode`, the
      data as is for any type other than SPB and LZSS. */
  function Compressed(data: seq<byte>, kind: nat, encode: seq<byte> -> seq<byte>): seq<byte>
  {
    if kind == LzssCompression then encode(data) else data
  }

  function Compress(data: seq<byte>, kind: nat, encode: seq<byte> -> seq<byte>): Result<seq<byte>>
  {
    if kind == SpbCompression then Fail(SpbUnsupported) else Ok(Compressed(data, kind, encode))
  }

  /** compress and decompress dispatch on the same types: SPB is refused by
      both, and whatever compress gives, decompress turns back into the data
      when the LZSS decoder undoes the encoder. */
  lemma CompressRoundTrip(data: seq<byte>, kind: nat, encode: seq<byte> -> seq<byte>, decode: seq<byte> -> seq<byte>)
    requires kind == LzssCompression ==> decode(encode(data)) == data
    ensures Compress(data, kind, encode).Fail? <==> kind == SpbCompression
    ensures Compress(data, kind, encode).Fail? ==> Decompress(data, kind, decode) == Fail(SpbUnsupported)
    ensures Compress(data, kind, encode).Ok? ==> Decompress(Compress(data, kind, encode).value, kind, decode) == Ok(data)
  {
  }

  // ---------------------------------------------------------------------------
  // Packer#pack as a value

  /** Pieces 0 .. n-1 written one after another. */
  function Concat(piece: nat -> seq<byte>, n: nat): seq<byte>
  {
    if n == 0 then [] else Concat(piece, n - 1) + piece(n - 1)
  }

  /** Piece j lies right after the pieces before it, whatever follows. */
  lemma {:induction false} ConcatSlice(piece: nat -> seq<byte>, j: nat, n: nat)
    requires j < n
    ensures var a := |Concat(piece, j)|;
      && a + |piece(j)| <= |Concat(piece, n)|
      && Concat(piece, n)[a..a + |piece(j)|] == piece(j)
  {
    var a := |Concat(piece, j)|;
    if n == j + 1 {
      assert (Concat(piece, j) + piece(j))[a..a + |piece(j)|] == piece(j);
    } else {
      ConcatSlice(piece, j, n - 1);
      var t := Concat(piece, n - 1);
      assert (t + piece(n - 1))[a..a + |piece(j)|] == t[a..a + |piece(j)|];
    }
  }

  /** Piece j ends inside the first n pieces. */
  lemma {:induction false} ConcatGrows(piece: nat -> seq<byte>, j: nat, n: nat)
    requires j < n
    ensures |Concat(piece, j)| + |piece(j)| <= |Concat(piece, n)|
  {
    if n > j + 1 {
      ConcatGrows(piece, j, n - 1);
    }
  }

  /** Piece j lies after the pieces before it, at the sum of their sizes. */
  lemma ConcatSliceAt(piece: nat -> seq<byte>, size: nat -> nat, j: nat, n: nat)
    requires j < n
    requires forall i | 0 <= i < n :: |piece(i)| == size(i)
    ensures var a := Sum(size, j);
      && a + size(j) <= |Concat(piece, n)|
      && Concat(piece, n)[a..a + size(j)] == piece(j)
  {
    ConcatSize(piece, size, j);
    ConcatSlice(piece, j, n);
  }

  /** A running sum up to j, plus the term at j, is at most the sum up to n. */
  lemma {:induction false} SumPrefix(f: nat -> nat, j: nat, n: nat)
    requires j < n
    ensures Sum(f, j) + f(j) <= Sum(f, n)
  {
    if n > j + 1 {
      SumPrefix(f, j, n - 1);
    }
  }
  /** What compress gives for each file. */
  function DataPiece(files: seq<Input>, kind: nat, encode: seq<byte> -> seq<byte>): nat -> seq<byte>
  {
    (i: nat) => if i < |files| then Compressed(files[i].data, kind, encode) else []
  }

  /** The size of what compress gives for each file. */
  function CompressedSize(files: seq<Input>, kind: nat, encode: seq<byte> -> seq<byte>): nat -> nat
  {
    (i: nat) => if i < |files| then |Compressed(files[i].data, kind, encode)| else 0
  }

  /** The compressed data of the first n files, one after another. */
  function Payload(files: seq<Input>, kind: nat, encode: seq<byte> -> seq<byte>, n: nat): seq<byte>
  {
    Concat(DataPiece(files, kind, encode), n)
  }

  /** The table entry the packer records for file i: its data start where the
      data of the files before it end (relative to the offset to the files). */
  function Row(files: seq<Input>, kind: nat, encode: seq<byte> -> seq<byte>, i: nat): Entry
    requires i < |files|
  {
    Entry(files[i].name, kind, Sum(CompressedSize(files, kind, encode), i),
          |Compressed(files[i].data, kind, encode)|, |files[i].data|)
  }

  /** pack('CL>L>L>') of an entry's type, origin and sizes, each truncated to its width. */
  function FieldBytes(e: Entry): (r: seq<byte>)
    ensures |r| == 13
  {
    [e.kind % 0x100] + Be32Bytes(e.origin % U32) + Be32Bytes(e.sizeCompressed % U32) + Be32Bytes(e.sizeOriginal % U32)
  }

  /** An entry as written: the name with backslashes, a zero, then the fields. */
  function EntryBytes(e: Entry): (r: seq<byte>)
    ensures |r| == |e.name| + 14
  {
    Slashes(e.name) + [0] + FieldBytes(e)
  }

  /** The entries the packer records for the first n files. */
  function Rows(files: seq<Input>, kind: nat, encode: seq<byte> -> seq<byte>, n: nat): (r: seq<Entry>)
    requires n <= |files|
    ensures |r| == n
  {
    if n == 0 then [] else Rows(files, kind, encode, n - 1) + [Row(files, kind, encode, n - 1)]
  }

  lemma {:induction false} RowsAt(files: seq<Input>, kind: nat, encode: seq<byte> -> seq<byte>, n: nat)
    requires n <= |files|
    ensures forall j | 0 <= j < n :: Rows(files, kind, encode, n)[j] == Row(files, kind, encode, j)
  {
    if n > 0 {
      RowsAt(files, kind, encode, n - 1);
    }
  }

  function EntryPiece(rows: seq<Entry>): nat -> seq<byte>
  {
    (i: nat) => if i < |rows| then EntryBytes(rows[i]) else []
  }

  /** The first n entries, as written. */
  function TableBytes(rows: seq<Entry>, n: nat): seq<byte>
  {
    Concat(EntryPiece(rows), n)
  }

  /** f(0) + ... + f(n - 1), as reduce(0, :+) over a map. */
  function Sum(f: nat -> nat, n: nat): nat
  {
    if n == 0 then 0 else Sum(f, n - 1) + f(n - 1)
  }

  /** The room one name takes in the table: its length plus 14. */
  function NameRoom(files: seq<Input>): nat -> nat
  {
    (i: nat) => if i < |files| then |files[i].name| + 14 else 0
  }

  /** table_size over the first n names. */
  function TableSize(files: seq<Input>, n: nat): nat
  {
    Sum(NameRoom(files), n)
  }

  /** pack('S>L>') of the file count and the offset to the files. */
  function HeaderBytes(files: seq<Input>): (r: seq<byte>)
    ensures |r| == 6
  {
    Be16Bytes(|files| % U16) + Be32Bytes((6 + TableSize(files, |files|)) % U32)
  }

  function PackedBytes(files: seq<Input>, kind: nat, encode: seq<byte> -> seq<byte>): seq<byte>
  {
    HeaderBytes(files) + (TableBytes(Rows(files, kind, encode, |files|), |files|) + Payload(files, kind, encode, |files|))
  }

  /** The archive pack writes, or the error it raises: SPB is refused at the
      first file. */
  function Packed(files: seq<Input>, kind: nat, encode: seq<byte> -> seq<byte>): Result<seq<byte>>
  {
    if kind == SpbCompression && |files| > 0 then Fail(SpbUnsupported) else Ok(PackedBytes(files, kind, encode))
  }

  // ---------------------------------------------------------------------------
  // Properties of the layout

  /** Pieces of the given sizes take the sum of the sizes. */
  lemma {:induction false} ConcatSize(piece: nat -> seq<byte>, size: nat -> nat, n: nat)
    requires forall i | 0 <= i < n :: |piece(i)| == size(i)
    ensures |Concat(piece, n)| == Sum(size, n)
  {
    if n > 0 {
      ConcatSize(piece, size, n - 1);
    }
  }

  /** The room reserved for the table is exactly what the table takes. */
  lemma TableBytesSize(files: seq<Input>, kind: nat, encode: seq<byte> -> seq<byte>)
    ensures |TableBytes(Rows(files, kind, encode, |files|), |files|)| == TableSize(files, |files|)
  {
    var rows := Rows(files, kind, encode, |files|);
    RowsAt(files, kind, encode, |files|);
    forall i | 0 <= i < |files| ensures |EntryPiece(rows)(i)| == NameRoom(files)(i) {
      assert |EntryBytes(rows[i])| == |files[i].name| + 14;
    }
    ConcatSize(EntryPiece(rows), NameRoom(files), |files|);
  }

  /** The entries before j, and entry j, fit in the first n entries. */
  lemma TableGrows(rows: seq<Entry>, j: nat, n: nat)
    requires j < n <= |rows|
    ensures |TableBytes(rows, j)| + |EntryBytes(rows[j])| <= |TableBytes(rows, n)|
  {
    ConcatGrows(EntryPiece(rows), j, n);
  }

  /** The payload takes the sum of the compressed sizes. */
  lemma PayloadSize(files: seq<Input>, kind: nat, encode: seq<byte> -> seq<byte>, n: nat)
    ensures |Payload(files, kind, encode, n)| == Sum(CompressedSize(files, kind, encode), n)
  {
    ConcatSize(DataPiece(files, kind, encode), CompressedSize(files, kind, encode), n);
  }

  /** The data of file j lie at its origin: the origins are the running sum of
      the compressed sizes before it. */
  lemma PayloadSlice(files: seq<Input>, kind: nat, encode: seq<byte> -> seq<byte>, j: nat)
    requires j < |files|
    ensures var p := Payload(files, kind, encode, |files|);
            var e := Row(files, kind, encode, j);
      && e.origin + e.sizeCompressed <= |p|
      && p[e.origin..e.origin + e.sizeCompressed] == Compressed(files[j].data, kind, encode)
  {
    ConcatSliceAt(DataPiece(files, kind, encode), CompressedSize(files, kind, encode), j, |files|);
  }

  /** Entry j of the table lies at the room the names before it take. */
  lemma TableAtSlot(files: seq<Input>, kind: nat, encode: seq<byte> -> seq<byte>, j: nat)
    requires j < |files|
    ensures var t := TableBytes(Rows(files, kind, encode, |files|), |files|);
            var eb := EntryBytes(Row(files, kind, encode, j));
            var a := TableSize(files, j);
      a + |eb| <= |t| && t[a..a + |eb|] == eb
  {
    var rows := Rows(files, kind, encode, |files|);
    RowsAt(files, kind, encode, |files|);
    forall i | 0 <= i < |files| ensures |EntryPiece(rows)(i)| == NameRoom(files)(i) {
      assert |EntryBytes(rows[i])| == |files[i].name| + 14;
    }
    ConcatSliceAt(EntryPiece(rows), NameRoom(files), j, |files|);
    assert EntryPiece(rows)(j) == EntryBytes(Row(files, kind, encode, j));
  }

  /** Replacing the zeros of the room by a table of the same size. */
  lemma FillRoom(header: seq<byte>, room: seq<byte>, payload: seq<byte>, table: seq<byte>)
    requires |table| == |room|
    ensures Overwrite(header + room + payload, |header|, table) == header + (table + payload)
  {
    var s := header + room + payload;
    assert s[..|header|] == header;
    assert s[|header| + |table|..] == payload;
  }

  // ---------------------------------------------------------------------------
  // Packing then unpacking

  /** What packing promises to give back: every file under its name with
      slashes turned into backslashes, with its data. */
  function Restored(files: seq<Input>): (r: seq<File>)
    ensures |r| == |files|
  {
    seq(|files|, i requires 0 <= i < |files| => File(Slashes(files[i].name), files[i].data, Kept))
  }

  /** An entry as the unpacker reads it back: its name with slashes turned
      into backslashes, its origin moved past the header and the table. */
  function Rebased(e: Entry, offsetToFiles: nat): Entry
  {
    Entry(Slashes(e.name), e.kind, e.origin + offsetToFiles, e.sizeCompressed, e.sizeOriginal)
  }

  /** The entry the unpacker reads back for file j of a packed archive. */
  function Stored(files: seq<Input>, kind: nat, encode: seq<byte> -> seq<byte>, j: nat): Entry
    requires j < |files|
  {
    Rebased(Row(files, kind, encode, j), 6 + TableSize(files, |files|))
  }

  function StoredOf(files: seq<Input>, kind: nat, encode: seq<byte> -> seq<byte>): nat -> Entry
  {
    (j: nat) => if j < |files| then Stored(files, kind, encode, j) else Entry([], 0, 0, 0, 0)
  }

  /** Where entry j starts in a packed archive. */
  function Slot(files: seq<Input>, kind: nat, encode: seq<byte> -> seq<byte>, j: nat): nat
  {
    6 + TableSize(files, j)
  }

  function SlotOf(files: seq<Input>, kind: nat, encode: seq<byte> -> seq<byte>): nat -> nat
  {
    (j: nat) => Slot(files, kind, encode, j)
  }

  /** The inputs for which nothing the packer writes is truncated and the
      unpacker can find every name's end: the compression is a type the
      unpacker reads back (LZSS only when `decode` undoes `encode`), the
      count fits in 16 bits, no name holds a zero byte, and every offset and
      size fits in 32 bits. */
  ghost predicate Packable(files: seq<Input>, kind: nat, encode: seq<byte> -> seq<byte>, decode: seq<byte> -> seq<byte>)
  {
    && kind < 0x100 && kind != SpbCompression
    && (kind == LzssCompression ==> forall i | 0 <= i < |files| :: decode(encode(files[i].data)) == files[i].data)
    && |files| < U16
    && (forall i, k | 0 <= i < |files| && 0 <= k < |files[i].name| :: files[i].name[k] != 0)
    && (forall i | 0 <= i < |files| :: |files[i].data| < U32)
    && 6 + TableSize(files, |files|) < U32
    && Sum(CompressedSize(files, kind, encode), |files|) < U32
  }

  lemma SliceOfMiddle(h: seq<byte>, t: seq<byte>, p: seq<byte>, a: nat, x: seq<byte>, at: nat)
    requires a + |x| <= |t| && t[a..a + |x|] == x && at == |h| + a
    ensures at + |x| <= |h + (t + p)| && (h + (t + p))[at..at + |x|] == x
  {
    assert (h + (t + p))[at..at + |x|] == (t + p)[a..a + |x|];
  }

  lemma SliceOfLast(h: seq<byte>, t: seq<byte>, p: seq<byte>, a: nat, x: seq<byte>, at: nat)
    requires a + |x| <= |p| && p[a..a + |x|] == x && at == |h| + |t| + a
    ensures at + |x| <= |h + (t + p)| && (h + (t + p))[at..at + |x|] == x
  {
    assert (h + (t + p))[at..at + |x|] == (t + p)[|t| + a..|t| + a + |x|];
  }

  /** The packed fields read back are the recorded ones, when none was truncated. */
  lemma FieldsRoundTrip(name: seq<byte>, e: Entry, offsetToFiles: nat)
    requires e.kind < 0x100 && e.origin < U32 && e.sizeCompressed < U32 && e.sizeOriginal < U32
    ensures Fields(name, FieldBytes(e), offsetToFiles)
         == Entry(name, e.kind, e.origin + offsetToFiles, e.sizeCompressed, e.sizeOriginal)
  {
    var origin, compressed, original := Be32Bytes(e.origin % U32), Be32Bytes(e.sizeCompressed % U32), Be32Bytes(e.sizeOriginal % U32);
    var b := [e.kind % 0x100] + origin + compressed + original;
    assert b[0] == e.kind;
    assert b[1..5] == origin;
    assert b[5..9] == compressed;
    assert b[9..13] == original;
  }

  /** A name with backslashes has a zero byte only where the name had one. */
  lemma SlashesNoZero(name: seq<byte>)
    requires forall k | 0 <= k < |name| :: name[k] != 0
    ensures forall k | 0 <= k < |Slashes(name)| :: Slashes(name)[k] != 0
  {
    SlashesReplaced(name);
  }

  /** An entry as written reads back with its name's slashes turned into
      backslashes and its origin rebased, when none of its fields was truncated. */
  lemma EntryReadBack(s: seq<byte>, at: nat, e: Entry, offsetToFiles: nat)
    requires at + |EntryBytes(e)| <= |s| && s[at..at + |EntryBytes(e)|] == EntryBytes(e)
    requires forall k | 0 <= k < |e.name| :: e.name[k] != 0
    requires e.kind < 0x100 && e.origin < U32 && e.sizeCompressed < U32 && e.sizeOriginal < U32
    ensures EntryAt(s, offsetToFiles, at) == Ok(Parsed(Rebased(e, offsetToFiles), at + |EntryBytes(e)|))
  {
    var eb := EntryBytes(e);
    var name := Slashes(e.name);
    assert s[at..at + |name|] == name by {
      assert s[at..at + |name|] == eb[..|name|];
    }
    assert s[at + |name|] == eb[|name|] == 0;
    assert s[at + |name| + 1..at + |eb|] == FieldBytes(e) by {
      assert s[at + |name| + 1..at + |eb|] == eb[|name| + 1..];
    }
    SlashesNoZero(e.name);
    UntilZeroName(s, at, name);
    FieldsRoundTrip(name, e, offsetToFiles);
  }

  /** Entry j of a packed archive is written at its slot. */
  lemma EntryInPacked(files: seq<Input>, kind: nat, encode: seq<byte> -> seq<byte>, j: nat)
    requires j < |files|
    ensures var s := PackedBytes(files, kind, encode);
            var eb := EntryBytes(Row(files, kind, encode, j));
            var at := Slot(files, kind, encode, j);
      at + |eb| <= |s| && s[at..at + |eb|] == eb
  {
    var t := TableBytes(Rows(files, kind, encode, |files|), |files|);
    var eb := EntryBytes(Row(files, kind, encode, j));
    TableAtSlot(files, kind, encode, j);
    SliceOfMiddle(HeaderBytes(files), t, Payload(files, kind, encode, |files|), TableSize(files, j), eb, Slot(files, kind, encode, j));
  }

  /** Entry j written at its slot of an archive reads back as the stored
      entry j, and ends where entry j + 1 starts. */
  lemma EntryAtSlot(s: seq<byte>, files: seq<Input>, kind: nat, encode: seq<byte> -> seq<byte>, j: nat)
    requires j < |files| && kind < 0x100
    requires forall k | 0 <= k < |files[j].name| :: files[j].name[k] != 0
    requires |files[j].data| < U32 && Sum(CompressedSize(files, kind, encode), |files|) < U32
    requires var eb := EntryBytes(Row(files, kind, encode, j));
             var at := Slot(files, kind, encode, j);
      at + |eb| <= |s| && s[at..at + |eb|] == eb
    ensures EntryAt(s, 6 + TableSize(files, |files|), Slot(files, kind, encode, j))
         == Ok(Parsed(Stored(files, kind, encode, j), Slot(files, kind, encode, j + 1)))
  {
    RowFits(files, kind, encode, j);
    SlotNext(files, kind, encode, j);
    EntryReadsAs(s, Slot(files, kind, encode, j), Row(files, kind, encode, j), 6 + TableSize(files, |files|),
                 Stored(files, kind, encode, j), Slot(files, kind, encode, j + 1));
  }

  lemma EntryReadsAs(s: seq<byte>, at: nat, e: Entry, offsetToFiles: nat, stored: Entry, next: nat)
    requires at + |EntryBytes(e)| <= |s| && s[at..at + |EntryBytes(e)|] == EntryBytes(e)
    requires forall k | 0 <= k < |e.name| :: e.name[k] != 0
    requires e.kind < 0x100 && e.origin < U32 && e.sizeCompressed < U32 && e.sizeOriginal < U32
    requires stored == Rebased(e, offsetToFiles) && next == at + |EntryBytes(e)|
    ensures EntryAt(s, offsetToFiles, at) == Ok(Parsed(stored, next))
  {
    EntryReadBack(s, at, e, offsetToFiles);
  }

  /** None of the fields recorded for file j is truncated when written. */
  lemma RowFits(files: seq<Input>, kind: nat, encode: seq<byte> -> seq<byte>, j: nat)
    requires j < |files| && kind < 0x100
    requires |files[j].data| < U32 && Sum(CompressedSize(files, kind, encode), |files|) < U32
    ensures var e := Row(files, kind, encode, j);
      e.kind < 0x100 && e.origin < U32 && e.sizeCompressed < U32 && e.sizeOriginal < U32
  {
    SumPrefix(CompressedSize(files, kind, encode), j, |files|);
  }

  /** Entry j + 1 starts where entry j ends. */
  lemma SlotNext(files: seq<Input>, kind: nat, encode: seq<byte> -> seq<byte>, j: nat)
    requires j < |files|
    ensures Slot(files, kind, encode, j + 1) == Slot(files, kind, encode, j) + |EntryBytes(Row(files, kind, encode, j))|
  {
  }

  /** A file whose compressed data lie at its entry's origin unpacks to the
      data, when the decoder undoes the compression. */
  lemma FileReadBack(s: seq<byte>, e: Entry, data: seq<byte>, encode: seq<byte> -> seq<byte>, decode: seq<byte> -> seq<byte>)
    requires e.kind != SpbCompression && e.sizeOriginal == |data|
    requires e.kind == LzssCompression ==> decode(encode(data)) == data
    requires e.sizeCompressed == |Compressed(data, e.kind, encode)|
    requires e.origin + e.sizeCompressed <= |s| && s[e.origin..e.origin + e.sizeCompressed] == Compressed(data, e.kind, encode)
    ensures FileAt(s, e, decode) == Ok(File(e.name, data, Kept))
  {
    CompressRoundTrip(data, e.kind, encode, decode);
  }

  /** The data of entry j of a packed archive unpack to file j's data. */
  lemma PackedFile(files: seq<Input>, kind: nat, encode: seq<byte> -> seq<byte>, decode: seq<byte> -> seq<byte>, j: nat)
    requires j < |files| && kind != SpbCompression
    requires kind == LzssCompression ==> decode(encode(files[j].data)) == files[j].data
    ensures FileAt(PackedBytes(files, kind, encode), Stored(files, kind, encode, j), decode)
         == Ok(File(Slashes(files[j].name), files[j].data, Kept))
  {
    TableBytesSize(files, kind, encode);
    PayloadSlice(files, kind, encode, j);
    SliceOfLast(HeaderBytes(files), TableBytes(Rows(files, kind, encode, |files|), |files|), Payload(files, kind, encode, |files|),
                Row(files, kind, encode, j).origin, Compressed(files[j].data, kind, encode), Stored(files, kind, encode, j).origin);
    FileReadBack(PackedBytes(files, kind, encode), Stored(files, kind, encode, j), files[j].data, encode, decode);
  }

  /** A header of a count and an offset inside the archive reads back as
      that count and offset; the entries start after its 6 bytes. */
  lemma HeaderReadBack(s: seq<byte>, count: nat, off: nat, rest: seq<byte>)
    requires count < U16 && off < U32 && off <= |s|
    requires s == Be16Bytes(count % U16) + Be32Bytes(off % U32) + rest
    ensures TableAt(s, 0) == Entries(EntryReader(s, off), OriginCheck(|s|), 6, count, [])
  {
    assert count % U16 == count && off % U32 == off;
    assert s[0..2] == Be16Bytes(count);
    assert s[2..6] == Be32Bytes(off);
    HeaderShape(s, 0);
  }

  /** The header of a packed archive reads back as the file count and the
      offset to the files, which lies inside the archive. */
  lemma PackedHeader(files: seq<Input>, kind: nat, encode: seq<byte> -> seq<byte>)
    requires |files| < U16 && 6 + TableSize(files, |files|) < U32
    ensures var s := PackedBytes(files, kind, encode);
      TableAt(s, 0) == Entries(EntryReader(s, 6 + TableSize(files, |files|)), OriginCheck(|s|), 6, |files|, [])
  {
    var count := |files|;
    var off := 6 + TableSize(files, |files|);
    var rest := TableBytes(Rows(files, kind, encode, |files|), |files|) + Payload(files, kind, encode, |files|);
    TableBytesSize(files, kind, encode);
    assert PackedBytes(files, kind, encode) == Be16Bytes(count % U16) + Be32Bytes(off % U32) + rest;
    HeaderReadBack(PackedBytes(files, kind, encode), count, off, rest);
  }

  /** Every entry of a packed archive can be read at its slot. */
  lemma PackedLaidOut(files: seq<Input>, kind: nat, encode: seq<byte> -> seq<byte>, decode: seq<byte> -> seq<byte>)
    requires Packable(files, kind, encode, decode)
    ensures var s := PackedBytes(files, kind, encode);
      LaidOut(EntryReader(s, 6 + TableSize(files, |files|)), SlotOf(files, kind, encode), StoredOf(files, kind, encode), 0, |files|)
  {
    var s := PackedBytes(files, kind, encode);
    var reader := EntryReader(s, 6 + TableSize(files, |files|));
    var slot := SlotOf(files, kind, encode);
    var entryOf := StoredOf(files, kind, encode);
    forall j | 0 <= j < |files| ensures reader(slot(j)) == Ok(Parsed(entryOf(j), slot(j + 1))) {
      assert forall k | 0 <= k < |files[j].name| :: files[j].name[k] != 0;
      PackedEntry(files, kind, encode, j);
    }
  }

  /** Entry j of a packed archive reads back, at its slot, as the stored
      entry j, and ends where entry j + 1 starts. */
  lemma PackedEntry(files: seq<Input>, kind: nat, encode: seq<byte> -> seq<byte>, j: nat)
    requires j < |files| && kind < 0x100
    requires forall k | 0 <= k < |files[j].name| :: files[j].name[k] != 0
    requires |files[j].data| < U32 && Sum(CompressedSize(files, kind, encode), |files|) < U32
    ensures var reader := EntryReader(PackedBytes(files, kind, encode), 6 + TableSize(files, |files|));
            var slot := SlotOf(files, kind, encode);
      reader(slot(j)) == Ok(Parsed(StoredOf(files, kind, encode)(j), slot(j + 1)))
  {
    var s := PackedBytes(files, kind, encode);
    var offsetToFiles := 6 + TableSize(files, |files|);
    EntryInPacked(files, kind, encode, j);
    EntryAtSlot(s, files, kind, encode, j);
    assert SlotOf(files, kind, encode)(j) == Slot(files, kind, encode, j);
    assert SlotOf(files, kind, encode)(j + 1) == Slot(files, kind, encode, j + 1);
    assert StoredOf(files, kind, encode)(j) == Stored(files, kind, encode, j);
    assert EntryReader(s, offsetToFiles)(Slot(files, kind, encode, j)) == EntryAt(s, offsetToFiles, Slot(files, kind, encode, j));
  }

  /** Every entry of a packed archive passes the unpacker's check. */
  lemma PackedInArchive(files: seq<Input>, kind: nat, encode: seq<byte> -> seq<byte>)
    ensures AllPass(OriginCheck(|PackedBytes(files, kind, encode)|), StoredOf(files, kind, encode), 0, |files|)
  {
    var size := |PackedBytes(files, kind, encode)|;
    TableBytesSize(files, kind, encode);
    PayloadSize(files, kind, encode, |files|);
    forall j | 0 <= j < |files| ensures InArchive(Stored(files, kind, encode, j), size) {
      SumPrefix(CompressedSize(files, kind, encode), j, |files|);
    }
  }

  /** The table of a packed archive reads back as the stored entries, in order. */
  lemma PackedTable(files: seq<Input>, kind: nat, encode: seq<byte> -> seq<byte>, decode: seq<byte> -> seq<byte>)
    requires Packable(files, kind, encode, decode)
    ensures var s := PackedBytes(files, kind, encode);
      && TableAt(s, 0).Ok?
      && |TableAt(s, 0).value.value| == |files|
      && forall j | 0 <= j < |files| :: TableAt(s, 0).value.value[j] == Stored(files, kind, encode, j)
  {
    var s := PackedBytes(files, kind, encode);
    var off := 6 + TableSize(files, |files|);
    PackedHeader(files, kind, encode);
    PackedLaidOut(files, kind, encode, decode);
    PackedInArchive(files, kind, encode);
    assert SlotOf(files, kind, encode)(0) == 6;
    ReadLaidOut(EntryReader(s, off), OriginCheck(|s|), SlotOf(files, kind, encode), StoredOf(files, kind, encode), 0, |files|, []);
  }

  /** Unpacking what pack wrote gives every file back, in order, under its
      name with slashes turned into backslashes. */
  lemma PackRoundTrip(files: seq<Input>, kind: nat, encode: seq<byte> -> seq<byte>, decode: seq<byte> -> seq<byte>)
    requires Packable(files, kind, encode, decode)
    ensures Packed(files, kind, encode) == Ok(PackedBytes(files, kind, encode))
    ensures UnpackAt(PackedBytes(files, kind, encode), decode) == Unpacked(Restored(files), None)
  {
    var s := PackedBytes(files, kind, encode);
    PackedTable(files, kind, encode, decode);
    var t := TableAt(s, 0).value.value;
    var read := Reader(s, decode);
    ExtractInOrder(read, t);
    forall k | 0 <= k < |t| ensures read(t[k]) == Ok(Restored(files)[k]) {
      PackedFile(files, kind, encode, decode, k);
    }
    var u := Extract(read, t, 0, []);
    assert u.saved == Restored(files);
  }

  // ---------------------------------------------------------------------------
  // Packer#pack

  /** The body of the loop that compresses the files: file i's data appended
      and its entry recorded, or the SPB refusal. */
  method WritePayloads(out: Writer, files: seq<Input>, kind: nat, encode: seq<byte> -> seq<byte>)
    returns (r: Result<seq<Entry>>)
    requires out.pos == |out.bytes|
    modifies out
    ensures r.Fail? <==> kind == SpbCompression && |files| > 0
    ensures r.Fail? ==> r.error == SpbUnsupported && out.bytes == old(out.bytes)
    ensures r.Ok? ==> && out.bytes == old(out.bytes) + Payload(files, kind, encode, |files|)
                      && out.pos == |out.bytes|
                      && r.value == Rows(files, kind, encode, |files|)
  {
    ghost var top := out.bytes;
    var origin := 0;
    var rows: seq<Entry> := [];
    for i := 0 to |files|
      invariant out.bytes == top + Payload(files, kind, encode, i) && out.pos == |out.bytes|
      invariant origin == Sum(CompressedSize(files, kind, encode), i)
      invariant rows == Rows(files, kind, encode, i)
      invariant i > 0 ==> kind != SpbCompression
    {
      var compressed := Compress(files[i].data, kind, encode);
      if compressed.Fail? {
        return Fail(compressed.error);
      }
      PayloadStep(top, files, kind, encode, i, compressed.value);
      OverwriteEnd(out.bytes, compressed.value);
      out.Write(compressed.value);
      rows := rows + [Entry(files[i].name, kind, origin, |compressed.value|, |files[i].data|)];
      origin := origin + |compressed.value|;
    }
    r := Ok(rows);
  }

  /** File i's compressed data extend the payload, the running origin and the
      recorded entries by one. */
  lemma PayloadStep(top: seq<byte>, files: seq<Input>, kind: nat, encode: seq<byte> -> seq<byte>, i: nat, c: seq<byte>)
    requires i < |files| && c == Compressed(files[i].data, kind, encode)
    ensures top + Payload(files, kind, encode, i + 1) == top + Payload(files, kind, encode, i) + c
    ensures Sum(CompressedSize(files, kind, encode), i + 1) == Sum(CompressedSize(files, kind, encode), i) + |c|
    ensures Rows(files, kind, encode, i + 1)
         == Rows(files, kind, encode, i) + [Entry(files[i].name, kind, Sum(CompressedSize(files, kind, encode), i), |c|, |files[i].data|)]
  {
    assert Payload(files, kind, encode, i + 1) == Payload(files, kind, encode, i) + c;
  }

  /** One entry written where the cursor stands: the name with backslashes,
      a zero, and the packed fields, in three writes. */
  method WriteEntry(out: Writer, e: Entry)
    requires out.pos + |e.name| + 14 <= |out.bytes|
    modifies out
    ensures out.bytes == Overwrite(old(out.bytes), old(out.pos), EntryBytes(e))
    ensures out.pos == old(out.pos) + |e.name| + 14
  {
    ghost var s, at := out.bytes, out.pos;
    out.Write(Slashes(e.name));
    out.Write([0]);
    out.Write(FieldBytes(e));
    EntryWrites(s, at, e);
  }

  /** The loop after seek(6): the recorded entries written over the zeros. */
  method WriteTable(out: Writer, rows: seq<Entry>)
    requires 6 + |TableBytes(rows, |rows|)| <= |out.bytes|
    modifies out
    ensures out.bytes == Overwrite(old(out.bytes), 6, TableBytes(rows, |rows|))
  {
    ghost var whole := out.bytes;
    out.Seek(6);
    OverwriteNothing(whole, 6);
    assert TableBytes(rows, 0) == [];
    for i := 0 to |rows|
      invariant out.bytes == Overwrite(whole, 6, TableBytes(rows, i)) && |out.bytes| == |whole|
      invariant out.pos == 6 + |TableBytes(rows, i)|
    {
      TableGrows(rows, i, |rows|);
      ghost var before := out.bytes;
      WriteEntry(out, rows[i]);
      TableStep(whole, rows, i, before, out.bytes);
    }
  }

  /** Entry i written after the entries before it extends the table written so far. */
  lemma TableStep(whole: seq<byte>, rows: seq<Entry>, i: nat, before: seq<byte>, after: seq<byte>)
    requires i < |rows| && 6 + |TableBytes(rows, i)| + |EntryBytes(rows[i])| <= |whole|
    requires before == Overwrite(whole, 6, TableBytes(rows, i))
    requires after == Overwrite(before, 6 + |TableBytes(rows, i)|, EntryBytes(rows[i]))
    ensures after == Overwrite(whole, 6, TableBytes(rows, i + 1)) && |after| == |whole|
    ensures |TableBytes(rows, i + 1)| == |TableBytes(rows, i)| + |EntryBytes(rows[i])|
  {
    OverwriteThen(whole, 6, TableBytes(rows, i), EntryBytes(rows[i]));
    assert TableBytes(rows, i + 1) == TableBytes(rows, i) + EntryBytes(rows[i]);
  }

  /** The name, its terminating zero and the fields, written one after
      another, write the entry's bytes. */
  lemma EntryWrites(s: seq<byte>, at: nat, e: Entry)
    requires at + |e.name| + 14 <= |s|
    ensures var name := Slashes(e.name);
      Overwrite(Overwrite(Overwrite(s, at, name), at + |name|, [0]), at + |name| + 1, FieldBytes(e))
        == Overwrite(s, at, EntryBytes(e))
  {
    var name := Slashes(e.name);
    OverwriteThen(s, at, name, [0]);
    OverwriteThen(s, at, name + [0], FieldBytes(e));
  }

  /** The start of pack: the header, then zeros where the table will go. */
  method WriteHead(out: Writer, files: seq<Input>)
    requires out.bytes == [] && out.pos == 0
    modifies out
    ensures out.bytes == HeaderBytes(files) + Zeros(TableSize(files, |files|)) && out.pos == |out.bytes|
  {
    var tableSize := TableSize(files, |files|);
    var offsetToFiles := 6 + tableSize;
    var header := Be16Bytes(|files| % U16) + Be32Bytes(offsetToFiles % U32);
    OverwriteEnd([], header);
    out.Write(header);
    OverwriteEnd(header, Zeros(tableSize));
    out.Write(Zeros(tableSize));
  }

  /** pack: the header and zeros for the table, then the files, then the
      table written back at offset 6. An SPB request fails at the first file,
      leaving the header and the zeros written. */
  method Pack(out: Writer, files: seq<Input>, kind: nat, encode: seq<byte> -> seq<byte>) returns (r: Option<Error>)
    requires out.bytes == [] && out.pos == 0
    modifies out
    ensures match Packed(files, kind, encode)
            case Ok(b) => r == None && out.bytes == b
            case Fail(e) => r == Some(e) && out.bytes == HeaderBytes(files) + Zeros(TableSize(files, |files|))
  {
    WriteHead(out, files);
    var rows := WritePayloads(out, files, kind, encode);
    if rows.Fail? {
      return Some(rows.error);
    }
    TableBytesSize(files, kind, encode);
    WriteTable(out, rows.value);
    FillRoom(HeaderBytes(files), Zeros(TableSize(files, |files|)), Payload(files, kind, encode, |files|), TableBytes(rows.value, |files|));
    r := None;
  }
}
