/** Values shared by every archive format: bytes, the errors the readers raise,
    integer fields, and the files an unpacker hands to its saver. */
module Base {

  /** A byte, as an integer; the cipher's exclusive-or and wrap-around are written out. */
  type byte = x: int | 0 <= x < 0x100

  const U16: nat := 0x1_0000
  const U32: nat := 0x1_0000_0000

  /** The failures the readers raise. The C++ decoders throw typed errors; the
      Ruby unpackers raise ArcError with a message, one constructor per message. */
  datatype Error =
    | Truncated         // a read needs more bytes than remain
    | OutOfBounds       // a seek past the end of the input
    | Recognition       // err::RecognitionError
    | BadDataOffset     // err::BadDataOffsetError
    | BadOffsetToFiles  // 'Bad offset to files'
    | BadOffsetToFile   // 'Bad offset to file'
    | BadFileSize       // 'Bad file size'
    | SpbUnsupported    // 'SPB compression not supported!'
    | NotPakArchive     // 'Not a PAK archive'
    | BadFileTableSize  // 'Bad file table size'
    | InflateFailed     // zlib raised while inflating

  datatype Option<+T> = None | Some(value: T)

  datatype Result<+T> = Ok(value: T) | Fail(error: Error) {
    predicate IsFailure() { Fail? }
    function PropagateFailure<U>(): Result<U> requires Fail? { Fail(error) }
    function Extract(): T requires Ok? { value }
  }

  // ---------------------------------------------------------------------------
  // Integer fields

  function Le16(s: seq<byte>): (n: nat)
    requires |s| == 2
    ensures n < U16
  {
    s[0] as int + 0x100 * (s[1] as int)
  }

  function Le32(s: seq<byte>): (n: nat)
    requires |s| == 4
    ensures n < U32
  {
    s[0] as int + 0x100 * (s[1] as int) + 0x1_0000 * (s[2] as int) + 0x100_0000 * (s[3] as int)
  }

  function Be16(s: seq<byte>): (n: nat)
    requires |s| == 2
    ensures n < U16
  {
    0x100 * (s[0] as int) + s[1] as int
  }

  function Be32(s: seq<byte>): (n: nat)
    requires |s| == 4
    ensures n < U32
  {
    0x100_0000 * (s[0] as int) + 0x1_0000 * (s[1] as int) + 0x100 * (s[2] as int) + s[3] as int
  }

  /** The low `width` bytes of n, most significant first. */
  function BeBytes(n: nat, width: nat): (s: seq<byte>)
    ensures |s| == width
  {
    if width == 0 then [] else BeBytes(n / 0x100, width - 1) + [(n % 0x100) as byte]
  }

  lemma Be16RoundTrip(n: nat)
    requires n < U16
    ensures Be16(BeBytes(n, 2)) == n
  {
    assert BeBytes(n, 2) == [(n / 0x100 % 0x100) as byte, (n % 0x100) as byte];
  }

  lemma Be32RoundTrip(n: nat)
    requires n < U32
    ensures Be32(BeBytes(n, 4)) == n
  {
    var s := BeBytes(n, 4);
    assert s[3] == n % 0x100;
    assert s[..3] == BeBytes(n / 0x100, 3);
    assert s[2] == n / 0x100 % 0x100;
    assert s[..2] == BeBytes(n / 0x1_0000, 2);
    assert s[1] == n / 0x1_0000 % 0x100;
    assert s[0] == n / 0x100_0000 % 0x100;
  }

  /** Ruby's pack('S>') of a value already reduced below 2^16. */
  function Be16Bytes(n: nat): (s: seq<byte>)
    requires n < U16
    ensures |s| == 2 && Be16(s) == n
  {
    Be16RoundTrip(n);
    BeBytes(n, 2)
  }

  /** Ruby's pack('L>') of a value already reduced below 2^32. */
  function Be32Bytes(n: nat): (s: seq<byte>)
    requires n < U32
    ensures |s| == 4 && Be32(s) == n
  {
    Be32RoundTrip(n);
    BeBytes(n, 4)
  }

  // ---------------------------------------------------------------------------
  // Byte strings

  /** The part of a fixed-width name field before its first zero byte. */
  function TakeToZero(s: seq<byte>): (r: seq<byte>)
    ensures r <= s
    ensures forall k | 0 <= k < |r| :: r[k] != 0
    ensures |r| == |s| || s[|r|] == 0
  {
    if s == [] || s[0] == 0 then [] else [s[0]] + TakeToZero(s[1..])
  }

  /** `pat` occurs in `s` starting at index `i`. */
  ghost predicate OccursAt(s: seq<byte>, pat: seq<byte>, i: nat)
  {
    i + |pat| <= |s| && s[i..i + |pat|] == pat
  }

  /** std::string::find(pat) != npos. */
  predicate Contains(s: seq<byte>, pat: seq<byte>)
    decreases |s|
  {
    pat <= s || (s != [] && Contains(s[1..], pat))
  }

  /** Contains is a substring search: it holds exactly when `pat` occurs somewhere in `s`. */
  lemma {:induction false} ContainsIsSubstring(s: seq<byte>, pat: seq<byte>)
    ensures Contains(s, pat) <==> exists i: nat :: OccursAt(s, pat, i)
    decreases |s|
  {
    assert OccursAt(s, pat, 0) <==> pat <= s;
    if s != [] {
      ContainsIsSubstring(s[1..], pat);
      forall i: nat | OccursAt(s[1..], pat, i) ensures OccursAt(s, pat, i + 1) {
        assert s[i + 1..i + 1 + |pat|] == s[1..][i..i + |pat|];
      }
      forall i: nat | i > 0 && OccursAt(s, pat, i) ensures OccursAt(s[1..], pat, i - 1) {
        assert s[i..i + |pat|] == s[1..][i - 1..i - 1 + |pat|];
      }
      if Contains(s, pat) && !(pat <= s) {
        var j: nat :| OccursAt(s[1..], pat, j);
        assert OccursAt(s, pat, j + 1);
      }
      if i: nat :| OccursAt(s, pat, i) {
        if i > 0 {
          assert OccursAt(s[1..], pat, i - 1);
        }
      }
    } else {
      forall i: nat | OccursAt(s, pat, i) ensures pat <= s {
        assert i == 0;
      }
    }
  }

  /** ASCII text as bytes. */
  function Ascii(text: string): (s: seq<byte>)
    requires forall k | 0 <= k < |text| :: text[k] as int < 0x80
    ensures |s| == |text|
  {
    seq(|text|, k requires 0 <= k < |text| => text[k] as int)
  }

  // ---------------------------------------------------------------------------
  // Extracted files

  /** What happened to a file's extension: kept, rewritten (File::change_extension),
      or left to content sniffing (File::guess_extension, not part of this model). */
  datatype Extension = Kept | ChangedTo(ext: seq<byte>) | Guessed

  datatype File = File(name: seq<byte>, data: seq<byte>, extension: Extension)

  /** The files handed to the saver, in order, and the error that stopped the
      unpacking, if any. Files saved before a failure stay saved. */
  datatype Unpacked = Unpacked(saved: seq<File>, failure: Option<Error>)

  /** Extracting the entries of a table in order from index `i`, after `saved`,
      stopping at the first entry whose file cannot be read. */
  function Extract<E>(read: E -> Result<File>, table: seq<E>, i: nat, saved: seq<File>): Unpacked
    decreases |table| - i
  {
    if i >= |table| then Unpacked(saved, None)
    else match read(table[i])
      case Fail(e) => Unpacked(saved, Some(e))
      case Ok(f) => Extract(read, table, i + 1, saved + [f])
  }

  /** `u` holds the files of the first entries of `table`, in table order, and
      either all of them or the error of the first entry that failed. */
  ghost predicate ExtractedInOrder<E>(read: E -> Result<File>, table: seq<E>, u: Unpacked)
  {
    && |u.saved| <= |table|
    && (forall k | 0 <= k < |u.saved| :: read(table[k]) == Ok(u.saved[k]))
    && (u.failure.None? ==> |u.saved| == |table|)
    && (u.failure.Some? ==> |u.saved| < |table| && read(table[|u.saved|]) == Fail(u.failure.value))
  }

  lemma {:induction false} ExtractFrom<E>(read: E -> Result<File>, table: seq<E>, i: nat, saved: seq<File>)
    requires i <= |table| && |saved| == i
    requires forall k | 0 <= k < i :: read(table[k]) == Ok(saved[k])
    ensures ExtractedInOrder(read, table, Extract(read, table, i, saved))
    decreases |table| - i
  {
    if i < |table| {
      match read(table[i])
      case Fail(_) =>
      case Ok(f) => ExtractFrom(read, table, i + 1, saved + [f]);
    }
  }

  /** An unpacker that extracts a table hands the saver the files of its
      entries in table order, up to the first entry that fails. */
  lemma ExtractInOrder<E>(read: E -> Result<File>, table: seq<E>)
    ensures ExtractedInOrder(read, table, Extract(read, table, 0, []))
  {
    ExtractFrom(read, table, 0, []);
  }
}
