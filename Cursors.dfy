/** The seekable byte cursor every reader works through (io::IO in the C++
    decoders, the archive file in the Ruby unpackers), and the writable file the
    NSA packer fills. Reads are strict: a read of n bytes fails when fewer than
    n remain. */
module Cursors {
  import opened Base

  /** A value read from position `p` and the position just after it. */
  datatype Parsed<+T> = Parsed(value: T, next: nat)

  // ---------------------------------------------------------------------------
  // What each read does to (bytes, position)

  function SeekTo(s: seq<byte>, to: nat): Result<nat>
  {
    if to <= |s| then Ok(to) else Fail(OutOfBounds)
  }

  function SkipAt(s: seq<byte>, pos: nat, n: nat): Result<nat>
  {
    SeekTo(s, pos + n)
  }

  function ReadAt(s: seq<byte>, pos: nat, n: nat): Result<Parsed<seq<byte>>>
  {
    if pos + n <= |s| then Ok(Parsed(s[pos..pos + n], pos + n)) else Fail(Truncated)
  }

  function U16LeAt(s: seq<byte>, pos: nat): Result<Parsed<nat>>
  {
    var b :- ReadAt(s, pos, 2);
    Ok(Parsed(Le16(b.value), b.next))
  }

  function U32LeAt(s: seq<byte>, pos: nat): Result<Parsed<nat>>
  {
    var b :- ReadAt(s, pos, 4);
    Ok(Parsed(Le32(b.value), b.next))
  }

  /** read_to_zero(n): consumes exactly n bytes and keeps those before the first zero. */
  function ToZeroAt(s: seq<byte>, pos: nat, n: nat): Result<Parsed<seq<byte>>>
  {
    var b :- ReadAt(s, pos, n);
    Ok(Parsed(TakeToZero(b.value), b.next))
  }

  /** The index of the first zero byte at or after `pos`. */
  function ZeroFrom(s: seq<byte>, pos: nat): Option<nat>
    decreases |s| - pos
  {
    if pos >= |s| then None
    else if s[pos] == 0 then Some(pos)
    else ZeroFrom(s, pos + 1)
  }

  /** ZeroFrom finds the first zero at or after `pos`, and None means there is none. */
  lemma {:induction false} ZeroFromFirst(s: seq<byte>, pos: nat)
    ensures var z := ZeroFrom(s, pos);
      && (z.Some? ==> pos <= z.value < |s| && s[z.value] == 0)
      && forall k | pos <= k < |s| && (z.None? || k < z.value) :: s[k] != 0
    decreases |s| - pos
  {
    if pos < |s| && s[pos] != 0 {
      ZeroFromFirst(s, pos + 1);
    }
  }

  /** read_until_zero: the bytes up to the next zero; the zero is consumed too. */
  function UntilZeroAt(s: seq<byte>, pos: nat): Result<Parsed<seq<byte>>>
  {
    match ZeroFrom(s, pos)
    case None => Fail(Truncated)
    case Some(z) => if pos <= z < |s| then Ok(Parsed(s[pos..z], z + 1)) else Fail(Truncated)
  }

  /** read_until_zero at a name with no zero byte followed by a zero gives the name back. */
  lemma UntilZeroName(s: seq<byte>, pos: nat, name: seq<byte>)
    requires pos + |name| < |s| && s[pos..pos + |name|] == name && s[pos + |name|] == 0
    requires forall k | 0 <= k < |name| :: name[k] != 0
    ensures UntilZeroAt(s, pos) == Ok(Parsed(name, pos + |name| + 1))
  {
    ZeroFromFirst(s, pos);
    var z := ZeroFrom(s, pos);
    forall k | pos <= k < pos + |name| ensures s[k] != 0 {
      assert s[k] == name[k - pos];
    }
    assert z.Some? && z.value == pos + |name|;
  }

  /** A cursor method returned what `spec` read and moved to where it ended;
      on failure it stayed where it was. */
  ghost predicate Stepped<T>(spec: Result<Parsed<T>>, r: Result<T>, before: nat, after: nat)
  {
    match spec
    case Ok(p) => r == Ok(p.value) && after == p.next
    case Fail(e) => r == Fail(e) && after == before
  }

  /** A reader returned what `spec` read and, on success, ended where it ends;
      after a failure the position is not specified (the whole read is abandoned). */
  ghost predicate Finished<T>(spec: Result<Parsed<T>>, r: Result<T>, after: nat)
  {
    match spec
    case Ok(p) => r == Ok(p.value) && after == p.next
    case Fail(e) => r == Fail(e)
  }

  // ---------------------------------------------------------------------------

  /** A read position over immutable archive bytes. */
  class Cursor {
    const data: seq<byte>
    var pos: nat

    constructor (data: seq<byte>)
      ensures this.data == data && pos == 0
    {
      this.data := data;
      pos := 0;
    }

    function Size(): nat
    {
      |data|
    }

    method Seek(to: nat) returns (r: Result<nat>)
      modifies this
      ensures r == SeekTo(data, to)
      ensures pos == if r.Ok? then to else old(pos)
    {
      if to <= |data| {
        pos := to;
        r := Ok(to);
      } else {
        r := Fail(OutOfBounds);
      }
    }

    method Skip(n: nat) returns (r: Result<nat>)
      modifies this
      ensures r == SkipAt(data, old(pos), n)
      ensures pos == if r.Ok? then old(pos) + n else old(pos)
    {
      r := Seek(pos + n);
    }

    method Read(n: nat) returns (r: Result<seq<byte>>)
      modifies this
      ensures Stepped(ReadAt(data, old(pos), n), r, old(pos), pos)
    {
      if pos + n <= |data| {
        r := Ok(data[pos..pos + n]);
        pos := pos + n;
      } else {
        r := Fail(Truncated);
      }
    }

    method ReadU16Le() returns (r: Result<nat>)
      modifies this
      ensures Stepped(U16LeAt(data, old(pos)), r, old(pos), pos)
    {
      var b := Read(2);
      if b.Fail? {
        return Fail(b.error);
      }
      r := Ok(Le16(b.value));
    }

    method ReadU32Le() returns (r: Result<nat>)
      modifies this
      ensures Stepped(U32LeAt(data, old(pos)), r, old(pos), pos)
    {
      var b := Read(4);
      if b.Fail? {
        return Fail(b.error);
      }
      r := Ok(Le32(b.value));
    }

    method ReadToZero(n: nat) returns (r: Result<seq<byte>>)
      modifies this
      ensures Stepped(ToZeroAt(data, old(pos), n), r, old(pos), pos)
    {
      var b := Read(n);
      if b.Fail? {
        return Fail(b.error);
      }
      r := Ok(TakeToZero(b.value));
    }

    method ReadUntilZero() returns (r: Result<seq<byte>>)
      modifies this
      ensures Stepped(UntilZeroAt(data, old(pos)), r, old(pos), pos)
    {
      ZeroFromFirst(data, pos);
      var z := pos;
      while z < |data| && data[z] != 0
        invariant pos <= z
        invariant forall k | pos <= k < z && k < |data| :: data[k] != 0
        decreases |data| - z
      {
        z := z + 1;
      }
      if z < |data| {
        r := Ok(data[pos..z]);
        pos := z + 1;
      } else {
        r := Fail(Truncated);
      }
    }
  }

  // ---------------------------------------------------------------------------

  /** The bytes of a file that is written at a position that can be moved back:
      a write overwrites what lies under it and extends the file past its end. */
  function Overwrite(s: seq<byte>, pos: nat, b: seq<byte>): (r: seq<byte>)
    requires pos <= |s|
    ensures |r| == if pos + |b| <= |s| then |s| else pos + |b|
  {
    s[..pos] + b + if pos + |b| <= |s| then s[pos + |b|..] else []
  }

  /** A write leaves the bytes before it, puts its bytes at the position, and
      leaves the bytes after it. */
  lemma OverwriteSlices(s: seq<byte>, pos: nat, b: seq<byte>)
    requires pos <= |s|
    ensures var r := Overwrite(s, pos, b);
      && r[..pos] == s[..pos] && r[pos..pos + |b|] == b
      && (pos + |b| <= |s| ==> r[pos + |b|..] == s[pos + |b|..])
  {
    var r := Overwrite(s, pos, b);
    assert r[..pos] == s[..pos];
    assert r[pos..pos + |b|] == b;
  }

  /** Writing nothing changes nothing. */
  lemma OverwriteNothing(s: seq<byte>, pos: nat)
    requires pos <= |s|
    ensures Overwrite(s, pos, []) == s
  {
    assert s[..pos] + s[pos..] == s;
  }

  /** Writing at the end of a file appends. */
  lemma OverwriteEnd(s: seq<byte>, b: seq<byte>)
    ensures Overwrite(s, |s|, b) == s + b
  {
    assert s[..|s|] == s;
  }

  /** Two writes one after the other inside a file are one write of both. */
  lemma OverwriteThen(s: seq<byte>, pos: nat, a: seq<byte>, b: seq<byte>)
    requires pos + |a| + |b| <= |s|
    ensures Overwrite(Overwrite(s, pos, a), pos + |a|, b) == Overwrite(s, pos, a + b)
  {
    var t := Overwrite(s, pos, a);
    assert t == s[..pos] + a + s[pos + |a|..];
    assert t[..pos + |a|] == s[..pos] + a;
    assert t[pos + |a| + |b|..] == s[pos + |a| + |b|..];
  }

  /** A writable archive file (the packer's arc_file). */
  class Writer {
    var bytes: seq<byte>
    var pos: nat

    constructor ()
      ensures bytes == [] && pos == 0
    {
      bytes := [];
      pos := 0;
    }

    method Write(b: seq<byte>)
      requires pos <= |bytes|
      modifies this
      ensures bytes == Overwrite(old(bytes), old(pos), b) && pos == old(pos) + |b|
    {
      bytes := Overwrite(bytes, pos, b);
      pos := pos + |b|;
    }

    method Seek(to: nat)
      requires to <= |bytes|
      modifies this
      ensures bytes == old(bytes) && pos == to
    {
      pos := to;
    }
  }
}
