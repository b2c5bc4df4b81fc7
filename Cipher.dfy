/** The rolling-XOR stream cipher of the Touhou PAK1 archives: every byte is
    XORed with a key, the key grows by a step, and the step grows by a delta,
    all modulo 256. */
module Cipher {
  import opened Base

  // ---------------------------------------------------------------------------
  // Bitwise exclusive or on bytes

  function Pow2(k: nat): (p: nat)
    ensures p >= 1
  {
    if k == 0 then 1 else 2 * Pow2(k - 1)
  }

  /** Bitwise exclusive or, one bit at a time from the lowest. */
  function XorBits(x: nat, y: nat): nat
    decreases x + y
  {
    if x == 0 && y == 0 then 0
    else (x % 2 + y % 2) % 2 + 2 * XorBits(x / 2, y / 2)
  }

  lemma HalveOdd(bit: nat, rest: nat)
    requires bit < 2
    ensures (bit + 2 * rest) % 2 == bit && (bit + 2 * rest) / 2 == rest
  {
  }

  /** The lowest bit of x XOR y is the parity of the lowest bits; the rest is
      the XOR of the rest. */
  lemma XorBitsStep(x: nat, y: nat)
    ensures XorBits(x, y) % 2 == (x % 2 + y % 2) % 2
    ensures XorBits(x, y) / 2 == XorBits(x / 2, y / 2)
  {
    if x != 0 || y != 0 {
      HalveOdd((x % 2 + y % 2) % 2, XorBits(x / 2, y / 2));
    }
  }

  lemma {:induction false} XorBitsBelow(x: nat, y: nat, k: nat)
    requires x < Pow2(k) && y < Pow2(k)
    ensures XorBits(x, y) < Pow2(k)
    decreases x + y
  {
    if x != 0 || y != 0 {
      assert k > 0;
      XorBitsBelow(x / 2, y / 2, k - 1);
    }
  }

  /** Zero is the identity of XOR. */
  lemma {:induction false} XorZero(y: nat)
    ensures XorBits(0, y) == y
    decreases y
  {
    if y != 0 {
      XorZero(y / 2);
      HalveOdd(y % 2, y / 2);
    }
  }

  lemma ParityTwice(a: nat, b: nat)
    requires a < 2 && b < 2
    ensures ((a + b) % 2 + b) % 2 == a
  {
  }

  /** A number is its lowest bit plus twice the rest. */
  lemma Halves(x: nat, y: nat)
    requires x % 2 == y % 2 && x / 2 == y / 2
    ensures x == y
  {
  }

  /** XORing twice with the same value gives the value back. */
  lemma {:induction false} XorBitsTwice(x: nat, y: nat)
    ensures XorBits(XorBits(x, y), y) == x
    decreases x + y
  {
    if x + y > 0 {
      var c := XorBits(x, y);
      var d := XorBits(c, y);
      XorBitsStep(x, y);
      XorBitsStep(c, y);
      XorBitsTwice(x / 2, y / 2);
      ParityTwice(x % 2, y % 2);
      Halves(d, x);
    }
  }

  function Xor(x: byte, y: byte): byte
  {
    XorBitsBelow(x, y, 8);
    XorBits(x, y)
  }

  lemma XorTwice(x: byte, y: byte)
    ensures Xor(Xor(x, y), y) == x
  {
    XorBitsTwice(x, y);
  }

  /** Addition in a u8, as the C++ `a += b` on u8 values. */
  function Add8(x: byte, y: byte): byte
  {
    (x + y) % 0x100
  }

  // ---------------------------------------------------------------------------
  // The keystream

  /** The parameters of one pass: initial key, initial step and step delta. */
  datatype Params = Params(a: byte, b: byte, delta: byte)

  /** The key and the step in force at a byte position. */
  datatype KeyState = KeyState(key: byte, step: byte)

  /** k(0) = a, k(i+1) = k(i) + b(i); b(0) = b, b(i+1) = b(i) + delta. */
  function StateAt(p: Params, i: nat): KeyState
  {
    if i == 0 then KeyState(p.a, p.b)
    else
      var s := StateAt(p, i - 1);
      KeyState(Add8(s.key, s.step), Add8(s.step, p.delta))
  }

  function Key(p: Params, i: nat): byte
  {
    StateAt(p, i).key
  }

  /** 0 + 1 + ... + (n - 1). */
  function Triangle(n: nat): nat
  {
    if n == 0 then 0 else Triangle(n - 1) + (n - 1)
  }

  /** x * y as x copies of y, so that the proofs below stay linear. */
  function Mul(x: nat, y: nat): nat
  {
    if x == 0 then 0 else Mul(x - 1, y) + y
  }

  /** Mul is the product. */
  lemma {:induction false} MulIsProduct(x: nat, y: nat)
    ensures Mul(x, y) == x * y
  {
    if x > 0 {
      MulIsProduct(x - 1, y);
      assert (x - 1) * y + y == x * y;
    }
  }

  /** Triangle(n) is n(n-1)/2. */
  lemma {:induction false} TriangleClosed(n: nat)
    ensures 2 * Triangle(n) == n * (n - 1)
  {
    if n > 0 {
      TriangleClosed(n - 1);
      assert (n - 1) * (n - 2) + 2 * (n - 1) == n * (n - 1);
    }
  }

  lemma {:induction false} MulAddLeft(x: nat, y: nat, d: nat)
    ensures Mul(x + y, d) == Mul(x, d) + Mul(y, d)
    decreases y
  {
    if y > 0 {
      MulAddLeft(x, y - 1, d);
      assert Mul(x + y, d) == Mul(x + y - 1, d) + d;
    }
  }

  lemma ModAdd(x: nat, y: nat)
    ensures (x % 0x100 + y % 0x100) % 0x100 == (x + y) % 0x100
  {
    var qx, qy := x / 0x100, y / 0x100;
    assert x == qx * 0x100 + x % 0x100;
    assert y == qy * 0x100 + y % 0x100;
  }

  lemma ModAddLeft(x: nat, y: nat)
    ensures (x % 0x100 + y) % 0x100 == (x + y) % 0x100
  {
    var qx := x / 0x100;
    assert x == qx * 0x100 + x % 0x100;
  }

  /** The step in closed form: b(i) = b + i*delta (mod 256). */
  lemma {:induction false} StepClosedForm(p: Params, i: nat)
    ensures StateAt(p, i).step == (p.b + Mul(i, p.delta)) % 0x100
  {
    if i > 0 {
      var j := i - 1;
      var y := p.b + Mul(j, p.delta);
      StepClosedForm(p, j);
      assert StateAt(p, i).step == (y % 0x100 + p.delta) % 0x100;
      ModAddLeft(y, p.delta);
      assert y + p.delta == p.b + Mul(i, p.delta);
    }
  }

  /** The keystream in closed form: k(i) = a + i*b + (0 + 1 + ... + (i-1))*delta (mod 256). */
  lemma {:induction false} KeyClosedForm(p: Params, i: nat)
    ensures Key(p, i) == (p.a + Mul(i, p.b) + Mul(Triangle(i), p.delta)) % 0x100
  {
    if i > 0 {
      var j := i - 1;
      var x := p.a + Mul(j, p.b) + Mul(Triangle(j), p.delta);
      var y := p.b + Mul(j, p.delta);
      KeyClosedForm(p, j);
      StepClosedForm(p, j);
      assert Key(p, i) == (x % 0x100 + y % 0x100) % 0x100;
      ModAdd(x, y);
      MulAddLeft(Triangle(j), j, p.delta);
      assert Mul(i, p.b) == Mul(j, p.b) + p.b;
      assert Triangle(i) == Triangle(j) + j;
      assert x + y == p.a + Mul(i, p.b) + Mul(Triangle(i), p.delta);
    }
  }

  // ---------------------------------------------------------------------------
  // The transform

  /** The buffer transformed from the state `k` on: each byte XORed with the key
      in force, then the state advanced. */
  function TransformFrom(s: seq<byte>, p: Params, k: KeyState): (r: seq<byte>)
    ensures |r| == |s|
    decreases |s|
  {
    if s == [] then []
    else [Xor(s[0], k.key)] + TransformFrom(s[1..], p, KeyState(Add8(k.key, k.step), Add8(k.step, p.delta)))
  }

  /** decrypt(buffer, a, b, delta), as a value. */
  function Transform(s: seq<byte>, p: Params): (r: seq<byte>)
    ensures |r| == |s|
  {
    TransformFrom(s, p, StateAt(p, 0))
  }

  lemma {:induction false} TransformFromAt(s: seq<byte>, p: Params, i: nat)
    ensures |TransformFrom(s, p, StateAt(p, i))| == |s|
    ensures forall j | 0 <= j < |s| :: TransformFrom(s, p, StateAt(p, i))[j] == Xor(s[j], Key(p, i + j))
    decreases |s|
  {
    if s != [] {
      TransformFromAt(s[1..], p, i + 1);
      var t := TransformFrom(s, p, StateAt(p, i));
      assert t == [Xor(s[0], Key(p, i))] + TransformFrom(s[1..], p, StateAt(p, i + 1));
      forall j | 1 <= j < |s| ensures t[j] == Xor(s[j], Key(p, i + j)) {
        assert t[j] == TransformFrom(s[1..], p, StateAt(p, i + 1))[j - 1];
      }
    }
  }

  /** The transform keeps the length and XORs byte i with key i, a key that
      depends on the parameters and the position only, never on the data. */
  lemma TransformAt(s: seq<byte>, p: Params)
    ensures |Transform(s, p)| == |s|
    ensures forall i | 0 <= i < |s| :: Transform(s, p)[i] == Xor(s[i], Key(p, i))
  {
    TransformFromAt(s, p, 0);
  }

  /** Decrypting twice with the same parameters restores the buffer. */
  lemma TransformInvolution(s: seq<byte>, p: Params)
    ensures Transform(Transform(s, p), p) == s
  {
    var t := Transform(s, p);
    TransformAt(s, p);
    TransformAt(t, p);
    forall i | 0 <= i < |s| ensures Transform(t, p)[i] == s[i] {
      XorTwice(s[i], Key(p, i));
    }
  }

  /** The table key of PAK1 applied to four zero bytes. */
  lemma TableKeyVector()
    ensures Transform([0, 0, 0, 0], Params(0x64, 0x64, 0x4D)) == [0x64, 0xC8, 0x79, 0x77]
  {
    var p := Params(0x64, 0x64, 0x4D);
    assert StateAt(p, 1) == KeyState(0xC8, 0xB1);
    assert StateAt(p, 2) == KeyState(0x79, 0xFE);
    assert StateAt(p, 3).key == 0x77;
    TransformAt([0, 0, 0, 0], p);
    forall i | 0 <= i < 4 ensures Xor(0, Key(p, i)) == Key(p, i) {
      XorZero(Key(p, i));
    }
  }

  /** decrypt: transforms the buffer in place. */
  method Decrypt(buffer: array<byte>, p: Params)
    modifies buffer
    ensures buffer[..] == Transform(old(buffer[..]), p)
  {
    var a, b := p.a, p.b;
    for i := 0 to buffer.Length
      invariant KeyState(a, b) == StateAt(p, i)
      invariant forall j | 0 <= j < i :: buffer[j] == Xor(old(buffer[j]), Key(p, j))
      invariant forall j | i <= j < buffer.Length :: buffer[j] == old(buffer[j])
    {
      buffer[i] := Xor(buffer[i], a);
      a := Add8(a, b);
      b := Add8(b, p.delta);
    }
    TransformAt(old(buffer[..]), p);
  }
}
