/** Bytes, big-endian integers and positional writes. */
module Bytes {

  type byte = b: int | 0 <= b < 256
  type Bytes = seq<byte>

  type u16 = n: int | 0 <= n < 0x1_0000
  type u32 = n: int | 0 <= n < 0x1_0000_0000
  type i32 = n: int | -0x8000_0000 <= n < 0x8000_0000

  lemma Regroup<T>(a: seq<T>, b: seq<T>, c: seq<T>)
    ensures a + (b + c) == (a + b) + c
  {
  }

  function Zeros(n: nat): (z: Bytes)
    ensures |z| == n
  {
    seq(n, _ => 0)
  }

  /** The two bytes `n as u16` is stored as: higher bits are cut off. */
  function Put16(n: nat): (b: Bytes)
    ensures |b| == 2
  {
    [n / 256 % 256, n % 256]
  }

  function U16At(b: Bytes, at: nat): u16
    requires at + 2 <= |b|
  {
    256 * b[at] as int + b[at + 1] as int
  }

  function Pow256(width: nat): (p: nat)
    ensures p > 0
  {
    if width == 0 then 1 else 256 * Pow256(width - 1)
  }

  function ToBE(n: nat, width: nat): (b: Bytes)
    ensures |b| == width
  {
    if width == 0 then [] else ToBE(n / 256, width - 1) + [n % 256]
  }

  function FromBE(b: Bytes): nat {
    if b == [] then 0 else FromBE(b[..|b| - 1]) * 256 + b[|b| - 1]
  }

  lemma {:induction false} FromBEToBE(n: nat, width: nat)
    requires n < Pow256(width)
    ensures FromBE(ToBE(n, width)) == n
  {
    if width > 0 {
      FromBEToBE(n / 256, width - 1);
      var b := ToBE(n, width);
      assert b[..|b| - 1] == ToBE(n / 256, width - 1);
    }
  }

  /** Every byte string is the big-endian form of its number. */
  lemma {:induction false} ToBEFromBE(b: Bytes)
    ensures ToBE(FromBE(b), |b|) == b
  {
    if b != [] {
      ToBEFromBE(b[..|b| - 1]);
      assert b == b[..|b| - 1] + [b[|b| - 1]];
    }
  }

  lemma DivideTwice(n: nat, p: nat)
    requires p > 0
    ensures n / 256 / p == n / (256 * p)
  {
    var m, r := n / 256, n % 256;
    var q, t := m / p, m % p;
    assert m == p * q + t;
    assert n == (256 * p) * q + (256 * t + r);
    DivideSum(q, 256 * t + r, 256 * p);
  }

  lemma DivideSum(q: nat, r: nat, p: nat)
    requires r < p
    ensures (p * q + r) / p == q
  {
    var d, m := (p * q + r) / p, (p * q + r) % p;
    assert p * (d - q) == r - m;
    if d > q { AtLeastOnce(p, d - q); }
    if d < q { AtLeastOnce(p, q - d); }
  }

  lemma AtLeastOnce(p: nat, n: nat)
    requires n > 0
    ensures p * n >= p
  {
  }

  /** Big-endian: byte i counts powers of 256 from the other end. */
  lemma {:induction false} ToBEDigits(n: nat, width: nat, i: nat)
    requires i < width
    ensures ToBE(n, width)[i] == n / Pow256(width - 1 - i) % 256
  {
    if i < width - 1 {
      ToBEDigits(n / 256, width - 1, i);
      DivideTwice(n, Pow256(width - 2 - i));
    }
  }

  /** A u16 is stored big-endian, without its higher bits. */
  lemma Put16Cuts(n: nat)
    ensures FromBE(Put16(n)) == n % 0x1_0000
  {
    TwoDigits(Put16(n));
    var q, high, low := n / 256 / 256, n / 256 % 256, n % 256;
    assert n == 0x1_0000 * q + (256 * high + low);
    DivideSum(q, 256 * high + low, 0x1_0000);
  }

  lemma TwoDigits(b: Bytes)
    requires |b| == 2
    ensures FromBE(b) == 256 * b[0] as int + b[1] as int
  {
    assert b[..1] == [b[0]] && b[..1][..0] == [];
    assert FromBE(b[..1]) == b[0] as int;
  }

  lemma Widths()
    ensures Pow256(1) == 0x100 && Pow256(4) == 0x1_0000_0000
    ensures Pow256(8) == 0x1_0000_0000_0000_0000
  {
    assert Pow256(2) == 0x1_0000;
    assert Pow256(3) == 0x100_0000;
    assert Pow256(5) == 0x100_0000_0000;
    assert Pow256(6) == 0x1_0000_0000_0000;
    assert Pow256(7) == 0x100_0000_0000_0000;
  }

  /** `b` with the bytes from `at` on replaced by `w`. */
  function Splice(b: Bytes, at: nat, w: Bytes): (r: Bytes)
    requires at + |w| <= |b|
    ensures |r| == |b|
  {
    seq(|b|, i requires 0 <= i < |b| => if at <= i < at + |w| then w[i - at] else b[i])
  }

  /** A positional write changes exactly its own window. */
  lemma SpliceWrites(b: Bytes, at: nat, w: Bytes)
    requires at + |w| <= |b|
    ensures Splice(b, at, w)[at..at + |w|] == w
    ensures forall i {:trigger Splice(b, at, w)[i]} ::
              0 <= i < |b| && !(at <= i < at + |w|) ==> Splice(b, at, w)[i] == b[i]
  {
    assert Splice(b, at, w)[at..at + |w|] == w;
  }

  /** A stored u16 reads back. */
  lemma U16ReadsBack(b: Bytes, at: nat, n: u16)
    requires at + 2 <= |b| && b[at..at + 2] == Put16(n)
    ensures U16At(b, at) == n
  {
    assert b[at] == b[at..at + 2][0] && b[at + 1] == b[at..at + 2][1];
  }

  /** `write_at`: writing past the end leaves a hole of zeros. */
  function WriteAt(b: Bytes, at: nat, w: Bytes): (r: Bytes)
    ensures |r| == if at + |w| > |b| then at + |w| else |b|
  {
    var padded := if |b| < at + |w| then b + Zeros(at + |w| - |b|) else b;
    Splice(padded, at, w)
  }

  /** The bytes written, the bytes before and behind them, and the hole. */
  lemma WriteAtBytes(b: Bytes, at: nat, w: Bytes)
    ensures WriteAt(b, at, w)[at..at + |w|] == w
    ensures forall i :: 0 <= i < |b| && !(at <= i < at + |w|) ==> WriteAt(b, at, w)[i] == b[i]
    ensures forall i :: |b| <= i < at && i < |WriteAt(b, at, w)| ==> WriteAt(b, at, w)[i] == 0
  {
    hide Splice;
    var padded := if |b| < at + |w| then b + Zeros(at + |w| - |b|) else b;
    SpliceWrites(padded, at, w);
  }

  /** `copy_from_slice` into part of a buffer. */
  method CopyInto(buf: array<byte>, at: nat, w: Bytes)
    requires at + |w| <= buf.Length
    modifies buf
    ensures buf[..] == Splice(old(buf[..]), at, w)
  {
    for i := 0 to |w|
      invariant buf[..] == Splice(old(buf[..]), at, w[..i])
    {
      buf[at + i] := w[i];
      assert w[..i + 1] == w[..i] + [w[i]];
    }
    assert w[..|w|] == w;
  }
}
