/** The null bitmap in front of every record (src/tables.rs). */
module NullBitmap {
  import opened Bytes
  import opened Values

  function BitmapLength(columns: nat): nat {
    (columns + 7) / 8
  }

  function Pow2(k: nat): (p: nat)
    requires k < 8
    ensures p > 0
  {
    [1, 2, 4, 8, 16, 32, 64, 128][k]
  }

  /** Bit k of a byte: `(b >> k) & 1 == 1`. */
  predicate Bit(b: byte, k: nat)
    requires k < 8
  {
    b / Pow2(k) % 2 == 1
  }

  /** `b | (1 << k)`. */
  function SetBit(b: byte, k: nat): byte
    requires k < 8
  {
    if Bit(b, k) then b else OrIsAdd(b, k); b + Pow2(k)
  }

  lemma OrIsAdd(b: byte, k: nat)
    requires k < 8 && !Bit(b, k)
    ensures b + Pow2(k) < 256
  {
  }

  /** 1 for a Null at index `idx` among the first n values. */
  function NullFlag(vals: Tuple, n: nat, idx: nat): nat {
    if idx < n && idx < |vals| && vals[idx].Null? then 1 else 0
  }

  /** The first j bits of byte k, read as a number: the first column is the high bit. */
  function HighBits(vals: Tuple, n: nat, k: nat, j: nat): (h: nat)
    requires j <= 8
    ensures j < 8 ==> h < Pow2(j)
    ensures h < 256
  {
    if j == 0 then 0 else 2 * HighBits(vals, n, k, j - 1) + NullFlag(vals, n, 8 * k + j - 1)
  }

  /** Byte k of the bitmap of the first n values. */
  function BitmapByte(vals: Tuple, n: nat, k: nat): byte {
    HighBits(vals, n, k, 8)
  }

  function BitmapUpTo(vals: Tuple, n: nat): (b: Bytes)
    ensures |b| == BitmapLength(|vals|)
  {
    seq(BitmapLength(|vals|), k requires 0 <= k < BitmapLength(|vals|) => BitmapByte(vals, n, k))
  }

  function Bitmap(vals: Tuple): Bytes {
    BitmapUpTo(vals, |vals|)
  }

  predicate NullBit(bitmap: Bytes, i: nat)
    requires i / 8 < |bitmap|
  {
    Bit(bitmap[i / 8], 7 - i % 8)
  }

  /** The bit of column i says whether it is Null, for any number of columns. */
  lemma BitmapBits(vals: Tuple, i: nat)
    requires i < |vals|
    ensures i / 8 < |Bitmap(vals)|
    ensures NullBit(Bitmap(vals), i) <==> vals[i].Null?
  {
    ByteBits(vals, |vals|, i / 8, i % 8);
  }

  /** The bytes as they are: column i has bit 7 - i % 8 of byte i / 8, set for a Null, and
      the bits behind the last column are clear. */
  lemma BitmapBytes(vals: Tuple, i: nat)
    requires i < 8 * |Bitmap(vals)|
    ensures |Bitmap(vals)| == (|vals| + 7) / 8
    ensures Bitmap(vals)[i / 8] / [128, 64, 32, 16, 8, 4, 2, 1][i % 8] % 2
         == if i < |vals| && vals[i].Null? then 1 else 0
  {
    hide HighBits;
    ByteBits(vals, |vals|, i / 8, i % 8);
    assert [128, 64, 32, 16, 8, 4, 2, 1][i % 8] == Pow2(7 - i % 8);
  }

  lemma HalveTwice(x: nat, e: nat)
    requires e < 7
    ensures x / Pow2(e + 1) == x / 2 / Pow2(e) && Pow2(e + 1) == 2 * Pow2(e)
  {
  }

  lemma {:induction false} ShiftedHighBits(vals: Tuple, n: nat, k: nat, j: nat, m: nat)
    requires j < m <= 8
    ensures HighBits(vals, n, k, m) / Pow2(m - 1 - j) == HighBits(vals, n, k, j + 1)
  {
    hide Pow2, NullFlag;
    if j + 1 < m {
      ShiftedHighBits(vals, n, k, j, m - 1);
      HalveTwice(HighBits(vals, n, k, m), m - 2 - j);
      DropLastFlag(vals, n, k, m);
    } else {
      ByOne(HighBits(vals, n, k, m));
    }
  }

  lemma ByOne(x: nat)
    ensures x / Pow2(0) == x
  {
  }

  lemma DropLastFlag(vals: Tuple, n: nat, k: nat, m: nat)
    requires 0 < m <= 8
    ensures HighBits(vals, n, k, m) / 2 == HighBits(vals, n, k, m - 1)
  {
    hide Pow2;
  }

  lemma ByteBits(vals: Tuple, n: nat, k: nat, j: nat)
    requires j < 8
    ensures Bit(BitmapByte(vals, n, k), 7 - j) <==> NullFlag(vals, n, 8 * k + j) == 1
  {
    ShiftedHighBits(vals, n, k, j, 8);
  }

  lemma {:induction false} OneMoreFlag(vals: Tuple, n: nat, k: nat, m: nat)
    requires n < |vals| && m <= 8
    ensures HighBits(vals, n + 1, k, m)
         == HighBits(vals, n, k, m)
            + if n / 8 == k && n % 8 < m && vals[n].Null? then Pow2(m - 1 - n % 8) else 0
  {
    if m > 0 {
      OneMoreFlag(vals, n, k, m - 1);
      if n % 8 < m - 1 { HalveTwice(0, m - 2 - n % 8); }
    }
  }

  lemma {:induction false} NoBits(vals: Tuple, k: nat, m: nat)
    requires m <= 8
    ensures HighBits(vals, 0, k, m) == 0
  {
    if m > 0 { NoBits(vals, k, m - 1); }
  }

  lemma NextBit(vals: Tuple, n: nat)
    requires n < |vals|
    ensures BitmapByte(vals, n + 1, n / 8)
         == if vals[n].Null? then SetBit(BitmapByte(vals, n, n / 8), 7 - n % 8) else BitmapByte(vals, n, n / 8)
    ensures forall k: nat :: k != n / 8 ==> BitmapByte(vals, n + 1, k) == BitmapByte(vals, n, k)
  {
    hide HighBits;
    ByteBits(vals, n, n / 8, n % 8);
    forall k: nat
      ensures BitmapByte(vals, n + 1, k)
           == BitmapByte(vals, n, k) + if n / 8 == k && vals[n].Null? then Pow2(7 - n % 8) else 0
    {
      OneMoreFlag(vals, n, k, 8);
    }
  }

  /** `gen_null_bitmap`, setting bits in place. */
  method GenNullBitmap(vals: Tuple) returns (bitmap: Bytes)
    ensures bitmap == Bitmap(vals)
  {
    hide HighBits;
    var bytes := new byte[BitmapLength(|vals|)](_ => 0);
    forall k: nat ensures BitmapByte(vals, 0, k) == 0 { NoBits(vals, k, 8); }
    assert bytes[..] == BitmapUpTo(vals, 0);
    for idx := 0 to |vals|
      invariant bytes[..] == BitmapUpTo(vals, idx)
    {
      NextBit(vals, idx);
      if vals[idx].Null? {
        bytes[idx / 8] := SetBit(bytes[idx / 8], 7 - idx % 8);
      }
    }
    bitmap := bytes[..];
  }
}
