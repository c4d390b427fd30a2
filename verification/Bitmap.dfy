/** A bitmap laid over a buffer of bytes, bit `i` being bit `i % 8` of byte `i / 8`. */
module Bitmaps {
  import opened Bytes

  const BITS_PER_BYTE: nat := 8
  const BITS_PER_WORD: nat := 64

  datatype Option<+T> = None | Some(value: T)

  // ---- Single bits ----

  function Pow2(n: nat): (p: nat)
    ensures p >= 1
  {
    if n == 0 then 1 else 2 * Pow2(n - 1)
  }

  /** Binary digit `k` of `b`, counted from the least significant one. */
  predicate Bit(b: nat, k: nat) {
    if k == 0 then b % 2 == 1 else Bit(b / 2, k - 1)
  }

  /** `b` with binary digit `k` replaced: `b | 1 << k` when `on`, `b & ~(1 << k)` otherwise. */
  function PutBit(b: nat, k: nat, on: bool): nat {
    if k == 0 then b - b % 2 + (if on then 1 else 0) else b % 2 + 2 * PutBit(b / 2, k - 1, on)
  }

  lemma {:induction false} PutBitBit(b: nat, k: nat, on: bool, j: nat)
    ensures Bit(PutBit(b, k, on), j) == if j == k then on else Bit(b, j)
  {
    if k > 0 {
      assert PutBit(b, k, on) / 2 == PutBit(b / 2, k - 1, on);
      if j > 0 { PutBitBit(b / 2, k - 1, on, j - 1); }
    } else if j > 0 {
      assert PutBit(b, k, on) / 2 == b / 2;
    }
  }

  lemma PutBitHalf(b: nat, k: nat, on: bool)
    ensures PutBit(b, k, on) <= 2 * (if k == 0 then b / 2 else PutBit(b / 2, k - 1, on)) + 1
  {
  }

  lemma {:induction false} PutBitBound(b: nat, k: nat, on: bool, w: nat)
    requires k < w && b < Pow2(w)
    ensures PutBit(b, k, on) < Pow2(w)
  {
    hide *;
    Doubles(w - 1);
    PutBitHalf(b, k, on);
    Halves(b, Pow2(w - 1));
    if k > 0 { PutBitBound(b / 2, k - 1, on, w - 1); }
  }

  lemma Doubles(w: nat)
    ensures Pow2(w + 1) == 2 * Pow2(w)
  {
  }

  lemma Halves(b: nat, p: nat)
    ensures b < 2 * p ==> b / 2 < p
  {
  }

  function PutByteBit(b: byte, k: nat, on: bool): byte
    requires k < 8
  {
    assert Pow2(4) == 16 && Pow2(8) == 256;
    PutBitBound(b, k, on, 8);
    PutBit(b, k, on)
  }

  lemma {:induction false} AllOnesBits(b: nat, w: nat, k: nat)
    requires b == Pow2(w) - 1 && k < w
    ensures Bit(b, k)
  {
    if k > 0 { AllOnesBits(b / 2, w - 1, k - 1); }
  }

  // ---- Bits of a buffer ----

  predicate BitAt(s: seq<byte>, i: nat)
    requires i < 8 * |s|
  {
    Bit(s[i / 8], i % 8)
  }

  function PutBitAt(s: seq<byte>, i: nat, on: bool): (r: seq<byte>)
    requires i < 8 * |s|
    ensures |r| == |s|
  {
    s[i / 8 := PutByteBit(s[i / 8], i % 8, on)]
  }

  /** Storing a bit changes that bit and no other. */
  lemma PutBitAtBit(s: seq<byte>, i: nat, on: bool, j: nat)
    requires i < 8 * |s| && j < 8 * |s|
    ensures BitAt(PutBitAt(s, i, on), j) == if i == j then on else BitAt(s, j)
  {
    if i / 8 == j / 8 {
      PutBitBit(s[i / 8], i % 8, on, j % 8);
    }
  }

  /** The number of clear bits among the first `n`. */
  function Zeros(s: seq<byte>, n: nat): nat
    requires n <= 8 * |s|
  {
    if n == 0 then 0 else Zeros(s, n - 1) + if BitAt(s, n - 1) then 0 else 1
  }

  /** Setting a clear bit takes one from the count of clear bits, clearing a set one adds one. */
  lemma {:induction false} PutBitZeros(s: seq<byte>, i: nat, on: bool, n: nat)
    requires n <= 8 * |s| && i < 8 * |s|
    ensures Zeros(PutBitAt(s, i, on), n)
         == Zeros(s, n) + if i >= n || BitAt(s, i) == on then 0 else if on then -1 else 1
  {
    if n > 0 {
      PutBitZeros(s, i, on, n - 1);
      PutBitAtBit(s, i, on, n - 1);
    }
  }

  lemma AllZeroBits(s: seq<byte>, i: nat)
    requires forall k | 0 <= k < |s| :: s[k] == 0
    requires i < 8 * |s|
    ensures !BitAt(s, i)
  {
    ZeroBit(i % 8);
  }

  lemma {:induction false} ZeroBit(k: nat)
    ensures !Bit(0, k)
  {
    if k > 0 { ZeroBit(k - 1); }
  }

  /** A word equal to `~u64(0)` has its 64 bits set, so the search may skip it. */
  lemma FullWord(s: seq<byte>, w: nat)
    requires 8 * w + 8 <= |s|
    requires U64At(s, 8 * w) == 0xffff_ffff_ffff_ffff
    ensures forall i | 64 * w <= i < 64 * w + 64 :: BitAt(s, i)
  {
    WordSizes();
    AllOnesWord(s[8 * w..8 * w + 8]);
    forall i | 64 * w <= i < 64 * w + 64 ensures BitAt(s, i) {
      assert s[i / 8] == s[8 * w..8 * w + 8][i / 8 - 8 * w] == 0xff;
      assert Pow2(4) == 16 && Pow2(8) == 256;
      AllOnesBits(0xff, 8, i % 8);
    }
  }

  /** `r` is the least clear bit below `n`, if there is one. */
  ghost predicate IsFirstFree(s: seq<byte>, n: nat, r: Option<nat>)
    requires n <= 8 * |s|
  {
    match r
    case None => forall i | 0 <= i < n :: BitAt(s, i)
    case Some(k) => k < n && !BitAt(s, k) && forall i | 0 <= i < k :: BitAt(s, i)
  }

  function Min(a: nat, b: nat): nat {
    if a < b then a else b
  }

  /** How far `find_first_free_w_bound` looks: it takes the words from the refined bound but the
      trailing bits from the bound it was given. */
  function ScanLimit(payload: nat, bits: nat): nat {
    Min(8 * payload, bits) / 64 * 64 + bits % 64
  }

  /** The search honours its bound for every bound within the bitmap; past it, only when both
      bounds leave the same remainder of a word. */
  lemma ScanLimitExact(payload: nat, bits: nat)
    ensures ScanLimit(payload, bits) == Min(8 * payload, bits)
       <==> bits <= 8 * payload || bits % 64 == 8 * payload % 64
    ensures var m := if bits <= 8 * payload then bits else 8 * payload;
      Min(8 * payload, bits) == m && ScanLimit(payload, bits) == m - m % 64 + bits % 64
  {
  }

  class Bitmap {
    const data: array<byte>
    const payload: nat

    constructor (data: array<byte>, payload: nat)
      requires payload <= data.Length
      ensures this.data == data && this.payload == payload
    {
      this.data, this.payload := data, payload;
    }

    ghost predicate Valid() {
      payload <= data.Length
    }

    ghost function Contents(): (s: seq<byte>)
      requires Valid()
      reads data
      ensures |s| == payload
    {
      data[..payload]
    }

    method Zeroed()
      requires Valid()
      modifies data
      ensures forall i | 0 <= i < payload :: data[i] == 0
      ensures forall i | payload <= i < data.Length :: data[i] == old(data[i])
    {
      forall i | 0 <= i < payload { data[i] := 0; }
    }

    method Set(index: nat)
      requires Valid() && index < 8 * payload
      modifies data
      ensures Contents() == PutBitAt(old(Contents()), index, true)
      ensures data[payload..] == old(data[payload..])
    {
      data[index / BITS_PER_BYTE] := PutByteBit(data[index / BITS_PER_BYTE], index % BITS_PER_BYTE, true);
    }

    method Clear(index: nat)
      requires Valid() && index < 8 * payload
      modifies data
      ensures Contents() == PutBitAt(old(Contents()), index, false)
      ensures data[payload..] == old(data[payload..])
    {
      data[index / BITS_PER_BYTE] := PutByteBit(data[index / BITS_PER_BYTE], index % BITS_PER_BYTE, false);
    }

    method Check(index: nat) returns (on: bool)
      requires Valid() && index < 8 * payload
      ensures on == BitAt(Contents(), index)
    {
      on := Bit(data[index / BITS_PER_BYTE], index % BITS_PER_BYTE);
    }

    method CountOnes() returns (ones: nat)
      requires Valid()
      ensures ones + Zeros(Contents(), 8 * payload) == 8 * payload
    {
      ones := 0;
      for i := 0 to payload * BITS_PER_BYTE
        invariant ones + Zeros(Contents(), i) == i
      {
        var on := Check(i);
        if on { ones := ones + 1; }
      }
    }

    method CountZeros() returns (zeros: nat)
      requires Valid()
      ensures zeros == Zeros(Contents(), 8 * payload)
    {
      var totalBits := payload * BITS_PER_BYTE;
      var ones := CountOnes();
      zeros := totalBits - ones;
    }

    method CountZerosToBound(upbound: nat) returns (zeros: nat)
      requires Valid() && upbound <= 8 * payload
      ensures zeros == Zeros(Contents(), upbound)
    {
      zeros := 0;
      for i := 0 to upbound
        invariant zeros == Zeros(Contents(), i)
      {
        var on := Check(i);
        if !on { zeros := zeros + 1; }
      }
    }

    method FindFirstFree() returns (r: Option<nat>)
      requires Valid()
      ensures IsFirstFree(Contents(), 8 * payload, r)
    {
      r := FindFirstFreeWithBound(payload * BITS_PER_BYTE);
    }

    /** Skips whole words of ones, then looks at the remaining bits one by one. */
    method FindFirstFreeWithBound(bits: nat) returns (r: Option<nat>)
      requires Valid() && ScanLimit(payload, bits) <= 8 * payload
      ensures IsFirstFree(Contents(), ScanLimit(payload, bits), r)
    {
      var refinedBits := Min(payload * BITS_PER_BYTE, bits);
      var numWords := refinedBits / BITS_PER_WORD;
      for i := 0 to numWords
        invariant forall k | 0 <= k < 64 * i :: BitAt(Contents(), k)
      {
        if U64At(data[..payload], 8 * i) != 0xffff_ffff_ffff_ffff {
          for j := 0 to BITS_PER_WORD
            invariant forall k | 0 <= k < 64 * i + j :: BitAt(Contents(), k)
          {
            var on := Check(i * BITS_PER_WORD + j);
            if !on { return Some(i * BITS_PER_WORD + j); }
          }
        } else {
          FullWord(Contents(), i);
        }
      }
      var numRemainingBits := bits % BITS_PER_WORD;
      for i := 0 to numRemainingBits
        invariant forall k | 0 <= k < 64 * numWords + i :: BitAt(Contents(), k)
      {
        var on := Check(i + numWords * BITS_PER_WORD);
        if !on { return Some(i + numWords * BITS_PER_WORD); }
      }
      r := None;
    }
  }
}
