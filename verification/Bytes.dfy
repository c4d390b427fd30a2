/** Machine words and their little-endian image in a block of bytes. */
module Bytes {

  type byte = x: int | 0 <= x < 0x100
  type u32 = x: int | 0 <= x < 0x1_0000_0000
  type u64 = x: int | 0 <= x < 0x1_0000_0000_0000_0000
  type Block = seq<byte>

  function Pow256(n: nat): (p: nat)
    ensures p >= 1
  {
    if n == 0 then 1 else 0x100 * Pow256(n - 1)
  }

  /** The number whose little-endian digits, in base 256, are `s`. */
  function FromBytes(s: seq<byte>): (v: nat)
    ensures v < Pow256(|s|)
  {
    if s == [] then 0 else s[0] + 0x100 * FromBytes(s[1..])
  }

  /** The `n` low little-endian digits of `v`. */
  function ToBytes(v: nat, n: nat): (s: seq<byte>)
    ensures |s| == n
  {
    if n == 0 then [] else [v % 0x100] + ToBytes(v / 0x100, n - 1)
  }

  lemma {:induction false} WordSizes()
    ensures Pow256(4) == 0x1_0000_0000
    ensures Pow256(8) == 0x1_0000_0000_0000_0000
  {
  }

  lemma {:induction false} FromToBytes(v: nat, n: nat)
    requires v < Pow256(n)
    ensures FromBytes(ToBytes(v, n)) == v
  {
    if n > 0 {
      FromToBytes(v / 0x100, n - 1);
      assert ToBytes(v, n)[1..] == ToBytes(v / 0x100, n - 1);
    }
  }

  /** Only a word of 0xff bytes reads as the largest number of its width. */
  lemma {:induction false} AllOnesWord(s: seq<byte>)
    requires FromBytes(s) == Pow256(|s|) - 1
    ensures forall i | 0 <= i < |s| :: s[i] == 0xff
  {
    if s != [] {
      AllOnesWord(s[1..]);
      forall i | 0 <= i < |s| ensures s[i] == 0xff {
        if i > 0 { assert s[i] == s[1..][i - 1]; }
      }
    }
  }

  function U32At(s: seq<byte>, off: nat): u32
    requires off + 4 <= |s|
  {
    WordSizes();
    FromBytes(s[off..off + 4])
  }

  function U64At(s: seq<byte>, off: nat): u64
    requires off + 8 <= |s|
  {
    WordSizes();
    FromBytes(s[off..off + 8])
  }

  /** `s` with the bytes from `off` on overwritten by `t`. */
  function Splice<T>(s: seq<T>, off: nat, t: seq<T>): (r: seq<T>)
    requires off + |t| <= |s|
    ensures |r| == |s|
    ensures forall i | 0 <= i < |s| :: r[i] == if off <= i < off + |t| then t[i - off] else s[i]
  {
    s[..off] + t + s[off + |t|..]
  }

  lemma Stored64(s: seq<byte>, off: nat, v: u64)
    requires off + 8 <= |s| && s[off..off + 8] == ToBytes(v, 8)
    ensures U64At(s, off) == v
  {
    WordSizes();
    FromToBytes(v, 8);
  }

  lemma Stored32(s: seq<byte>, off: nat, v: u32)
    requires off + 4 <= |s| && s[off..off + 4] == ToBytes(v, 4)
    ensures U32At(s, off) == v
  {
    WordSizes();
    FromToBytes(v, 4);
  }

  /** A word is read back from where it was stored, and no word stored elsewhere changes. */
  lemma SpliceU64(s: seq<byte>, off: nat, v: u64)
    requires off + 8 <= |s|
    ensures U64At(Splice(s, off, ToBytes(v, 8)), off) == v
  {
    Stored64(Splice(s, off, ToBytes(v, 8)), off, v);
  }

  lemma SpliceU32(s: seq<byte>, off: nat, v: u32)
    requires off + 4 <= |s|
    ensures U32At(Splice(s, off, ToBytes(v, 4)), off) == v
  {
    Stored32(Splice(s, off, ToBytes(v, 4)), off, v);
  }

  lemma SpliceKeeps64(s: seq<byte>, off: nat, t: seq<byte>, at: nat)
    requires off + |t| <= |s| && at + 8 <= |s|
    requires at + 8 <= off || off + |t| <= at
    ensures U64At(Splice(s, off, t), at) == U64At(s, at)
  {
    assert Splice(s, off, t)[at..at + 8] == s[at..at + 8];
  }

  lemma SpliceKeeps32(s: seq<byte>, off: nat, t: seq<byte>, at: nat)
    requires off + |t| <= |s| && at + 4 <= |s|
    requires at + 4 <= off || off + |t| <= at
    ensures U32At(Splice(s, off, t), at) == U32At(s, at)
  {
    assert Splice(s, off, t)[at..at + 4] == s[at..at + 4];
  }
}
