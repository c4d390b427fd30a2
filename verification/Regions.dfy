/** A bitmap that spreads over consecutive blocks of the device. */
module Regions {
  import opened Bitmaps
  import opened BlockDevice

  /** How many full rows of length `m` come before place `i`: `i / m`, by repeated subtraction. */
  function Row(i: nat, m: nat): (q: nat)
    requires m > 0
  {
    if i < m then 0 else 1 + Row(i - m, m)
  }

  /** The place of `i` within its row: `i % m`. */
  function Col(i: nat, m: nat): (r: nat)
    requires m > 0
    ensures r < m
  {
    if i < m then i else Col(i - m, m)
  }

  lemma {:induction false} RowCol(i: nat, m: nat)
    requires m > 0
    ensures i == Row(i, m) * m + Col(i, m)
  {
    if i >= m {
      RowCol(i - m, m);
      assert Row(i, m) * m == Row(i - m, m) * m + m;
    }
  }

  lemma {:induction false} RowColAt(q: nat, r: nat, m: nat)
    requires r < m
    ensures Row(q * m + r, m) == q && Col(q * m + r, m) == r
  {
    if q > 0 {
      assert q * m == (q - 1) * m + m;
      RowColAt(q - 1, r, m);
    }
  }

  lemma RowColUnique(i: nat, m: nat, q: nat, r: nat)
    requires m > 0 && r < m
    ensures i == q * m + r <==> Row(i, m) == q && Col(i, m) == r
  {
    RowCol(i, m);
    RowColAt(q, r, m);
  }

  lemma SamePlace(i: nat, k: nat, m: nat)
    requires m > 0
    ensures i == k <==> Row(i, m) == Row(k, m) && Col(i, m) == Col(k, m)
  {
  }

  lemma DivMod(i: nat, m: nat) returns (q: nat, r: nat)
    requires m > 0
    ensures q == i / m && r == i % m
    ensures i == q * m + r && r < m
  {
    q, r := i / m, i % m;
  }

  lemma RowColDivMod(i: nat, m: nat)
    requires m > 0
    ensures Row(i, m) == i / m && Col(i, m) == i % m
  {
    var q, r := DivMod(i, m);
    RowColAt(q, r, m);
  }

  /** The number of rows of length `m` that `n` places need. */
  function CeilDiv(n: nat, m: nat): nat
    requires m > 0
  {
    if n % m != 0 then n / m + 1 else n / m
  }

  lemma CeilDivBounds(n: nat, m: nat)
    requires m > 0
    ensures n <= CeilDiv(n, m) * m < n + m
    ensures n > 0 ==> CeilDiv(n, m) > 0 && (CeilDiv(n, m) - 1) * m < n
  {
  }

  lemma MulLess(a: nat, b: nat, m: nat)
    requires a * m < b * m
    ensures a < b
  {
  }

  lemma CeilDivUnique(n: nat, m: nat, c: nat)
    requires m > 0 && n <= c * m < n + m
    ensures c == CeilDiv(n, m)
  {
    CeilDivBounds(n, m);
    var d := CeilDiv(n, m);
    assert (c + 1) * m == c * m + m && (d + 1) * m == d * m + m;
    MulLess(c, d + 1, m);
    MulLess(d, c + 1, m);
  }

  /** Place `k` comes before place `i`: in an earlier row, or earlier in the same row. */
  ghost predicate Before(k: nat, m: nat, q: nat, r: nat)
    requires m > 0
  {
    Row(k, m) < q || (Row(k, m) == q && Col(k, m) < r)
  }

  lemma RowOrder(p: nat, a: nat, q: nat, b: nat, m: nat)
    requires a < m && b < m && p < q
    ensures p * m + a < q * m + b
  {
    MulMono(p + 1, q, m);
  }

  lemma BeforeIsLess(k: nat, i: nat, m: nat)
    requires m > 0
    ensures k < i <==> Before(k, m, Row(i, m), Col(i, m))
  {
    RowCol(k, m);
    RowCol(i, m);
    var p, a, q, b := Row(k, m), Col(k, m), Row(i, m), Col(i, m);
    if p < q {
      RowOrder(p, a, q, b, m);
    } else if q < p {
      RowOrder(q, b, p, a, m);
    }
  }

  lemma NextPlace(i: nat, m: nat)
    requires m > 0
    ensures Col(i, m) + 1 < m ==> Row(i + 1, m) == Row(i, m) && Col(i + 1, m) == Col(i, m) + 1
    ensures Col(i, m) + 1 == m ==> Row(i + 1, m) == Row(i, m) + 1 && Col(i + 1, m) == 0
  {
    RowCol(i, m);
    if Col(i, m) + 1 < m {
      RowColAt(Row(i, m), Col(i, m) + 1, m);
    } else {
      assert (Row(i, m) + 1) * m == Row(i, m) * m + m;
      RowColAt(Row(i, m) + 1, 0, m);
    }
  }

  /** `n` places fill `cnt` rows, the last one up to `last`. */
  ghost predicate FillsRows(n: nat, m: nat, cnt: nat, last: nat)
    requires m > 0
  {
    && 0 < cnt && 0 < last <= m
    && forall k: nat {:trigger Row(k, m)} {:trigger Inside(k, m, cnt, last)} :: k < n <==> Inside(k, m, cnt, last)
  }

  ghost predicate Inside(k: nat, m: nat, cnt: nat, last: nat)
    requires m > 0 && cnt > 0
  {
    Before(k, m, cnt - 1, last)
  }

  lemma RowsFilled(n: nat, m: nat, cnt: nat, last: nat)
    requires m > 0 && cnt > 0 && 0 < last <= m && n == (cnt - 1) * m + last
    ensures FillsRows(n, m, cnt, last)
  {
    var i: nat := n - 1;
    RowColAt(cnt - 1, last - 1, m);
    assert Row(i, m) == cnt - 1 && Col(i, m) == last - 1;
    forall k: nat ensures k < n <==> Inside(k, m, cnt, last) {
      BeforeIsLess(k, i, m);
      RowColUnique(k, m, cnt - 1, last - 1);
      assert k < n <==> k < i || k == i;
    }
  }

  /** The length of the last row that `n` places need. */
  function LastRow(n: nat, m: nat): nat
    requires m > 0
  {
    RowColDivMod(n, m);
    if CeilDiv(n, m) * m == n then m else n % m
  }

  lemma LastRowFills(n: nat, m: nat)
    requires m > 0 && n > 0
    ensures FillsRows(n, m, CeilDiv(n, m), LastRow(n, m))
  {
    var q, r := DivMod(n, m);
    var c := CeilDiv(n, m);
    CeilDivBounds(n, m);
    assert (c - 1) * m + m == c * m;
    RowsFilled(n, m, c, LastRow(n, m));
  }

  /** Bits 0 .. `bits` stored in blocks `start` .. `start + cnt` of `bs` bytes, `last` of them in the
      last block. */
  datatype Region = Region(bs: nat, start: nat, cnt: nat, last: nat, bits: nat) {

    /** The blocks exist on a device of `total` blocks and hold as many bits as they should. */
    ghost predicate Shaped(total: nat) {
      bs > 0 && start + cnt <= total && FillsRows(bits, 8 * bs, cnt, last)
    }

    ghost predicate Fits(d: Disk) {
      Shaped(|d|) && Sized(d, bs)
    }

    ghost predicate On(d: Disk, i: nat)
      requires Fits(d) && i < bits
    {
      BitAt(d[start + Row(i, 8 * bs)], Col(i, 8 * bs))
    }

    /** The positions of the clear bits. */
    ghost function FreeSet(d: Disk): set<nat>
      requires Fits(d)
    {
      set i: nat | 0 <= i < bits && !On(d, i)
    }

    /** Only the blocks of the region matter. */
    lemma Frame(d: Disk, e: Disk)
      requires Fits(d) && Fits(e)
      requires forall b | start <= b < start + cnt :: d[b] == e[b]
      ensures FreeSet(e) == FreeSet(d)
    {
    }

    lemma PutAt(d: Disk, k: nat, on: bool, e: Disk, i: nat)
      requires Fits(d) && Fits(e) && k < bits && i < bits
      requires var b := start + Row(k, 8 * bs); e == d[b := PutBitAt(d[b], Col(k, 8 * bs), on)]
      ensures On(e, i) == if i == k then on else On(d, i)
    {
      SamePlace(i, k, 8 * bs);
      var b := start + Row(i, 8 * bs);
      if Row(i, 8 * bs) == Row(k, 8 * bs) {
        PutBitAtBit(d[b], Col(k, 8 * bs), on, Col(i, 8 * bs));
        assert e[b] == PutBitAt(d[b], Col(k, 8 * bs), on);
      } else {
        assert e[b] == d[b];
      }
    }

    /** Storing the bit at the place of `k` in the block of `k` stores bit `k`, and no other. */
    lemma Put(d: Disk, k: nat, on: bool, e: Disk)
      requires Fits(d) && k < bits
      requires var b := start + Row(k, 8 * bs); e == d[b := PutBitAt(d[b], Col(k, 8 * bs), on)]
      ensures Fits(e) && SameOutside(d, e, start, start + cnt)
      ensures FreeSet(e) == if on then FreeSet(d) - {k} else FreeSet(d) + {k}
    {
      var f := if on then FreeSet(d) - {k} else FreeSet(d) + {k};
      forall i: nat ensures i in FreeSet(e) <==> i in f {
        if i < bits { PutAt(d, k, on, e, i); }
      }
    }

    /** How many bits block `q` holds. */
    function Len(q: nat): nat {
      if q == cnt - 1 then last else 8 * bs
    }

    /** The number of the bit at place `r` of block `q`. */
    lemma Place(q: nat, r: nat) returns (k: nat)
      requires bs > 0 && FillsRows(bits, 8 * bs, cnt, last)
      requires q < cnt && r < Len(q)
      ensures k == q * (8 * bs) + r && k < bits
      ensures Row(k, 8 * bs) == q && Col(k, 8 * bs) == r
    {
      k := q * (8 * bs) + r;
      RowColAt(q, r, 8 * bs);
    }

    // ---- Looking for the first clear bit ----

    /** The first `q` blocks are all ones. */
    ghost predicate FullBlocks(d: Disk, q: nat)
      requires Fits(d)
    {
      forall k | 0 <= k < bits && Row(k, 8 * bs) < q :: On(d, k)
    }

    lemma NoneInBlock(d: Disk, q: nat)
      requires Fits(d) && q < cnt && FullBlocks(d, q)
      requires IsFirstFree(d[start + q], Len(q), None)
      ensures FullBlocks(d, q + 1)
    {
    }

    lemma AllFull(d: Disk)
      requires Fits(d) && FullBlocks(d, cnt)
      ensures FreeSet(d) == {}
    {
    }

    lemma FirstInBlock(d: Disk, q: nat, r: nat) returns (k: nat)
      requires Fits(d) && q < cnt && FullBlocks(d, q)
      requires IsFirstFree(d[start + q], Len(q), Some(r))
      ensures k == q * (8 * bs) + r && k < bits
      ensures Row(k, 8 * bs) == q && Col(k, 8 * bs) == r
      ensures k in FreeSet(d) && forall j | j in FreeSet(d) :: k <= j
    {
      k := Place(q, r);
      forall j | 0 <= j < k ensures On(d, j) {
        BeforeIsLess(j, k, 8 * bs);
      }
    }

    // ---- Counting ----

    ghost function FreeBefore(d: Disk, q: nat, n: nat): set<nat>
      requires Fits(d)
    {
      set k: nat | 0 <= k < bits && !On(d, k) && Before(k, 8 * bs, q, n)
    }

    /** What the next bit of block `q` adds. */
    lemma NextBit(d: Disk, q: nat, n: nat) returns (k: nat)
      requires Fits(d) && q < cnt && n < Len(q)
      ensures k !in FreeBefore(d, q, n)
      ensures FreeBefore(d, q, n + 1) == FreeBefore(d, q, n) + if BitAt(d[start + q], n) then {} else {k}
    {
      k := Place(q, n);
      assert On(d, k) == BitAt(d[start + q], n);
      forall j: nat | j < bits
        ensures Before(j, 8 * bs, q, n + 1) <==> Before(j, 8 * bs, q, n) || j == k
      {
        SamePlace(j, k, 8 * bs);
      }
    }

    /** The clear bits of the first `q` blocks and the first `n` bits of the next one. */
    lemma {:induction false} CountStep(d: Disk, q: nat, n: nat)
      requires Fits(d) && q < cnt && n <= Len(q)
      ensures |FreeBefore(d, q, n)| == |FreeBefore(d, q, 0)| + Zeros(d[start + q], n)
    {
      if n > 0 {
        CountStep(d, q, n - 1);
        var k := NextBit(d, q, n - 1);
      }
    }

    lemma CountBlock(d: Disk, q: nat)
      requires Fits(d) && q < cnt
      ensures |FreeBefore(d, q + 1, 0)| == |FreeBefore(d, q, 0)| + Zeros(d[start + q], Len(q))
    {
      CountStep(d, q, Len(q));
      assert FreeBefore(d, q, Len(q)) == FreeBefore(d, q + 1, 0);
    }

    lemma CountAll(d: Disk)
      requires Fits(d)
      ensures FreeBefore(d, 0, 0) == {} && FreeBefore(d, cnt, 0) == FreeSet(d)
    {
    }
  }
}
