/**
 * The striped query layout shared by both kernels.
 *
 * A query of length n is folded over `w` lanes: query index q lives in
 * segment q % segLen, lane q / segLen, where segLen = ceil(n / w).  The
 * vector buffers are arrays of segLen vectors, so in memory the element
 * of segment t, lane k sits at flat position t * w + k.
 */
module Striped {

  /** segLen = (s1Len + segWidth - 1) / segWidth. */
  function SegLen(n: nat, w: nat): nat
    requires w > 0
  {
    (n + w - 1) / w
  }

  /** The segment count is the ceiling of n / w: w * segLen lanes cover the query with less than a segment of padding. */
  lemma SegLenIsCeiling(n: nat, w: nat)
    requires n >= 1 && w > 0
    ensures SegLen(n, w) >= 1
    ensures w * (SegLen(n, w) - 1) < n <= w * SegLen(n, w)
  {
    var s := SegLen(n, w);
    var r := (n + w - 1) % w;
    assert n + w - 1 == w * s + r && 0 <= r < w;
  }

  /** The query index held by lane `lane` of segment `seg`; also the row arr_store_si128 and arr_store_col write it to. */
  function QueryIndex(seg: nat, lane: nat, segLen: nat): nat
  {
    lane * segLen + seg
  }

  /** The query index of flat position i of a buffer: i / segWidth + i % segWidth * segLen. */
  function FlatToQuery(i: nat, w: nat, segLen: nat): nat
    requires w > 0
  {
    QueryIndex(i / w, i % w, segLen)
  }

  /** The flat buffer position holding query index q. */
  function QueryToFlat(q: nat, w: nat, segLen: nat): nat
    requires segLen > 0
  {
    (q % segLen) * w + q / segLen
  }

  /** Multiplying a strict inequality by a positive factor opens a gap of at least that factor. */
  lemma MulGap(a: int, b: int, d: int)
    requires d > 0 && a < b
    ensures a * d + d <= b * d
  {
    assert (b - a - 1) * d >= 0;
    assert b * d == a * d + d + (b - a - 1) * d;
  }

  /** Quotient and remainder are determined by x == quot * d + rem with 0 <= rem < d. */
  lemma DivModUnique(x: int, d: int, quot: int, rem: int)
    requires d > 0 && 0 <= rem < d && x == quot * d + rem
    ensures x / d == quot && x % d == rem
  {
    var q0, r0 := x / d, x % d;
    assert x == q0 * d + r0 && 0 <= r0 < d;
    if q0 < quot {
      MulGap(q0, quot, d);
      assert false;
    }
    if quot < q0 {
      MulGap(quot, q0, d);
      assert false;
    }
  }

  /** A lane and segment inside the register file hold a query index below w * segLen, and distinct cells hold distinct indices. */
  lemma QueryIndexInjective(seg1: nat, lane1: nat, seg2: nat, lane2: nat, segLen: nat, w: nat)
    requires seg1 < segLen && seg2 < segLen && lane1 < w && lane2 < w
    ensures QueryIndex(seg1, lane1, segLen) < w * segLen
    ensures QueryIndex(seg1, lane1, segLen) == QueryIndex(seg2, lane2, segLen) <==> seg1 == seg2 && lane1 == lane2
  {
    MulGap(lane1, w, segLen);
    if QueryIndex(seg1, lane1, segLen) == QueryIndex(seg2, lane2, segLen) {
      DivModUnique(lane1 * segLen + seg1, segLen, lane1, seg1);
      DivModUnique(lane2 * segLen + seg2, segLen, lane2, seg2);
    }
  }

  /** A product inequality with a positive factor cancels. */
  lemma MulLtCancel(a: int, b: int, d: int)
    requires d > 0 && a * d < b * d
    ensures a < b
  {
    assert (b - a) * d == b * d - a * d;
  }

  /** QueryIndex recovers the segment and lane: q lives in segment q % segLen, lane q / segLen. */
  lemma QueryIndexSplit(q: nat, segLen: nat, w: nat)
    requires segLen > 0 && q < w * segLen
    ensures q / segLen < w && q % segLen < segLen
    ensures QueryIndex(q % segLen, q / segLen, segLen) == q
  {
    var k, t := q / segLen, q % segLen;
    assert q == k * segLen + t;
    MulLtCancel(k, w, segLen);
  }

  /** Unfolding a flat position and folding it back gives the position again. */
  lemma FlatRoundTrip(i: nat, w: nat, segLen: nat)
    requires w > 0 && segLen > 0 && i < w * segLen
    ensures FlatToQuery(i, w, segLen) < w * segLen
    ensures QueryToFlat(FlatToQuery(i, w, segLen), w, segLen) == i
  {
    assert i < segLen * w;
    QueryIndexSplit(i, w, segLen);
    var t, k := i / w, i % w;
    QueryIndexInjective(t, k, t, k, segLen, w);
    DivModUnique(FlatToQuery(i, w, segLen), segLen, k, t);
  }

  /** Folding a query index to its flat position and unfolding it gives the index again. */
  lemma QueryRoundTrip(q: nat, w: nat, segLen: nat)
    requires w > 0 && segLen > 0 && q < w * segLen
    ensures QueryToFlat(q, w, segLen) < w * segLen
    ensures FlatToQuery(QueryToFlat(q, w, segLen), w, segLen) == q
  {
    QueryIndexSplit(q, segLen, w);
    var t, k := q % segLen, q / segLen;
    QueryIndexInjective(k, t, k, t, w, segLen);
    DivModUnique(QueryToFlat(q, w, segLen), w, t, k);
  }

  /** The unfolding of line 463 is a bijection on [0, w * segLen), with QueryToFlat as its inverse. */
  lemma FlatToQueryBijective(i: nat, q: nat, w: nat, segLen: nat)
    requires w > 0 && segLen > 0
    requires i < w * segLen && q < w * segLen
    ensures FlatToQuery(i, w, segLen) < w * segLen
    ensures QueryToFlat(q, w, segLen) < w * segLen
    ensures FlatToQuery(i, w, segLen) == q <==> i == QueryToFlat(q, w, segLen)
  {
    FlatRoundTrip(i, w, segLen);
    QueryRoundTrip(q, w, segLen);
  }

  /**
   * offset = (s1Len - 1) % segLen and position = (segWidth - 1) - (s1Len - 1) / segLen
   * locate the last query index: it is in segment `offset`, lane segWidth - 1 - position.
   */
  lemma LastQueryCell(n: nat, w: nat)
    requires n >= 1 && w > 0
    ensures var segLen := SegLen(n, w);
            var offset := (n - 1) % segLen;
            var lane := (n - 1) / segLen;
            var position := (w - 1) - lane;
            segLen >= 1 && offset < segLen && 0 <= position < w &&
            QueryIndex(offset, w - 1 - position, segLen) == n - 1
  {
    SegLenIsCeiling(n, w);
    QueryIndexSplit(n - 1, SegLen(n, w), w);
  }

  /** The int-table slot arr_store_si128 writes for lane `lane` of segment t at database column d. */
  function TableSlot(t: nat, lane: nat, segLen: nat, d: nat, dlen: nat): nat
  {
    QueryIndex(t, lane, segLen) * dlen + d
  }

  /** arr_store_si128 puts every (segment, lane, column) cell in its own slot of the segLen*segWidth x s2Len table. */
  lemma TableSlotInjective(t1: nat, k1: nat, d1: nat, t2: nat, k2: nat, d2: nat, segLen: nat, w: nat, dlen: nat)
    requires t1 < segLen && t2 < segLen && k1 < w && k2 < w && d1 < dlen && d2 < dlen
    ensures TableSlot(t1, k1, segLen, d1, dlen) < w * segLen * dlen
    ensures TableSlot(t1, k1, segLen, d1, dlen) == TableSlot(t2, k2, segLen, d2, dlen)
            <==> t1 == t2 && k1 == k2 && d1 == d2
  {
    QueryIndexInjective(t1, k1, t2, k2, segLen, w);
    var r1, r2 := QueryIndex(t1, k1, segLen), QueryIndex(t2, k2, segLen);
    MulGap(r1, w * segLen, dlen);
    assert (w * segLen) * dlen == w * segLen * dlen;
    if TableSlot(t1, k1, segLen, d1, dlen) == TableSlot(t2, k2, segLen, d2, dlen) {
      DivModUnique(r1 * dlen + d1, dlen, r1, d1);
      DivModUnique(r2 * dlen + d2, dlen, r2, d2);
    }
  }

  /** The vector slot arr_store (8-bit trace tables) writes for segment t at database column d. */
  function TraceSlot(t: nat, d: nat, segLen: nat): nat
  {
    d * segLen + t
  }

  /** arr_store gives every (segment, column) pair its own vector of the segLen x s2Len trace table. */
  lemma TraceSlotInjective(t1: nat, d1: nat, t2: nat, d2: nat, segLen: nat, dlen: nat)
    requires t1 < segLen && t2 < segLen && d1 < dlen && d2 < dlen
    ensures TraceSlot(t1, d1, segLen) < segLen * dlen
    ensures TraceSlot(t1, d1, segLen) == TraceSlot(t2, d2, segLen) <==> t1 == t2 && d1 == d2
  {
    MulGap(d1, dlen, segLen);
    if TraceSlot(t1, d1, segLen) == TraceSlot(t2, d2, segLen) {
      DivModUnique(d1 * segLen + t1, segLen, d1, t1);
      DivModUnique(d2 * segLen + t2, segLen, d2, t2);
    }
  }

  /** _mm256_store_si256(array + i, v): one register written to one slot of a buffer. */
  method Store<T>(buf: array<T>, i: nat, v: T)
    requires i < buf.Length
    modifies buf
    ensures buf[..] == old(buf[..])[i := v]
  {
    buf[i] := v;
  }

  /** arr_store: the whole vector for segment t goes to slot d * seglen + t of a vector table. */
  method ArrStore<T>(table: array<T>, v: T, t: nat, segLen: nat, d: nat)
    requires t < segLen && TraceSlot(t, d, segLen) < table.Length
    modifies table
    ensures table[..] == old(table[..])[TraceSlot(t, d, segLen) := v]
  {
    table[d * segLen + t] := v;
  }
}
