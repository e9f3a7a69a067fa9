/**
 * The lane-level recurrence of the semi-global, statistics-carrying "scan"
 * kernel with 8 lanes of int16 (parasail_sg_flags_stats_scan_profile_neon_128_16).
 *
 * The source keeps four parallel registers per quantity: the score (H, E,
 * F, ...) and its matches (..M), similar (..S) and length (..L)
 * statistics.  Every blend and every shift in the source moves the four
 * together, so a lane of the four registers is modelled as one Cell and a
 * register group as a sequence of 8 Cells.  add_epi16 / sub_epi16 wrap
 * (Wrap16); max and the comparisons act on the int16 lane values.
 */
module ScanStats16 {
  import opened Lanes
  import opened Striped

  /** segWidth: 8 lanes of int16 in a 128-bit register. */
  const SegWidth: nat := 8

  /** One lane of a score register and of its three statistics registers. */
  datatype Cell = Cell(h: int, m: int, s: int, l: int)

  /** One lane of the query profile: substitution score and the match / similar indicators. */
  datatype ProfLane = ProfLane(score: int, matches: int, similar: int)

  type SVec = seq<Cell>

  const ZeroCell := Cell(0, 0, 0, 0)

  /** The per-alignment constants the column sweep uses. */
  datatype Config = Config(s1Len: nat, open: int, gap: int, negLimit: int)
  {
    predicate Valid()
    {
      s1Len >= 1 && IsInt16(negLimit)
    }

    function SegLen(): nat
    {
      Striped.SegLen(s1Len, SegWidth)
    }
  }

  /** NEG_LIMIT: one above the smallest value that cannot underflow after subtracting the gap open or adding the matrix minimum. */
  function NegLimit(open: int, matMin: int): int
  {
    Wrap16((if -open < matMin then Int16Min + open else Int16Min - matMin) + 1)
  }

  /** POS_LIMIT: one below the largest value that cannot overflow after adding the matrix maximum. */
  function PosLimit(matMax: int): int
  {
    Wrap16(Int16Max - matMax - 1)
  }

  /** pvGapper[i]: the cost of a gap opened in segment i and extended to the last segment, -open - (segLen-1-i)*gap. */
  function Gapper(open: int, gap: int, segLen: nat, i: nat): int
  {
    Wrap16(-open - (segLen - 1 - i) * gap)
  }

  /** pvGapperL[i]: the length of that gap, segLen - i. */
  function GapperL(segLen: nat, i: nat): int
  {
    Wrap16(segLen - i)
  }

  /** The register stored at pvGapper+i. */
  function GapperVec(cfg: Config, i: nat): (v: Vec)
    requires cfg.Valid()
    ensures |v| == SegWidth
  {
    Splat(SegWidth, Gapper(cfg.open, cfg.gap, cfg.SegLen(), i))
  }

  /** The register stored at pvGapperL+i. */
  function GapperLVec(cfg: Config, i: nat): (v: Vec)
    requires cfg.Valid()
    ensures |v| == SegWidth
  {
    Splat(SegWidth, GapperL(cfg.SegLen(), i))
  }

  /**
   * E and F update (lines 250-257, 347-354): open a gap from `src` (cost open)
   * or extend `cur` (cost gap).  The score is the larger candidate; the
   * statistics come from `src` only when opening is strictly better, so a tie
   * keeps the extended gap's statistics; the length grows by one.
   */
  function GapCell(src: Cell, cur: Cell, open: int, gap: int): (r: Cell)
    ensures r.h == Max(Wrap16(src.h - open), Wrap16(cur.h - gap))
    ensures Wrap16(src.h - open) > Wrap16(cur.h - gap) ==> r.m == src.m && r.s == src.s && r.l == Wrap16(src.l + 1)
    ensures Wrap16(src.h - open) <= Wrap16(cur.h - gap) ==> r.m == cur.m && r.s == cur.s && r.l == Wrap16(cur.l + 1)
  {
    var opn := Wrap16(src.h - open);
    var ext := Wrap16(cur.h - gap);
    if opn > ext then Cell(opn, src.m, src.s, Wrap16(src.l + 1))
    else Cell(ext, cur.m, cur.s, Wrap16(cur.l + 1))
  }

  /** The diagonal step (lines 268-271): the profile score, match and similar indicators are added and the length grows by one. */
  function DiagCell(hp: Cell, p: ProfLane): Cell
  {
    Cell(Wrap16(hp.h + p.score), Wrap16(hp.m + p.matches), Wrap16(hp.s + p.similar), Wrap16(hp.l + 1))
  }

  /**
   * A two-way choice decided by cmpgt (lines 272-276, 333-337): `a` wins only
   * with a strictly higher score, so `b` wins ties.  The score lane is the max.
   */
  function Better(a: Cell, b: Cell): (r: Cell)
    ensures r.h == Max(a.h, b.h)
    ensures r == a || r == b
    ensures a.h == b.h ==> r == b
  {
    if a.h > b.h then a else b
  }

  /** A gap candidate built from `src`: the score moves by dh, the length by dl, matches and similar are carried. */
  function Candidate(src: Cell, dh: int, dl: int): Cell
  {
    Cell(Wrap16(src.h + dh), src.m, src.s, Wrap16(src.l + dl))
  }

  /**
   * First-pass F accumulation (lines 258-267): the F register keeps its value
   * unless the candidate from the previous Ht is strictly better (ties keep F).
   */
  function AccumulateF(f: Cell, ht: Cell, g: int, gl: int): (r: Cell)
    ensures r.h == Max(f.h, Wrap16(ht.h + g))
    ensures f.h >= Wrap16(ht.h + g) ==> r == f
    ensures f.h < Wrap16(ht.h + g) ==> r == Candidate(ht, g, gl)
  {
    var c := Candidate(ht, g, gl);
    if f.h >= c.h then f else c
  }

  /**
   * Pseudo prefix-scan step (lines 298-308 and 314-324): the candidate wins
   * when it is at least as good, so here ties go to the candidate.
   */
  function ScanCell(f: Cell, src: Cell, dh: int, dl: int): (r: Cell)
    ensures r.h == Max(f.h, Wrap16(src.h + dh))
    ensures Wrap16(src.h + dh) >= f.h ==> r == Candidate(src, dh, dl)
    ensures Wrap16(src.h + dh) < f.h ==> r == f
  {
    var c := Candidate(src, dh, dl);
    if c.h >= f.h then c else f
  }

  /**
   * Final H (lines 355-367): H = max(Hp, E, F).  Its statistics come from the
   * diagonal Hp when H == Hp, else from F when H == F, else from E: the
   * priority is diagonal, then F, then E.
   */
  function FinalCell(hp: Cell, e: Cell, f: Cell): (r: Cell)
    ensures r.h == Max(Max(hp.h, e.h), f.h)
    ensures r.h == hp.h ==> r == hp
    ensures r.h != hp.h && r.h == f.h ==> r == f
    ensures r.h != hp.h && r.h != f.h ==> r == e && r.h == e.h
  {
    var h := Max(Max(hp.h, e.h), f.h);
    if h == hp.h then hp else if h == f.h then f else e
  }

  /** Segment t - 1's gap cost is segment t's, one gap-extend lower; its length is one more. */
  lemma GapperStep(open: int, gap: int, segLen: nat, t: nat)
    requires t > 0
    ensures Gapper(open, gap, segLen, t - 1) == Wrap16(Gapper(open, gap, segLen, t) - gap)
    ensures GapperL(segLen, t - 1) == Wrap16(GapperL(segLen, t) + 1)
  {
    var n := segLen - 1 - t;
    assert (n + 1) * gap == n * gap + gap;
    Wrap16Absorb(-open - n * gap, -gap);
    Wrap16Absorb(segLen - t, 1);
  }

  /** One step of the descending setup loop: the gap registers of segment t - 1 are those of segment t, one gap-extend lower and one longer. */
  lemma GapperDown(cfg: Config, t: nat)
    requires cfg.Valid() && t > 0
    ensures GapperVec(cfg, t - 1) == seq(SegWidth, k requires 0 <= k < SegWidth => Wrap16(GapperVec(cfg, t)[k] - cfg.gap))
    ensures GapperLVec(cfg, t - 1) == seq(SegWidth, k requires 0 <= k < SegWidth => Wrap16(GapperLVec(cfg, t)[k] + 1))
  {
    GapperStep(cfg.open, cfg.gap, cfg.SegLen(), t);
  }

  // ---------------------------------------------------------------------
  // The register-level operations: each applies a cell operation lane-wise.

  function GapV(src: SVec, cur: SVec, open: int, gap: int): (v: SVec)
    requires |src| == |cur|
    ensures |v| == |src|
  {
    seq(|src|, k requires 0 <= k < |src| => GapCell(src[k], cur[k], open, gap))
  }

  function DiagV(hp: SVec, p: seq<ProfLane>): (v: SVec)
    requires |hp| == |p|
    ensures |v| == |hp|
  {
    seq(|hp|, k requires 0 <= k < |hp| => DiagCell(hp[k], p[k]))
  }

  function BetterV(a: SVec, b: SVec): (v: SVec)
    requires |a| == |b|
    ensures |v| == |a|
  {
    seq(|a|, k requires 0 <= k < |a| => Better(a[k], b[k]))
  }

  function AccumulateFV(f: SVec, ht: SVec, g: Vec, gl: Vec): (v: SVec)
    requires |f| == |ht| == |g| == |gl|
    ensures |v| == |f|
  {
    seq(|f|, k requires 0 <= k < |f| => AccumulateF(f[k], ht[k], g[k], gl[k]))
  }

  function ScanV(f: SVec, src: SVec, dh: Vec, dl: Vec): (v: SVec)
    requires |f| == |src| == |dh| == |dl|
    ensures |v| == |f|
  {
    seq(|f|, k requires 0 <= k < |f| => ScanCell(f[k], src[k], dh[k], dl[k]))
  }

  function FinalV(hp: SVec, e: SVec, f: SVec): (v: SVec)
    requires |hp| == |e| == |f|
    ensures |v| == |hp|
  {
    seq(|hp|, k requires 0 <= k < |hp| => FinalCell(hp[k], e[k], f[k]))
  }

  /** slli_si128(v, 2) on all four registers of a group. */
  function ShiftCells(v: SVec): (r: SVec)
    requires |v| > 0
    ensures |r| == |v|
  {
    ShiftIn(v, ZeroCell)
  }

  /** add_epi16 of a constant vector to the score register only. */
  function AddScore(v: SVec, d: Vec): (r: SVec)
    requires |v| == |d|
    ensures |r| == |v|
  {
    seq(|v|, k requires 0 <= k < |v| => v[k].(h := Wrap16(v[k].h + d[k])))
  }

  /** vNegInfFront: NEG_LIMIT in lane 0, zero elsewhere. */
  function NegInfFront(negLimit: int): (v: Vec)
    ensures |v| == SegWidth
  {
    [negLimit] + Splat(SegWidth - 1, 0)
  }

  /** vSegLenXgap: NEG_LIMIT in lane 0, -segLen*gap elsewhere. */
  function SegLenXgap(negLimit: int, segLen: nat, gap: int): (v: Vec)
    ensures |v| == SegWidth
  {
    [Wrap16(negLimit + 0)] + Splat(SegWidth - 1, Wrap16(0 + Wrap16(-(segLen as int) * gap)))
  }

  /** vSegLen: zero in lane 0, segLen elsewhere. */
  function SegLenV(segLen: nat): (v: Vec)
    ensures |v| == SegWidth
  {
    [0] + Splat(SegWidth - 1, Wrap16(segLen))
  }

  // ---------------------------------------------------------------------
  // One database column, as the three passes over the segments compute it.
  // H and E are the buffers before the column, P the profile registers of
  // the column's database symbol, G and GL the gap-cost registers.  Each
  // pass is a fold over the segments.

  /** At least one segment, and every register of the buffers and of the profile column has 8 lanes. */
  predicate ColumnFits(H: seq<SVec>, E: seq<SVec>, P: seq<seq<ProfLane>>)
  {
    |H| > 0 && |H| == |E| == |P| &&
    (forall i :: 0 <= i < |H| ==> |H[i]| == SegWidth && |E[i]| == SegWidth && |P[i]| == SegWidth)
  }

  /** One gap-cost register per segment, each of 8 lanes. */
  predicate GapsFit(G: seq<Vec>, GL: seq<Vec>, n: nat)
  {
    |G| == |GL| == n && forall i :: 0 <= i < n ==> |G[i]| == SegWidth && |GL[i]| == SegWidth
  }

  /** The predecessor of segment i on the diagonal: the previous segment, or the last segment shifted up one lane (lines 235-238, 285-288). */
  function DiagIn(H: seq<SVec>, i: nat): (v: SVec)
    requires 0 < |H| && i <= |H| && |H[|H| - 1]| == SegWidth
  {
    if i == 0 then ShiftCells(H[|H| - 1]) else H[i - 1]
  }

  /** The state of the first pass: the Ht and F registers, and the H and E values stored so far. */
  datatype FirstState = FirstState(ht: SVec, f: SVec, hs: seq<SVec>, es: seq<SVec>)

  /**
   * The first pass after k segments (lines 239-289): segment i stores
   * E = max(H - open, E - gap) into pvE and the diagonal value Hp + W into
   * pvH; F absorbs the previous Ht plus the gap cost; Ht becomes max(E, Hp).
   */
  function FirstFold(H: seq<SVec>, E: seq<SVec>, P: seq<seq<ProfLane>>, G: seq<Vec>, GL: seq<Vec>,
                     open: int, gap: int, ht0: SVec, f0: SVec, k: nat): (r: FirstState)
    requires ColumnFits(H, E, P) && GapsFit(G, GL, |H|) && k <= |H| && |ht0| == SegWidth && |f0| == SegWidth
    ensures |r.ht| == SegWidth && |r.f| == SegWidth && |r.hs| == k && |r.es| == k
    ensures forall i :: 0 <= i < k ==> |r.hs[i]| == SegWidth && |r.es[i]| == SegWidth
  {
    if k == 0 then FirstState(ht0, f0, [], [])
    else
      var prev := FirstFold(H, E, P, G, GL, open, gap, ht0, f0, k - 1);
      var e := GapV(H[k - 1], E[k - 1], open, gap);
      var d := DiagV(DiagIn(H, k - 1), P[k - 1]);
      FirstState(BetterV(e, d), AccumulateFV(prev.f, prev.ht, G[k - 1], GL[k - 1]), prev.hs + [d], prev.es + [e])
  }

  /** The first pass stores, for every segment it has passed, E from that segment's own H and E, and H from its diagonal predecessor. */
  lemma {:induction false} FirstFoldStores(H: seq<SVec>, E: seq<SVec>, P: seq<seq<ProfLane>>, G: seq<Vec>, GL: seq<Vec>,
                                           open: int, gap: int, ht0: SVec, f0: SVec, k: nat, i: nat)
    requires ColumnFits(H, E, P) && GapsFit(G, GL, |H|) && k <= |H| && |ht0| == SegWidth && |f0| == SegWidth
    requires i < k
    ensures FirstFold(H, E, P, G, GL, open, gap, ht0, f0, k).es[i] == GapV(H[i], E[i], open, gap)
    ensures FirstFold(H, E, P, G, GL, open, gap, ht0, f0, k).hs[i] == DiagV(DiagIn(H, i), P[i])
  {
    if i < k - 1 {
      FirstFoldStores(H, E, P, G, GL, open, gap, ht0, f0, k - 1, i);
    }
  }

  /** One step of the pseudo prefix scan (lines 310-324): F against itself shifted by one lane and moved by segLen gaps. */
  function ScanStep(f: SVec, dh: Vec, dl: Vec): (v: SVec)
    requires |f| == |dh| == |dl| == SegWidth
    ensures |v| == SegWidth
  {
    ScanV(f, ShiftCells(f), dh, dl)
  }

  /** The F register after n prefix-scan steps. */
  function ScanF(f0: SVec, dh: Vec, dl: Vec, n: nat): (v: SVec)
    requires |f0| == |dh| == |dl| == SegWidth
    ensures |v| == SegWidth
  {
    if n == 0 then f0 else ScanStep(ScanF(f0, dh, dl, n - 1), dh, dl)
  }

  /** The state of the final pass: the F and H registers, and the H values stored so far. */
  datatype FinalState = FinalState(f: SVec, h: SVec, hs: seq<SVec>)

  /**
   * The final pass after k segments (lines 338-371): F = max(H - open, F - gap)
   * from the previous segment's H and F, then H = max(Hp, E, F) from the
   * stored diagonal value D and E of the segment.
   */
  function FinalFold(f0: SVec, h0: SVec, D: seq<SVec>, NE: seq<SVec>, open: int, gap: int, k: nat): (r: FinalState)
    requires |f0| == SegWidth && |h0| == SegWidth && |D| == |NE| && k <= |D|
    requires forall i :: 0 <= i < |D| ==> |D[i]| == SegWidth && |NE[i]| == SegWidth
    ensures |r.f| == SegWidth && |r.h| == SegWidth && |r.hs| == k
    ensures forall i :: 0 <= i < k ==> |r.hs[i]| == SegWidth
  {
    if k == 0 then FinalState(f0, h0, [])
    else
      var prev := FinalFold(f0, h0, D, NE, open, gap, k - 1);
      var f := GapV(prev.h, prev.f, open, gap);
      var h := FinalV(D[k - 1], NE[k - 1], f);
      FinalState(f, h, prev.hs + [h])
  }

  /** The final pass stores for every segment it has passed the H it computed there. */
  lemma {:induction false} FinalFoldStores(f0: SVec, h0: SVec, D: seq<SVec>, NE: seq<SVec>, open: int, gap: int, k: nat, i: nat)
    requires |f0| == SegWidth && |h0| == SegWidth && |D| == |NE| && k <= |D|
    requires forall i :: 0 <= i < |D| ==> |D[i]| == SegWidth && |NE[i]| == SegWidth
    requires i < k
    ensures FinalFold(f0, h0, D, NE, open, gap, k).hs[i] == FinalFold(f0, h0, D, NE, open, gap, i + 1).h
  {
    if i < k - 1 {
      FinalFoldStores(f0, h0, D, NE, open, gap, k - 1, i);
    }
  }

  // ---------------------------------------------------------------------
  // The column with the kernel's own constants.

  predicate WellFormed(cfg: Config, H: seq<SVec>, E: seq<SVec>, P: seq<seq<ProfLane>>)
  {
    cfg.Valid() && |H| == cfg.SegLen() && ColumnFits(H, E, P)
  }

  /** The pvGapper buffer after setup. */
  function GapperColumn(cfg: Config): (G: seq<Vec>)
    requires cfg.Valid()
    ensures |G| == cfg.SegLen() && forall i :: 0 <= i < |G| ==> |G[i]| == SegWidth
  {
    seq(cfg.SegLen(), i requires 0 <= i < cfg.SegLen() => GapperVec(cfg, i))
  }

  /** The pvGapperL buffer after setup. */
  function GapperLColumn(cfg: Config): (GL: seq<Vec>)
    requires cfg.Valid()
    ensures |GL| == cfg.SegLen() && forall i :: 0 <= i < |GL| ==> |GL[i]| == SegWidth
  {
    seq(cfg.SegLen(), i requires 0 <= i < cfg.SegLen() => GapperLVec(cfg, i))
  }

  /** NEG_LIMIT - g lane-wise, statistics zero. */
  function LimitMinus(negLimit: int, g: Vec): (v: SVec)
    requires |g| == SegWidth
    ensures |v| == SegWidth
  {
    seq(SegWidth, k requires 0 <= k < SegWidth => Cell(Wrap16(negLimit - g[k]), 0, 0, 0))
  }

  /** vHt before the first segment: NEG_LIMIT - pvGapper[0]; its statistics registers are never initialised in the source (zero here). */
  function HtInit(cfg: Config): (v: SVec)
    requires cfg.Valid()
    ensures |v| == SegWidth
  {
    LimitMinus(cfg.negLimit, GapperVec(cfg, 0))
  }

  /** vF at the start of a column: NEG_LIMIT; its statistics zero (lines 231-234). */
  function FInit(cfg: Config): (v: SVec)
    ensures |v| == SegWidth
  {
    Splat(SegWidth, Cell(cfg.negLimit, 0, 0, 0))
  }

  /** The first pass over the whole column. */
  function FirstOf(cfg: Config, H: seq<SVec>, E: seq<SVec>, P: seq<seq<ProfLane>>): (r: FirstState)
    requires WellFormed(cfg, H, E, P)
    ensures |r.ht| == SegWidth && |r.f| == SegWidth && |r.hs| == |H| && |r.es| == |H|
    ensures forall i :: 0 <= i < |H| ==> |r.hs[i]| == SegWidth && |r.es[i]| == SegWidth
  {
    FirstFold(H, E, P, GapperColumn(cfg), GapperLColumn(cfg), cfg.open, cfg.gap, HtInit(cfg), FInit(cfg), |H|)
  }

  /**
   * From the first pass's last Ht and F to the F and H registers entering
   * the final pass (lines 291-337): Ht is shifted up a lane, F takes it with
   * the first gap cost, segWidth - 2 scan steps carry F across the lanes,
   * then F is shifted up a lane with NEG_LIMIT in lane 0 and H = max(F, Ht).
   */
  function ScanEntry(cfg: Config, ht: SVec, f: SVec): (fh: (SVec, SVec))
    requires cfg.Valid() && |ht| == SegWidth && |f| == SegWidth
    ensures |fh.0| == SegWidth && |fh.1| == SegWidth
  {
    var segLen := cfg.SegLen();
    var hts := ShiftCells(ht);
    var start := ScanV(f, hts, GapperVec(cfg, 0), GapperLVec(cfg, 0));
    var scanned := ScanF(start, SegLenXgap(cfg.negLimit, segLen, cfg.gap), SegLenV(segLen), SegWidth - 2);
    var fs := AddScore(ShiftCells(scanned), NegInfFront(cfg.negLimit));
    (fs, BetterV(fs, hts))
  }

  /** The final pass over the first k segments of the column. */
  function FinalOf(cfg: Config, H: seq<SVec>, E: seq<SVec>, P: seq<seq<ProfLane>>, k: nat): (r: FinalState)
    requires WellFormed(cfg, H, E, P) && k <= |H|
    ensures |r.f| == SegWidth && |r.h| == SegWidth && |r.hs| == k
    ensures forall i :: 0 <= i < k ==> |r.hs[i]| == SegWidth
  {
    var first := FirstOf(cfg, H, E, P);
    var entry := ScanEntry(cfg, first.ht, first.f);
    FinalFold(entry.0, entry.1, first.hs, first.es, cfg.open, cfg.gap, k)
  }

  /** The H and E buffers after the column. */
  function Column(cfg: Config, H: seq<SVec>, E: seq<SVec>, P: seq<seq<ProfLane>>): (b: Buffers)
    requires WellFormed(cfg, H, E, P)
    ensures BuffersFit(b, |H|)
  {
    Buffers(FinalOf(cfg, H, E, P, |H|).hs, FirstOf(cfg, H, E, P).es)
  }

  // ---------------------------------------------------------------------
  // Properties of the column sweep.

  /**
   * The statistics registers of vHt are read uninitialised at segment 0, but
   * never selected: NEG_LIMIT - pvGapper[0] + pvGapper[0] ties with the
   * initial F (NEG_LIMIT), and ties keep F.
   */
  lemma UninitialisedHtNeverSelected(cfg: Config, H: seq<SVec>, E: seq<SVec>, P: seq<seq<ProfLane>>)
    requires WellFormed(cfg, H, E, P)
    ensures FirstFold(H, E, P, GapperColumn(cfg), GapperLColumn(cfg), cfg.open, cfg.gap, HtInit(cfg), FInit(cfg), 1).f == FInit(cfg)
  {
    var g := GapperVec(cfg, 0)[0];
    Wrap16SubAdd(cfg.negLimit, g);
    var f1 := FirstFold(H, E, P, GapperColumn(cfg), GapperLColumn(cfg), cfg.open, cfg.gap, HtInit(cfg), FInit(cfg), 1).f;
    forall k | 0 <= k < SegWidth
      ensures f1[k] == FInit(cfg)[k]
    {
      var G, GL := GapperColumn(cfg), GapperLColumn(cfg);
      assert FirstFold(H, E, P, G, GL, cfg.open, cfg.gap, HtInit(cfg), FInit(cfg), 0).f == FInit(cfg);
      assert f1 == AccumulateFV(FInit(cfg), HtInit(cfg), G[0], GL[0]);
      assert G[0][k] == g && HtInit(cfg)[k].h == Wrap16(cfg.negLimit - g);
      assert f1[k] == AccumulateF(FInit(cfg)[k], HtInit(cfg)[k], g, GL[0][k]);
    }
  }

  /** Every lane of E after the column is max(H - open, E - gap), taking H's statistics only on a strict win, length + 1 (lines 250-257). */
  lemma ColumnELane(cfg: Config, H: seq<SVec>, E: seq<SVec>, P: seq<seq<ProfLane>>, i: nat, k: nat)
    requires WellFormed(cfg, H, E, P) && i < |H| && k < SegWidth
    ensures var opn := Wrap16(H[i][k].h - cfg.open);
            var ext := Wrap16(E[i][k].h - cfg.gap);
            var r := Column(cfg, H, E, P).E[i][k];
            r.h == Max(opn, ext) &&
            (opn > ext ==> r.m == H[i][k].m && r.s == H[i][k].s && r.l == Wrap16(H[i][k].l + 1)) &&
            (opn <= ext ==> r.m == E[i][k].m && r.s == E[i][k].s && r.l == Wrap16(E[i][k].l + 1))
  {
    FirstFoldStores(H, E, P, GapperColumn(cfg), GapperLColumn(cfg), cfg.open, cfg.gap, HtInit(cfg), FInit(cfg), |H|, i);
  }

  /**
   * Every lane of H after the column is max(Hp, E, F), where Hp is the
   * diagonal predecessor plus the profile score, E the new E of the segment
   * and F the final pass's F there; its statistics are the diagonal's on a
   * tie with it, else F's on a tie with F, else E's (lines 347-367).  F is
   * itself max(H_prev - open, F_prev - gap), H_prev and F_prev those of the
   * previous segment (the scan's entry registers at segment 0).
   */
  lemma ColumnHLane(cfg: Config, H: seq<SVec>, E: seq<SVec>, P: seq<seq<ProfLane>>, i: nat, k: nat)
    requires WellFormed(cfg, H, E, P) && i < |H| && k < SegWidth
    ensures var prev := FinalOf(cfg, H, E, P, i);
            var f := FinalOf(cfg, H, E, P, i + 1).f[k];
            var hp := DiagV(DiagIn(H, i), P[i])[k];
            var e := Column(cfg, H, E, P).E[i][k];
            var r := Column(cfg, H, E, P).H[i][k];
            f == GapCell(prev.h[k], prev.f[k], cfg.open, cfg.gap) &&
            r.h == Max(Max(hp.h, e.h), f.h) &&
            (r.h == hp.h ==> r == hp) &&
            (r.h != hp.h && r.h == f.h ==> r == f) &&
            (r.h != hp.h && r.h != f.h ==> r == e)
  {
    var first := FirstOf(cfg, H, E, P);
    var entry := ScanEntry(cfg, first.ht, first.f);
    FirstFoldStores(H, E, P, GapperColumn(cfg), GapperLColumn(cfg), cfg.open, cfg.gap, HtInit(cfg), FInit(cfg), |H|, i);
    FinalFoldStores(entry.0, entry.1, first.hs, first.es, cfg.open, cfg.gap, |H|, i);
  }

  // ---------------------------------------------------------------------
  // The whole alignment: the column buffers after every database column,
  // the saturation check, the last-row maximum, the last-column maximum and
  // the end position.

  /** The profile registers of one database symbol: pvW = pvP + mapper[s2[j]] * segLen. */
  function ColumnProfile(prof: seq<seq<ProfLane>>, sym: nat, segLen: nat): (P: seq<seq<ProfLane>>)
    requires sym * segLen + segLen <= |prof|
    requires forall x :: 0 <= x < |prof| ==> |prof[x]| == SegWidth
    ensures |P| == segLen && forall i :: 0 <= i < segLen ==> P[i] == prof[sym * segLen + i] && |P[i]| == SegWidth
  {
    prof[sym * segLen .. sym * segLen + segLen]
  }

  /** The profile holds segLen registers of 8 lanes for every symbol the (mapped) database uses. */
  predicate ProfileFits(prof: seq<seq<ProfLane>>, db: seq<nat>, segLen: nat)
  {
    (forall j :: 0 <= j < |db| ==> db[j] * segLen + segLen <= |prof|) &&
    (forall x :: 0 <= x < |prof| ==> |prof[x]| == SegWidth)
  }

  /** The H and E buffers (each with their statistics registers). */
  datatype Buffers = Buffers(H: seq<SVec>, E: seq<SVec>)

  predicate BuffersFit(b: Buffers, segLen: nat)
  {
    |b.H| == |b.E| == segLen &&
    (forall i :: 0 <= i < segLen ==> |b.H[i]| == SegWidth) &&
    (forall i :: 0 <= i < segLen ==> |b.E[i]| == SegWidth)
  }

  /** The buffers after setup: H and its statistics zero, E at NEG_LIMIT with zero statistics (lines 161-168). */
  function InitialBuffers(cfg: Config): (b: Buffers)
    requires cfg.Valid()
    ensures BuffersFit(b, cfg.SegLen())
  {
    Buffers(Splat(cfg.SegLen(), Splat(SegWidth, ZeroCell)),
            Splat(cfg.SegLen(), Splat(SegWidth, Cell(cfg.negLimit, 0, 0, 0))))
  }

  /** The buffers after the first j database columns. */
  function Sweep(cfg: Config, prof: seq<seq<ProfLane>>, db: seq<nat>, j: nat): (b: Buffers)
    requires cfg.Valid() && ProfileFits(prof, db, cfg.SegLen()) && j <= |db|
    ensures BuffersFit(b, cfg.SegLen())
  {
    if j == 0 then InitialBuffers(cfg)
    else
      var b := Sweep(cfg, prof, db, j - 1);
      var P := ColumnProfile(prof, db[j - 1], cfg.SegLen());
      assert ColumnFits(b.H, b.E, P);
      Column(cfg, b.H, b.E, P)
  }

  /** The score lanes of a register group. */
  function Scores(v: SVec): (r: Vec)
    ensures |r| == |v|
  {
    seq(|v|, k requires 0 <= k < |v| => v[k].h)
  }

  /** A lane outside the safe range: a score below NEG_LIMIT, or a score or statistic above POS_LIMIT. */
  predicate Unsafe(c: Cell, negLimit: int, posLimit: int)
  {
    c.h < negLimit || Over(c, posLimit)
  }

  /** vSaturationCheckMin after a column: lane-wise min with every score lane (line 372). */
  function MinScores(init: Vec, col: seq<SVec>): (v: Vec)
    requires |init| == SegWidth && forall i :: 0 <= i < |col| ==> |col[i]| == SegWidth
    ensures |v| == SegWidth
  {
    if col == [] then init else MinV(MinScores(init, col[..|col| - 1]), Scores(col[|col| - 1]))
  }

  /** The max_epi16 of one register group into a running maximum: score, matches, similar, length in turn (lines 373-376). */
  function MaxAllLanes(acc: Vec, v: SVec): (r: Vec)
    requires |acc| == |v| == SegWidth
    ensures |r| == SegWidth
  {
    seq(SegWidth, k requires 0 <= k < SegWidth => Max(Max(Max(Max(acc[k], v[k].h), v[k].m), v[k].s), v[k].l))
  }

  /** vSaturationCheckMax after a column. */
  function MaxAll(init: Vec, col: seq<SVec>): (v: Vec)
    requires |init| == SegWidth && forall i :: 0 <= i < |col| ==> |col[i]| == SegWidth
    ensures |v| == SegWidth
  {
    if col == [] then init else MaxAllLanes(MaxAll(init, col[..|col| - 1]), col[|col| - 1])
  }

  /** The running minimum falls below t in lane k exactly when its start or some score lane k of the column does. */
  lemma {:induction false} MinScoresBelow(init: Vec, col: seq<SVec>, k: nat, t: int)
    requires |init| == SegWidth && forall i :: 0 <= i < |col| ==> |col[i]| == SegWidth
    requires k < SegWidth
    ensures MinScores(init, col)[k] < t <==> init[k] < t || exists i :: 0 <= i < |col| && col[i][k].h < t
  {
    if col != [] {
      var pre := col[..|col| - 1];
      MinScoresBelow(init, pre, k, t);
      assert forall i :: 0 <= i < |pre| ==> pre[i] == col[i];
    }
  }

  /** The running maximum exceeds t in lane k exactly when its start or some score or statistic of lane k does. */
  lemma {:induction false} MaxAllAbove(init: Vec, col: seq<SVec>, k: nat, t: int)
    requires |init| == SegWidth && forall i :: 0 <= i < |col| ==> |col[i]| == SegWidth
    requires k < SegWidth
    ensures MaxAll(init, col)[k] > t <==>
            init[k] > t || exists i :: 0 <= i < |col| && Over(col[i][k], t)
  {
    if col != [] {
      var pre := col[..|col| - 1];
      MaxAllAbove(init, pre, k, t);
      assert forall i :: 0 <= i < |pre| ==> pre[i] == col[i];
    }
  }

  /** The running maximum of the score lanes of a column (the last-column maximum, lines 432-446). */
  function MaxScores(init: Vec, col: seq<SVec>): (v: Vec)
    requires |init| == SegWidth && forall i :: 0 <= i < |col| ==> |col[i]| == SegWidth
    ensures |v| == SegWidth
  {
    if col == [] then init else MaxV(MaxScores(init, col[..|col| - 1]), Scores(col[|col| - 1]))
  }

  /** The last-column maximum bounds every score lane of the column and is its start or one of them. */
  lemma {:induction false} MaxScoresBounds(init: Vec, col: seq<SVec>, k: nat)
    requires |init| == SegWidth && forall i :: 0 <= i < |col| ==> |col[i]| == SegWidth
    requires k < SegWidth
    ensures init[k] <= MaxScores(init, col)[k]
    ensures forall i :: 0 <= i < |col| ==> col[i][k].h <= MaxScores(init, col)[k]
    ensures MaxScores(init, col)[k] == init[k] || exists i :: 0 <= i < |col| && col[i][k].h == MaxScores(init, col)[k]
  {
    if col != [] {
      var pre := col[..|col| - 1];
      MaxScoresBounds(init, pre, k);
      assert forall i :: 0 <= i < |pre| ==> pre[i] == col[i];
    }
  }

  /**
   * The last-row maximum (lines 391-399): the best cell of a lane over the
   * columns so far and the column where end_ref was last set.  A column
   * replaces the maximum only on a strict improvement.
   */
  function RowBest(xs: seq<Cell>, init: Cell): (Cell, int)
  {
    if xs == [] then (init, 0)
    else
      var p := RowBest(xs[..|xs| - 1], init);
      if xs[|xs| - 1].h > p.0.h then (xs[|xs| - 1], |xs| - 1) else p
  }

  /**
   * The row maximum bounds every column's cell; when it improved on the start
   * it is the cell of the FIRST column reaching it, and end_ref is that column;
   * otherwise nothing changed.
   */
  lemma {:induction false} RowBestFirst(xs: seq<Cell>, init: Cell)
    ensures var (b, idx) := RowBest(xs, init);
            b.h >= init.h &&
            (forall j :: 0 <= j < |xs| ==> xs[j].h <= b.h) &&
            (b.h == init.h ==> b == init && idx == 0) &&
            (b.h > init.h ==> 0 <= idx < |xs| && xs[idx] == b && forall j :: 0 <= j < idx ==> xs[j].h < b.h)
  {
    if xs != [] {
      var pre := xs[..|xs| - 1];
      RowBestFirst(pre, init);
      assert forall j :: 0 <= j < |pre| ==> pre[j] == xs[j];
    }
  }

  /** One more column extends the row maximum: the new cell replaces it only when strictly higher, and end_ref then moves to that column. */
  lemma RowBestStep(xs: seq<Cell>, init: Cell, n: nat)
    requires n < |xs|
    ensures RowBest(xs[..n + 1], init) ==
            if xs[n].h > RowBest(xs[..n], init).0.h then (xs[n], n) else RowBest(xs[..n], init)
  {
    assert xs[..n + 1][..n] == xs[..n];
  }

  /** The cell of a column buffer that holds query index q. */
  function CellAt(col: seq<SVec>, q: nat): Cell
    requires |col| > 0 && q < SegWidth * |col| && forall i :: 0 <= i < |col| ==> |col[i]| == SegWidth
  {
    QueryIndexSplit(q, |col|, SegWidth);
    col[q % |col|][q / |col|]
  }

  /** The first query index in [q, limit) whose score lane equals `score`, or `limit` when there is none. */
  function FirstWithScore(col: seq<SVec>, score: int, q: nat, limit: nat): (r: nat)
    requires |col| > 0 && limit <= SegWidth * |col| && forall i :: 0 <= i < |col| ==> |col[i]| == SegWidth
    ensures r <= limit
    decreases limit - q
  {
    if q >= limit then limit
    else if CellAt(col, q).h == score then q
    else FirstWithScore(col, score, q + 1, limit)
  }

  /** FirstWithScore is the least index at or after q holding the score, below the limit; limit when none does. */
  lemma {:induction false} FirstWithScoreLeast(col: seq<SVec>, score: int, q: nat, limit: nat)
    requires |col| > 0 && limit <= SegWidth * |col| && forall i :: 0 <= i < |col| ==> |col[i]| == SegWidth
    requires q <= limit
    ensures var r := FirstWithScore(col, score, q, limit);
            q <= r <= limit &&
            (r < limit ==> CellAt(col, r).h == score) &&
            (forall x :: q <= x < r ==> CellAt(col, x).h != score)
    decreases limit - q
  {
    if q < limit && CellAt(col, q).h != score {
      FirstWithScoreLeast(col, score, q + 1, limit);
    }
  }

  /** The result record: score, end positions, statistics and the SATURATED flag. */
  datatype Alignment = Alignment(score: int, endQuery: int, endRef: int,
                                 matches: int, similar: int, length: int, saturated: bool)

  /** offset = (s1Len - 1) % segLen: the segment holding the last query index. */
  function LastOffset(cfg: Config): (o: nat)
    requires cfg.Valid()
    ensures o < cfg.SegLen()
  {
    LastQueryCell(cfg.s1Len, SegWidth);
    (cfg.s1Len - 1) % cfg.SegLen()
  }

  /** (s1Len - 1) / segLen = segWidth - 1 - position: the lane holding the last query index. */
  function LastLane(cfg: Config): (k: nat)
    requires cfg.Valid()
    ensures k < SegWidth && QueryIndex(LastOffset(cfg), k, cfg.SegLen()) == cfg.s1Len - 1
  {
    LastQueryCell(cfg.s1Len, SegWidth);
    (cfg.s1Len - 1) / cfg.SegLen()
  }

  /** The last-row cell of every column. */
  function LastRow(cfg: Config, prof: seq<seq<ProfLane>>, db: seq<nat>): (row: seq<Cell>)
    requires cfg.Valid() && ProfileFits(prof, db, cfg.SegLen())
    ensures |row| == |db|
  {
    seq(|db|, j requires 0 <= j < |db| => Sweep(cfg, prof, db, j + 1).H[LastOffset(cfg)][LastLane(cfg)])
  }

  /** The start of the row maximum: every register of vMaxH/M/S/L at NEG_LIMIT. */
  function RowInit(cfg: Config): Cell
  {
    Cell(cfg.negLimit, cfg.negLimit, cfg.negLimit, cfg.negLimit)
  }

  /**
   * The result before the saturation check (lines 415-474), from the best
   * last-row cell with its end_ref and end_query, and the H buffer of the
   * last column: the last-row maximum is overridden by the last-column
   * maximum when that is higher, or equal with end_ref already at the last
   * column; on an override the end query is the smallest query index holding
   * the score, whose statistics are taken.
   */
  function ResolveFrom(cfg: Config, dbLen: nat, best: Cell, endRef: int, endQuery: int, last: seq<SVec>): Alignment
    requires cfg.Valid() && |last| == cfg.SegLen() && forall i :: 0 <= i < |last| ==> |last[i]| == SegWidth
  {
    SegLenIsCeiling(cfg.s1Len, SegWidth);
    var scoreLast := HMax(MaxScores(Splat(SegWidth, cfg.negLimit), last));
    if scoreLast > best.h || (scoreLast == best.h && endRef == dbLen - 1) then
      var q := FirstWithScore(last, scoreLast, 0, cfg.s1Len);
      var stats := if q < cfg.s1Len then CellAt(last, q) else best;
      Alignment(scoreLast, q, dbLen - 1, stats.m, stats.s, stats.l, false)
    else Alignment(best.h, endQuery, endRef, best.m, best.s, best.l, false)
  }

  /** The unsaturated result of the whole run. */
  ghost function Resolved(cfg: Config, prof: seq<seq<ProfLane>>, db: seq<nat>): Alignment
    requires cfg.Valid() && ProfileFits(prof, db, cfg.SegLen())
  {
    var best := RowBest(LastRow(cfg, prof, db), RowInit(cfg));
    ResolveFrom(cfg, |db|, best.0, best.1, if best.0.h > cfg.negLimit then cfg.s1Len - 1 else 0, Sweep(cfg, prof, db, |db|).H)
  }

  /** What the kernel reports (lines 415-496): the resolved result, or zeros with the SATURATED flag when some value left the safe range. */
  ghost function Report(cfg: Config, posLimit: int, prof: seq<seq<ProfLane>>, db: seq<nat>): Alignment
    requires cfg.Valid() && ProfileFits(prof, db, cfg.SegLen())
  {
    if Saturates(History(cfg, prof, db, |db|), cfg.SegLen(), cfg.negLimit, posLimit) then Alignment(0, 0, 0, 0, 0, 0, true)
    else Resolved(cfg, prof, db)
  }

  /** Every column of a history has segLen segments of 8 lanes. */
  predicate HistoryFits(hs: seq<seq<SVec>>, segLen: nat)
  {
    forall c :: 0 <= c < |hs| ==> |hs[c]| == segLen && forall i :: 0 <= i < segLen ==> |hs[c][i]| == SegWidth
  }

  /** The H buffers after columns 1..j. */
  function History(cfg: Config, prof: seq<seq<ProfLane>>, db: seq<nat>, j: nat): (hs: seq<seq<SVec>>)
    requires cfg.Valid() && ProfileFits(prof, db, cfg.SegLen()) && j <= |db|
    ensures |hs| == j && HistoryFits(hs, cfg.SegLen())
  {
    seq(j, c requires 0 <= c < j => Sweep(cfg, prof, db, c + 1).H)
  }

  /** One more column appends its H buffer to the history. */
  lemma HistoryStep(cfg: Config, prof: seq<seq<ProfLane>>, db: seq<nat>, j: nat)
    requires cfg.Valid() && ProfileFits(prof, db, cfg.SegLen()) && j < |db|
    ensures History(cfg, prof, db, j + 1)[..j] == History(cfg, prof, db, j)
    ensures History(cfg, prof, db, j + 1)[j] == Sweep(cfg, prof, db, j + 1).H
  {
  }

  /** One more column lowers the minimum check by its score lanes and raises the maximum check by its scores and statistics. */
  lemma FoldStep(cfg: Config, prof: seq<seq<ProfLane>>, db: seq<nat>, j: nat, lo: Vec, hi: Vec)
    requires cfg.Valid() && ProfileFits(prof, db, cfg.SegLen()) && j < |db|
    requires |lo| == SegWidth && |hi| == SegWidth
    ensures MinFold(lo, History(cfg, prof, db, j + 1), cfg.SegLen())
            == MinScores(MinFold(lo, History(cfg, prof, db, j), cfg.SegLen()), Sweep(cfg, prof, db, j + 1).H)
    ensures MaxFold(hi, History(cfg, prof, db, j + 1), cfg.SegLen())
            == MaxAll(MaxFold(hi, History(cfg, prof, db, j), cfg.SegLen()), Sweep(cfg, prof, db, j + 1).H)
  {
    HistoryStep(cfg, prof, db, j);
  }

  /** vSaturationCheckMin after a history of columns. */
  function MinFold(init: Vec, hs: seq<seq<SVec>>, segLen: nat): (v: Vec)
    requires |init| == SegWidth && HistoryFits(hs, segLen)
    ensures |v| == SegWidth
  {
    if hs == [] then init else MinScores(MinFold(init, hs[..|hs| - 1], segLen), hs[|hs| - 1])
  }

  /** vSaturationCheckMax after a history of columns. */
  function MaxFold(init: Vec, hs: seq<seq<SVec>>, segLen: nat): (v: Vec)
    requires |init| == SegWidth && HistoryFits(hs, segLen)
    ensures |v| == SegWidth
  {
    if hs == [] then init else MaxAll(MaxFold(init, hs[..|hs| - 1], segLen), hs[|hs| - 1])
  }

  /** Lane k of the minimum check falls below t exactly when its start or some score in lane k of the history does. */
  lemma {:induction false} MinFoldBelow(init: Vec, hs: seq<seq<SVec>>, segLen: nat, k: nat, t: int)
    requires |init| == SegWidth && HistoryFits(hs, segLen) && k < SegWidth
    ensures MinFold(init, hs, segLen)[k] < t <==>
            init[k] < t || exists c, i :: 0 <= c < |hs| && 0 <= i < segLen && hs[c][i][k].h < t
  {
    if hs != [] {
      var pre := hs[..|hs| - 1];
      MinFoldBelow(init, pre, segLen, k, t);
      MinScoresBelow(MinFold(init, pre, segLen), hs[|hs| - 1], k, t);
      assert forall c :: 0 <= c < |pre| ==> pre[c] == hs[c];
    }
  }

  /** Lane k of the maximum check exceeds t exactly when its start or some score or statistic in lane k of the history does. */
  lemma {:induction false} MaxFoldAbove(init: Vec, hs: seq<seq<SVec>>, segLen: nat, k: nat, t: int)
    requires |init| == SegWidth && HistoryFits(hs, segLen) && k < SegWidth
    ensures MaxFold(init, hs, segLen)[k] > t <==>
            init[k] > t || exists c, i :: 0 <= c < |hs| && 0 <= i < segLen && Over(hs[c][i][k], t)
  {
    if hs != [] {
      var pre := hs[..|hs| - 1];
      MaxFoldAbove(init, pre, segLen, k, t);
      MaxAllAbove(MaxFold(init, pre, segLen), hs[|hs| - 1], k, t);
      assert forall c :: 0 <= c < |pre| ==> pre[c] == hs[c];
    }
  }

  /** A statistic or score above t. */
  predicate Over(c: Cell, t: int)
  {
    c.h > t || c.m > t || c.s > t || c.l > t
  }

  /** Some lane of some column left the safe range, or the limits are inverted so that the initial check registers already fail. */
  predicate Saturates(hs: seq<seq<SVec>>, segLen: nat, negLimit: int, posLimit: int)
    requires HistoryFits(hs, segLen)
  {
    posLimit < negLimit ||
    exists c, i, k :: 0 <= c < |hs| && 0 <= i < segLen && 0 <= k < SegWidth && Unsafe(hs[c][i][k], negLimit, posLimit)
  }

  /** The final movemask test (lines 476-478) fires exactly when the history saturates. */
  lemma SaturationCheck(hs: seq<seq<SVec>>, segLen: nat, negLimit: int, posLimit: int)
    requires HistoryFits(hs, segLen)
    ensures Saturates(hs, segLen, negLimit, posLimit) ==>
            exists k :: 0 <= k < SegWidth &&
              (MinFold(Splat(SegWidth, posLimit), hs, segLen)[k] < negLimit ||
               MaxFold(Splat(SegWidth, negLimit), hs, segLen)[k] > posLimit)
    ensures (exists k :: 0 <= k < SegWidth &&
              (MinFold(Splat(SegWidth, posLimit), hs, segLen)[k] < negLimit ||
               MaxFold(Splat(SegWidth, negLimit), hs, segLen)[k] > posLimit))
            ==> Saturates(hs, segLen, negLimit, posLimit)
  {
    var lo, hi := MinFold(Splat(SegWidth, posLimit), hs, segLen), MaxFold(Splat(SegWidth, negLimit), hs, segLen);
    forall k | 0 <= k < SegWidth
      ensures lo[k] < negLimit <==>
              posLimit < negLimit || exists c, i :: 0 <= c < |hs| && 0 <= i < segLen && hs[c][i][k].h < negLimit
      ensures hi[k] > posLimit <==>
              negLimit > posLimit || exists c, i :: 0 <= c < |hs| && 0 <= i < segLen && Over(hs[c][i][k], posLimit)
    {
      MinFoldBelow(Splat(SegWidth, posLimit), hs, segLen, k, negLimit);
      MaxFoldAbove(Splat(SegWidth, negLimit), hs, segLen, k, posLimit);
    }
    if Saturates(hs, segLen, negLimit, posLimit) {
      if posLimit < negLimit {
        assert lo[0] < negLimit;
      } else {
        var c, i, k :| 0 <= c < |hs| && 0 <= i < segLen && 0 <= k < SegWidth && Unsafe(hs[c][i][k], negLimit, posLimit);
        assert lo[k] < negLimit || hi[k] > posLimit;
      }
      assert exists k :: 0 <= k < SegWidth && (lo[k] < negLimit || hi[k] > posLimit);
    }
    if exists k :: 0 <= k < SegWidth && (lo[k] < negLimit || hi[k] > posLimit) {
      var k :| 0 <= k < SegWidth && (lo[k] < negLimit || hi[k] > posLimit);
      if posLimit >= negLimit {
        if lo[k] < negLimit {
          var c, i :| 0 <= c < |hs| && 0 <= i < segLen && hs[c][i][k].h < negLimit;
          assert Unsafe(hs[c][i][k], negLimit, posLimit);
        } else {
          var c, i :| 0 <= c < |hs| && 0 <= i < segLen && Over(hs[c][i][k], posLimit);
          assert Unsafe(hs[c][i][k], negLimit, posLimit);
        }
      }
      assert Saturates(hs, segLen, negLimit, posLimit);
    }
  }

  /** The int16 at flat position x of a column buffer is the cell of query index x / 8 + x % 8 * segLen (line 463). */
  lemma FlatCell(col: seq<SVec>, x: nat)
    requires |col| > 0 && x < SegWidth * |col| && forall i :: 0 <= i < |col| ==> |col[i]| == SegWidth
    ensures FlatToQuery(x, SegWidth, |col|) < SegWidth * |col|
    ensures x / SegWidth < |col|
    ensures CellAt(col, FlatToQuery(x, SegWidth, |col|)) == col[x / SegWidth][x % SegWidth]
  {
    var segLen := |col|;
    QueryIndexSplit(x, SegWidth, segLen);
    assert x < segLen * SegWidth;
    QueryIndexInjective(x / SegWidth, x % SegWidth, x / SegWidth, x % SegWidth, segLen, SegWidth);
    DivModUnique(FlatToQuery(x, SegWidth, segLen), segLen, x % SegWidth, x / SegWidth);
  }

  /**
   * The end-position walk of lines 455-471 after the first i int16 values of
   * the buffer, in memory order: the smallest unfolded query index below the
   * start `limit` whose score equals `score`, with that cell's statistics.
   */
  function TraceFlat(col: seq<SVec>, score: int, limit: nat, stats: Cell, i: nat): (r: (nat, Cell))
    requires |col| > 0 && i <= SegWidth * |col| && forall t :: 0 <= t < |col| ==> |col[t]| == SegWidth
  {
    if i == 0 then (limit, stats)
    else
      var p := TraceFlat(col, score, limit, stats, i - 1);
      var x := i - 1;
      FlatCell(col, x);
      var cell := col[x / SegWidth][x % SegWidth];
      var temp := FlatToQuery(x, SegWidth, |col|);
      if cell.h == score && temp < p.0 then (temp, cell) else p
  }

  /** The walk keeps the least query index below the limit, among the flat positions seen so far, that holds the score. */
  lemma {:induction false} TraceFlatLeast(col: seq<SVec>, score: int, limit: nat, stats: Cell, i: nat)
    requires |col| > 0 && limit <= SegWidth * |col| && i <= SegWidth * |col|
    requires forall t :: 0 <= t < |col| ==> |col[t]| == SegWidth
    ensures var (eq, c) := TraceFlat(col, score, limit, stats, i);
            eq <= limit &&
            (eq < limit ==> CellAt(col, eq).h == score && c == CellAt(col, eq)) &&
            (eq == limit ==> c == stats) &&
            (forall x :: 0 <= x < i && FlatToQuery(x, SegWidth, |col|) < limit &&
                         CellAt(col, FlatToQuery(x, SegWidth, |col|)).h == score
                      ==> eq <= FlatToQuery(x, SegWidth, |col|))
  {
    if i > 0 {
      TraceFlatLeast(col, score, limit, stats, i - 1);
      FlatCell(col, i - 1);
    }
  }

  /** After the whole buffer the walk has found the first query index holding the score, or none below the limit. */
  lemma TraceFlatFirst(col: seq<SVec>, score: int, limit: nat, stats: Cell)
    requires |col| > 0 && limit <= SegWidth * |col|
    requires forall t :: 0 <= t < |col| ==> |col[t]| == SegWidth
    ensures var (eq, c) := TraceFlat(col, score, limit, stats, SegWidth * |col|);
            eq == FirstWithScore(col, score, 0, limit) &&
            (eq < limit ==> c == CellAt(col, eq)) &&
            (eq == limit ==> c == stats)
  {
    var n := SegWidth * |col|;
    TraceFlatLeast(col, score, limit, stats, n);
    FirstWithScoreLeast(col, score, 0, limit);
    var eq := TraceFlat(col, score, limit, stats, n).0;
    var r := FirstWithScore(col, score, 0, limit);
    if r < limit {
      QueryRoundTrip(r, SegWidth, |col|);
      var x := QueryToFlat(r, SegWidth, |col|);
      assert FlatToQuery(x, SegWidth, |col|) == r;
      assert eq <= r;
    }
    if eq < limit {
      assert r <= eq;
    }
  }
}
