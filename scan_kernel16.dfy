/**
 * The 16-bit semi-global striped scan kernel with statistics, as a
 * stateful object: the H and E column buffers (each grouped with its
 * matches/similar/length registers), the two gap-cost buffers, and the
 * registers that live across database columns (the saturation checks, the
 * last-row maximum, end_ref and end_query).  Every pass over the buffers is
 * proved against the column recurrence of ScanStats16, and the whole run
 * against ScanStats16.Report.
 */
module ScanKernel16 {
  import opened Lanes
  import opened Striped
  import opened ScanStats16

  /** vPosMask: cmpeq(set1(position), set_epi16(0, 1, ..., 7)); lane k is compared with 7 - k. */
  function PosMask(position: int): (m: seq<bool>)
    ensures |m| == SegWidth
  {
    EqV(Splat(SegWidth, position), seq(SegWidth, k => SegWidth - 1 - k))
  }

  /** movemask(and(vPosMask, cond)) tests exactly lane segWidth - 1 - position of cond. */
  lemma PosMaskSelects(position: nat, cond: seq<bool>)
    requires position < SegWidth && |cond| == SegWidth
    ensures AnyLane(AndV(PosMask(position), cond)) <==> cond[SegWidth - 1 - position]
  {
    var m := AndV(PosMask(position), cond);
    if cond[SegWidth - 1 - position] {
      assert m[SegWidth - 1 - position];
    }
    if AnyLane(m) {
      var k :| 0 <= k < |m| && m[k];
      assert k == SegWidth - 1 - position;
    }
  }

  /** The extraction after `position` shifts (lines 416-427): lane 7 then holds the former lane 7 - position. */
  method ExtractLast(v: SVec, position: nat) returns (c: Cell)
    requires |v| == SegWidth && position < SegWidth
    ensures c == v[SegWidth - 1 - position]
  {
    var w := v;
    var k := 0;
    while k < position
      invariant 0 <= k <= position
      invariant w == ShiftN(v, k, ZeroCell)
    {
      w := ShiftCells(w);
      k := k + 1;
    }
    ShiftNAt(v, position, ZeroCell, SegWidth - 1);
    c := w[SegWidth - 1];
  }

  /**
   * The setup loop of lines 169-178: walking the segments from the last down,
   * each segment's gap cost is one gap-extend cheaper and one longer than
   * the next one's, starting from -open and 1 at the last segment.
   */
  method FillGappers(cfg: Config) returns (G: seq<Vec>, GL: seq<Vec>)
    requires cfg.Valid()
    ensures G == GapperColumn(cfg) && GL == GapperLColumn(cfg)
  {
    var segLen := cfg.SegLen();
    var gapper := new Vec[segLen](_ => Splat(SegWidth, 0));
    var gapperL := new Vec[segLen](_ => Splat(SegWidth, 0));
    var vGapper := Splat(SegWidth, Wrap16(0 - cfg.open));
    var vGapperL := Splat(SegWidth, 1);
    var i: nat := segLen;
    while i > 0
      invariant i <= segLen
      invariant forall t :: i <= t < segLen ==> gapper[t] == GapperVec(cfg, t)
      invariant forall t :: i <= t < segLen ==> gapperL[t] == GapperLVec(cfg, t)
      invariant i > 0 ==> vGapper == GapperVec(cfg, i - 1) && vGapperL == GapperLVec(cfg, i - 1)
    {
      gapper[i - 1] := vGapper;
      gapperL[i - 1] := vGapperL;
      vGapper := seq(SegWidth, k requires 0 <= k < SegWidth => Wrap16(vGapper[k] - cfg.gap));
      vGapperL := seq(SegWidth, k requires 0 <= k < SegWidth => Wrap16(vGapperL[k] + 1));
      if i > 1 {
        GapperDown(cfg, i - 1);
      }
      i := i - 1;
    }
    G, GL := gapper[..], gapperL[..];
  }

  class ScanKernel {
    const cfg: Config
    const posLimit: int
    /** The query profile: segLen registers per alphabet symbol. */
    const prof: seq<seq<ProfLane>>
    /** The database sequence, already mapped to profile symbols. */
    const db: seq<nat>
    const segLen: nat
    /** pvH with pvHM/pvHS/pvHL, and pvE with pvEM/pvES/pvEL. */
    const pvH: array<SVec>
    const pvE: array<SVec>
    /** pvGapper and pvGapperL: written only by the setup loop, read-only afterwards. */
    const pvGapper: seq<Vec>
    const pvGapperL: seq<Vec>
    /** vSaturationCheckMin and vSaturationCheckMax. */
    var satMin: Vec
    var satMax: Vec
    /** vMaxH with vMaxM/vMaxS/vMaxL: the best last-row cell per lane. */
    var rowMax: SVec
    var endRef: int
    var endQuery: int

    /** The buffers' sizes and the constants the passes rely on. */
    predicate Layout()
    {
      cfg.Valid() && segLen == cfg.SegLen() && segLen > 0 &&
      pvH != pvE && pvH.Length == segLen && pvE.Length == segLen && GapsFit(pvGapper, pvGapperL, segLen)
    }

    /** The object invariant: the layout, a profile covering the database, and the gap-cost buffers as setup leaves them. */
    predicate Valid()
    {
      Layout() && ProfileFits(prof, db, segLen) &&
      pvGapper == GapperColumn(cfg) && pvGapperL == GapperLColumn(cfg)
    }

    /** The saturation-check registers carried across columns have 8 lanes. */
    ghost predicate Checks()
      reads this`satMin, this`satMax
    {
      |satMin| == SegWidth && |satMax| == SegWidth
    }

    /** The last-row maximum registers have 8 lanes. */
    ghost predicate RowRegisters()
      reads this`rowMax
    {
      |rowMax| == SegWidth
    }

    /** Every register of the H and E buffers has 8 lanes. */
    ghost predicate BuffersHold()
      reads pvH, pvE
    {
      BuffersFit(Buffers(pvH[..], pvE[..]), pvH.Length)
    }

    /**
     * Setup (lines 95-178): the gap-cost buffers are filled from the last
     * segment down, each segment one gap cheaper and one shorter than the
     * next; H and its statistics are zero, E is NEG_LIMIT.
     */
    constructor (cfg: Config, posLimit: int, prof: seq<seq<ProfLane>>, db: seq<nat>)
      requires cfg.Valid() && ProfileFits(prof, db, cfg.SegLen())
      ensures this.cfg == cfg && this.posLimit == posLimit && this.prof == prof && this.db == db
      ensures Swept(0)
      ensures fresh(pvH) && fresh(pvE)
    {
      var segLen := cfg.SegLen();
      SegLenIsCeiling(cfg.s1Len, SegWidth);
      this.cfg := cfg;
      this.posLimit := posLimit;
      this.prof := prof;
      this.db := db;
      this.segLen := segLen;
      var gapper, gapperL := FillGappers(cfg);
      pvGapper := gapper;
      pvGapperL := gapperL;
      pvH := new SVec[segLen](_ => Splat(SegWidth, ZeroCell));
      pvE := new SVec[segLen](_ => Splat(SegWidth, Cell(cfg.negLimit, 0, 0, 0)));
      satMin := Splat(SegWidth, posLimit);
      satMax := Splat(SegWidth, cfg.negLimit);
      rowMax := Splat(SegWidth, RowInit(cfg));
      endRef := 0;
      endQuery := 0;
      assert LastRow(cfg, prof, db)[..0] == [];
    }

    /** One segment of the first pass (lines 239-288), from the state after segment i - 1 to the state after segment i. */
    method FirstStep(P: seq<seq<ProfLane>>, i: nat, vHp: SVec, vHt: SVec, vF: SVec,
                     ghost H0: seq<SVec>, ghost E0: seq<SVec>, ghost ht0: SVec, ghost f0: SVec)
      returns (vHp': SVec, vHt': SVec, vF': SVec)
      requires ColumnFits(H0, E0, P) && GapsFit(pvGapper, pvGapperL, |H0|) && |ht0| == SegWidth && |f0| == SegWidth && pvH != pvE
      requires i < |H0| == pvH.Length == pvE.Length
      requires vHp == DiagIn(H0, i)
      requires var r := FirstFold(H0, E0, P, pvGapper, pvGapperL, cfg.open, cfg.gap, ht0, f0, i);
               vHt == r.ht && vF == r.f && pvH[..] == r.hs + H0[i..] && pvE[..] == r.es + E0[i..]
      modifies pvH, pvE
      ensures vHp' == DiagIn(H0, i + 1)
      ensures var r := FirstFold(H0, E0, P, pvGapper, pvGapperL, cfg.open, cfg.gap, ht0, f0, i + 1);
              vHt' == r.ht && vF' == r.f && pvH[..] == r.hs + H0[i + 1..] && pvE[..] == r.es + E0[i + 1..]
    {
      ghost var r := FirstFold(H0, E0, P, pvGapper, pvGapperL, cfg.open, cfg.gap, ht0, f0, i);
      var vH := pvH[i];
      assert vH == H0[i] && pvE[i] == E0[i];
      var vE := GapV(vH, pvE[i], cfg.open, cfg.gap);
      vF' := AccumulateFV(vF, vHt, pvGapper[i], pvGapperL[i]);
      var vD := DiagV(vHp, P[i]);
      vHt' := BetterV(vE, vD);
      SpliceAppend(r.es, E0, vE);
      pvE[i] := vE;
      SpliceAppend(r.hs, H0, vD);
      pvH[i] := vD;
      vHp' := vH;
    }

    /**
     * The first pass (lines 229-289): E of every segment, the diagonal
     * stored into pvH, the provisional Ht and the running F.
     */
    method FirstPass(P: seq<seq<ProfLane>>) returns (vHt: SVec, vF: SVec)
      requires Layout() && ColumnFits(pvH[..], pvE[..], P)
      modifies pvH, pvE
      ensures var r := FirstFold(old(pvH[..]), old(pvE[..]), P, pvGapper, pvGapperL, cfg.open, cfg.gap,
                                 LimitMinus(cfg.negLimit, pvGapper[0]), FInit(cfg), segLen);
              pvH[..] == r.hs && pvE[..] == r.es && vHt == r.ht && vF == r.f
    {
      ghost var H0, E0 := pvH[..], pvE[..];
      var vHp := ShiftCells(pvH[segLen - 1]);
      vHt := LimitMinus(cfg.negLimit, pvGapper[0]);
      vF := Splat(SegWidth, Cell(cfg.negLimit, 0, 0, 0));
      ghost var ht0 := vHt;
      var i := 0;
      while i < segLen
        invariant 0 <= i <= segLen
        invariant vHp == DiagIn(H0, i)
        invariant var r := FirstFold(H0, E0, P, pvGapper, pvGapperL, cfg.open, cfg.gap, ht0, FInit(cfg), i);
                  vHt == r.ht && vF == r.f && pvH[..] == r.hs + H0[i..] && pvE[..] == r.es + E0[i..]
      {
        vHp, vHt, vF := FirstStep(P, i, vHp, vHt, vF, H0, E0, ht0, FInit(cfg));
        i := i + 1;
      }
    }

    /** The segWidth - 2 shift steps of the pseudo prefix scan (lines 310-324). */
    method ScanLoop(start: SVec, dh: Vec, dl: Vec) returns (f: SVec)
      requires |start| == |dh| == |dl| == SegWidth
      ensures f == ScanF(start, dh, dl, SegWidth - 2)
    {
      f := start;
      var i := 0;
      while i < SegWidth - 2
        invariant 0 <= i <= SegWidth - 2
        invariant f == ScanF(start, dh, dl, i)
      {
        f := ScanStep(f, dh, dl);
        i := i + 1;
      }
    }

    /**
     * The pseudo prefix scan (lines 291-337): F carried across the lanes in
     * segWidth - 2 shift steps, then shifted once more to give the F and H
     * registers entering the final pass.
     */
    method PrefixScan(vHt: SVec, vF: SVec) returns (f: SVec, h: SVec)
      requires Layout() && |vHt| == SegWidth && |vF| == SegWidth
      requires pvGapper[0] == GapperVec(cfg, 0) && pvGapperL[0] == GapperLVec(cfg, 0)
      ensures (f, h) == ScanEntry(cfg, vHt, vF)
    {
      var ht := ShiftCells(vHt);
      var start := ScanV(vF, ht, pvGapper[0], pvGapperL[0]);
      f := ScanLoop(start, SegLenXgap(cfg.negLimit, segLen, cfg.gap), SegLenV(segLen));
      f := AddScore(ShiftCells(f), NegInfFront(cfg.negLimit));
      h := BetterV(f, ht);
    }

    /** Segments 0 .. i - 1 of the final pass done: the F and H registers, the H buffer and the two saturation checks it leaves. */
    ghost function FinalTarget(i: nat, f0: SVec, h0: SVec, D: seq<SVec>, NE: seq<SVec>, s0: Vec, m0: Vec)
      : (SVec, SVec, seq<SVec>, Vec, Vec)
      requires |f0| == SegWidth && |h0| == SegWidth && |s0| == SegWidth && |m0| == SegWidth
      requires |D| == |NE| && i <= |D|
      requires forall t :: 0 <= t < |D| ==> |D[t]| == SegWidth && |NE[t]| == SegWidth
    {
      var r := FinalFold(f0, h0, D, NE, cfg.open, cfg.gap, i);
      (r.f, r.h, r.hs + D[i..], MinScores(s0, r.hs), MaxAll(m0, r.hs))
    }

    /** One segment of the final pass (lines 339-376), with the saturation checks. */
    method FinalStep(i: nat, vF: SVec, vH: SVec,
                     ghost f0: SVec, ghost h0: SVec, ghost D: seq<SVec>, ghost NE: seq<SVec>, ghost s0: Vec, ghost m0: Vec)
      returns (vF': SVec, vH': SVec)
      requires |f0| == SegWidth && |h0| == SegWidth && |s0| == SegWidth && |m0| == SegWidth
      requires i < |D| == |NE| == pvH.Length == pvE.Length && pvH != pvE
      requires forall t :: 0 <= t < |D| ==> |D[t]| == SegWidth && |NE[t]| == SegWidth
      requires pvE[..] == NE
      requires (vF, vH, pvH[..], satMin, satMax) == FinalTarget(i, f0, h0, D, NE, s0, m0)
      modifies pvH, this`satMin, this`satMax
      ensures (vF', vH', pvH[..], satMin, satMax) == FinalTarget(i + 1, f0, h0, D, NE, s0, m0)
    {
      ghost var r := FinalFold(f0, h0, D, NE, cfg.open, cfg.gap, i);
      var vHp := pvH[i];
      var vE := pvE[i];
      assert vHp == D[i] && vE == NE[i];
      vF' := GapV(vH, vF, cfg.open, cfg.gap);
      vH' := FinalV(vHp, vE, vF');
      SpliceAppend(r.hs, D, vH');
      pvH[i] := vH';
      satMin := MinV(satMin, Scores(vH'));
      satMax := MaxAllLanes(satMax, vH');
      assert (r.hs + [vH'])[..i] == r.hs;
    }

    /**
     * The final pass (lines 338-383): the corrected H of every segment, and
     * the saturation checks lowered and raised by every stored register.
     */
    method FinalPass(f0: SVec, h0: SVec, ghost D: seq<SVec>, ghost NE: seq<SVec>)
      requires Layout() && |satMin| == SegWidth && |satMax| == SegWidth
      requires |f0| == SegWidth && |h0| == SegWidth && |D| == |NE| == segLen
      requires forall t :: 0 <= t < |D| ==> |D[t]| == SegWidth && |NE[t]| == SegWidth
      requires pvH[..] == D && pvE[..] == NE
      modifies pvH, this`satMin, this`satMax
      ensures pvH[..] == FinalFold(f0, h0, D, NE, cfg.open, cfg.gap, segLen).hs
      ensures satMin == MinScores(old(satMin), pvH[..])
      ensures satMax == MaxAll(old(satMax), pvH[..])
    {
      ghost var s0, m0 := satMin, satMax;
      var vF, vH := f0, h0;
      var i := 0;
      assert [] + D[0..] == D;
      while i < segLen
        invariant 0 <= i <= segLen
        invariant pvE[..] == NE
        invariant (vF, vH, pvH[..], satMin, satMax) == FinalTarget(i, f0, h0, D, NE, s0, m0)
      {
        vF, vH := FinalStep(i, vF, vH, f0, h0, D, NE, s0, m0);
        i := i + 1;
      }
      assert D[segLen..] == [];
    }

    /** One database column (lines 229-383): the three passes over the segments. */
    method SweepColumn(P: seq<seq<ProfLane>>)
      requires Valid() && Checks() && WellFormed(cfg, pvH[..], pvE[..], P)
      modifies pvH, pvE, this`satMin, this`satMax
      ensures Checks()
      ensures pvH[..] == Column(cfg, old(pvH[..]), old(pvE[..]), P).H
      ensures pvE[..] == Column(cfg, old(pvH[..]), old(pvE[..]), P).E
      ensures satMin == MinScores(old(satMin), pvH[..])
      ensures satMax == MaxAll(old(satMax), pvH[..])
    {
      ghost var H, E := pvH[..], pvE[..];
      ghost var first := FirstOf(cfg, H, E, P);
      assert pvGapper[0] == GapperVec(cfg, 0) && pvGapperL[0] == GapperLVec(cfg, 0);
      var vHt, vF := FirstPass(P);
      var f, h := PrefixScan(vHt, vF);
      FinalPass(f, h, first.hs, first.es);
    }

    /**
     * The last-row update (lines 384-399): each lane of the row maximum is
     * replaced by the new cell on a strict improvement; when the lane holding
     * the last query index improves, end_ref and end_query move to it.
     */
    method TrackLastRow(j: nat)
      requires Layout() && BuffersHold() && RowRegisters()
      modifies this`rowMax, this`endRef, this`endQuery
      ensures RowRegisters()
      ensures rowMax == BetterV(pvH[LastOffset(cfg)], old(rowMax))
      ensures pvH[LastOffset(cfg)][LastLane(cfg)].h > old(rowMax)[LastLane(cfg)].h ==>
                endRef == j && endQuery == cfg.s1Len - 1
      ensures pvH[LastOffset(cfg)][LastLane(cfg)].h <= old(rowMax)[LastLane(cfg)].h ==>
                endRef == old(endRef) && endQuery == old(endQuery)
    {
      var position := SegWidth - 1 - LastLane(cfg);
      var vH := pvH[LastOffset(cfg)];
      var condMax := GtV(Scores(vH), Scores(rowMax));
      rowMax := Blend(rowMax, vH, condMax);
      PosMaskSelects(position, condMax);
      if AnyLane(AndV(PosMask(position), condMax)) {
        endRef := j;
        endQuery := cfg.s1Len - 1;
      }
    }

    /** The maximum of the last column (lines 430-449): hmax of the lane-wise maximum of every score register, from NEG_LIMIT. */
    method LastColumnMax() returns (scoreLast: int)
      requires Layout() && BuffersHold()
      ensures scoreLast == HMax(MaxScores(Splat(SegWidth, cfg.negLimit), pvH[..]))
    {
      var vMaxH := Splat(SegWidth, cfg.negLimit);
      var i := 0;
      while i < segLen
        invariant 0 <= i <= segLen
        invariant vMaxH == MaxScores(Splat(SegWidth, cfg.negLimit), pvH[..i])
      {
        vMaxH := MaxV(Scores(pvH[i]), vMaxH);
        assert pvH[..i + 1][..i] == pvH[..i];
        i := i + 1;
      }
      assert pvH[..segLen] == pvH[..];
      scoreLast := HMax(vMaxH);
    }

    /**
     * The end-position trace (lines 450-474): walking the buffer in memory
     * order and keeping the smallest unfolded query index below end_query
     * whose score equals `score` finds the first such query index; its
     * statistics replace `stats`.
     */
    method TraceEndQuery(score: int, stats: Cell) returns (eq: int, c: Cell)
      requires Layout() && BuffersHold()
      ensures eq == FirstWithScore(pvH[..], score, 0, cfg.s1Len)
      ensures eq < cfg.s1Len ==> c == CellAt(pvH[..], eq)
      ensures eq == cfg.s1Len ==> c == stats
    {
      SegLenIsCeiling(cfg.s1Len, SegWidth);
      ghost var col := pvH[..];
      eq, c := cfg.s1Len, stats;
      var columnLen := segLen * SegWidth;
      var i := 0;
      while i < columnLen
        invariant 0 <= i <= columnLen
        invariant (eq, c) == TraceFlat(col, score, cfg.s1Len, stats, i)
      {
        FlatCell(col, i);
        var cell := pvH[i / SegWidth][i % SegWidth];
        if cell.h == score {
          var temp := i / SegWidth + i % SegWidth * segLen;
          if temp < eq {
            eq := temp;
            c := cell;
          }
        }
        i := i + 1;
      }
      TraceFlatFirst(col, score, cfg.s1Len, stats);
    }

    /**
     * The kernel's state after the first j database columns: the buffers of
     * the column recurrence, the saturation checks over every H stored so
     * far, and the last-row maximum with end_ref and end_query.
     */
    ghost predicate Swept(j: nat)
      reads this, pvH, pvE
    {
      ColumnsDone(j) && RowDone(j)
    }

    /** The buffers and the saturation checks after j columns. */
    ghost predicate ColumnsDone(j: nat)
      reads this`satMin, this`satMax, pvH, pvE
    {
      Valid() && Checks() && j <= |db| &&
      pvH[..] == Sweep(cfg, prof, db, j).H && pvE[..] == Sweep(cfg, prof, db, j).E &&
      satMin == MinFold(Splat(SegWidth, posLimit), History(cfg, prof, db, j), segLen) &&
      satMax == MaxFold(Splat(SegWidth, cfg.negLimit), History(cfg, prof, db, j), segLen)
    }

    /** The last-row maximum, end_ref and end_query after j columns. */
    ghost predicate RowDone(j: nat)
      reads this`rowMax, this`endRef, this`endQuery
    {
      Valid() && RowRegisters() && j <= |db| &&
      rowMax[LastLane(cfg)] == RowBest(LastRow(cfg, prof, db)[..j], RowInit(cfg)).0 &&
      endRef == RowBest(LastRow(cfg, prof, db)[..j], RowInit(cfg)).1 &&
      endQuery == if rowMax[LastLane(cfg)].h > cfg.negLimit then cfg.s1Len - 1 else 0
    }

    /** The column sweep of database column j (lines 180-383). */
    method AdvanceColumns(j: nat)
      requires ColumnsDone(j) && j < |db|
      modifies pvH, pvE, this`satMin, this`satMax
      ensures ColumnsDone(j + 1)
    {
      var P := ColumnProfile(prof, db[j], segLen);
      SweepColumn(P);
      assert pvH[..] == Sweep(cfg, prof, db, j + 1).H && pvE[..] == Sweep(cfg, prof, db, j + 1).E;
      FoldStep(cfg, prof, db, j, Splat(SegWidth, posLimit), Splat(SegWidth, cfg.negLimit));
    }

    /** The last-row bookkeeping of database column j (lines 384-399), once its H buffer is final. */
    method AdvanceRow(j: nat)
      requires RowDone(j) && ColumnsDone(j + 1)
      modifies this`rowMax, this`endRef, this`endQuery
      ensures RowDone(j + 1)
    {
      ghost var row := LastRow(cfg, prof, db);
      assert row[j] == pvH[LastOffset(cfg)][LastLane(cfg)];
      TrackLastRow(j);
      RowBestStep(row, RowInit(cfg), j);
      RowBestFirst(row[..j], RowInit(cfg));
    }

    /** One iteration of the column loop (lines 180-414): database column j. */
    method Advance(j: nat)
      requires Swept(j) && j < |db|
      modifies pvH, pvE, this`satMin, this`satMax, this`rowMax, this`endRef, this`endQuery
      ensures Swept(j + 1)
    {
      AdvanceColumns(j);
      AdvanceRow(j);
    }

    /**
     * The score, end positions and statistics (lines 415-474): the last-row
     * maximum, then the override by the last-column maximum with its end
     * position.
     */
    method Resolve() returns (r: Alignment)
      requires Layout() && BuffersHold() && RowRegisters()
      ensures r == ResolveFrom(cfg, |db|, rowMax[LastLane(cfg)], endRef, endQuery, pvH[..])
    {
      var lane := LastLane(cfg);
      var best := ExtractLast(rowMax, SegWidth - 1 - lane);
      assert best == rowMax[lane];
      var score, eq, er, stats := best.h, endQuery, endRef, best;
      var scoreLast := LastColumnMax();
      if scoreLast > score || (scoreLast == score && er == |db| - 1) {
        score := scoreLast;
        er := |db| - 1;
        eq, stats := TraceEndQuery(score, stats);
        ghost var q := FirstWithScore(pvH[..], scoreLast, 0, cfg.s1Len);
        assert eq == q;
        assert stats == if q < cfg.s1Len then CellAt(pvH[..], q) else best;
      }
      r := Alignment(score, eq, er, stats.m, stats.s, stats.l, false);
    }

    /** The saturation test (lines 476-478): some lane of the minimum check below NEG_LIMIT or of the maximum check above POS_LIMIT. */
    method SaturationFlag() returns (saturated: bool)
      requires ColumnsDone(|db|)
      ensures saturated == Saturates(History(cfg, prof, db, |db|), segLen, cfg.negLimit, posLimit)
    {
      var lo, hi := satMin, satMax;
      var outside := seq(SegWidth, k requires 0 <= k < SegWidth => lo[k] < cfg.negLimit || hi[k] > posLimit);
      saturated := AnyLane(outside);
      ghost var hs := History(cfg, prof, db, |db|);
      assert lo == MinFold(Splat(SegWidth, posLimit), hs, segLen) && hi == MaxFold(Splat(SegWidth, cfg.negLimit), hs, segLen);
      SaturationCheck(hs, segLen, cfg.negLimit, posLimit);
      if saturated {
        var k :| 0 <= k < SegWidth && outside[k];
        assert lo[k] < cfg.negLimit || hi[k] > posLimit;
      } else {
        forall k | 0 <= k < SegWidth
          ensures !(lo[k] < cfg.negLimit || hi[k] > posLimit)
        {
          assert !outside[k];
        }
      }
    }

    /** The result (lines 415-496): zeros with the SATURATED flag set, or the resolved score and end positions. */
    method Finish() returns (r: Alignment)
      requires Swept(|db|)
      ensures r == Report(cfg, posLimit, prof, db)
    {
      var saturated := SaturationFlag();
      if saturated {
        r := Alignment(0, 0, 0, 0, 0, 0, true);
      } else {
        ghost var row := LastRow(cfg, prof, db);
        assert row[..|db|] == row;
        r := Resolve();
      }
    }

    /** The whole kernel after setup (lines 180-496): the column loop, then the result. */
    method Run() returns (r: Alignment)
      requires Swept(0)
      modifies pvH, pvE, this`satMin, this`satMax, this`rowMax, this`endRef, this`endQuery
      ensures r == Report(cfg, posLimit, prof, db)
    {
      var j := 0;
      while j < |db|
        invariant j <= |db| && Swept(j)
      {
        Advance(j);
        j := j + 1;
      }
      r := Finish();
    }
  }

  /**
   * The kernel entry point (lines 89-499): the gap-open and gap-extend costs
   * and the matrix extremes give NEG_LIMIT and POS_LIMIT; the result is the
   * report of the column recurrence.
   */
  method SgStatsScan(prof: seq<seq<ProfLane>>, db: seq<nat>, s1Len: nat, open: int, gap: int, matMin: int, matMax: int)
    returns (r: Alignment)
    requires s1Len >= 1
    requires ProfileFits(prof, db, SegLen(s1Len, SegWidth))
    ensures r == Report(Config(s1Len, open, gap, NegLimit(open, matMin)), PosLimit(matMax), prof, db)
  {
    var cfg := Config(s1Len, open, gap, NegLimit(open, matMin));
    Wrap16Range((if -open < matMin then Int16Min + open else Int16Min - matMin) + 1);
    var kernel := new ScanKernel(cfg, PosLimit(matMax), prof, db);
    r := kernel.Run();
  }
}
