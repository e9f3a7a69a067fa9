/**
 * parasail_sw_trace_striped_profile_avx2_256_8 on arrays: the H, E and Ea
 * buffers, the per-column tag buffer pvHT and the three trace tables are
 * arrays of 32-lane registers; pvHStore, pvHLoad, pvHMax, pvEaStore and
 * pvEaLoad are fields whose referents the pointer swaps exchange.  Every
 * method is proved against the functions of SwTrace8.
 */
module SwKernel8 {
  import opened Lanes
  import opened Striped
  import opened SwTrace8

  /** The insertion table with DIAG stored in every slot of column 0 (the loop before the outer loop). */
  method NewInsTable(segLen: nat, s2Len: nat) returns (t: array<TVec>)
    requires s2Len >= 1
    ensures fresh(t) && t[..] == InitIns(segLen, s2Len)
  {
    var n := segLen * s2Len;
    t := new TVec[n](_ => Splat(SegWidth, Zero));
    var i := 0;
    while i < segLen
      invariant i <= segLen
      invariant t[..] == seq(n, x => if x < i then Splat(SegWidth, Diag) else Splat(SegWidth, Zero))
    {
      SlotFits(i, 0, segLen, s2Len);
      ArrStore(t, Splat(SegWidth, Diag), i, segLen, 0);
      i := i + 1;
    }
  }

  /** A fresh buffer of n registers, every one x (parasail_memalign followed by parasail_memset). */
  method NewBuffer<T>(n: nat, x: T) returns (buf: array<T>)
    ensures fresh(buf) && buf[..] == Splat(n, x)
  {
    buf := new T[n](_ => x);
  }

  class SwKernel {
    const cfg: Config
    const prof: seq<Vec>
    const db: seq<nat>
    const segLen: nat
    /** The ten buffers and tables, whichever field currently points at each. */
    ghost const Repr: set<object>

    var pvHStore: array<Vec>
    var pvHLoad: array<Vec>
    var pvHMax: array<Vec>
    var pvEaStore: array<Vec>
    var pvEaLoad: array<Vec>
    const pvE: array<Vec>
    const pvHT: array<TVec>
    const traceTable: array<TVec>
    const insTable: array<TVec>
    const delTable: array<TVec>

    var vMaxH: Vec
    /** The lane value of vMaxHUnit (a broadcast register in the source). */
    var unit: int
    var score: int
    var endRef: int
    var saturated: bool

    /** The buffer sizes, and which buffers are distinct. */
    ghost predicate Layout()
      reads this`pvHStore, this`pvHLoad, this`pvHMax, this`pvEaStore, this`pvEaLoad
    {
      cfg.Valid() && segLen == cfg.SegLen() && segLen > 0 && ProfileFits(prof, db, segLen) &&
      pvHStore.Length == segLen && pvHLoad.Length == segLen && pvHMax.Length == segLen &&
      pvEaStore.Length == segLen && pvEaLoad.Length == segLen && pvE.Length == segLen &&
      pvHT.Length == segLen && traceTable.Length == segLen * |db| &&
      insTable.Length == segLen * |db| && delTable.Length == segLen * |db| &&
      pvHStore != pvHLoad && pvHStore != pvHMax && pvHLoad != pvHMax &&
      pvHStore != pvE && pvHLoad != pvE && pvHMax != pvE &&
      pvHStore != pvEaStore && pvHLoad != pvEaStore && pvHMax != pvEaStore &&
      pvHStore != pvEaLoad && pvHLoad != pvEaLoad && pvHMax != pvEaLoad &&
      pvEaStore != pvEaLoad && pvEaStore != pvE && pvEaLoad != pvE &&
      pvHT != traceTable && pvHT != insTable && pvHT != delTable &&
      traceTable != insTable && traceTable != delTable && insTable != delTable
    }

    /** Repr is the ten buffers and tables. */
    ghost predicate Owns()
      reads this`pvHStore, this`pvHLoad, this`pvHMax, this`pvEaStore, this`pvEaLoad
    {
      Repr == {pvHStore as object, pvHLoad as object, pvHMax as object, pvEaStore as object, pvEaLoad as object,
              pvE as object, pvHT as object, traceTable as object, insTable as object, delTable as object}
    }

    /** Column j reads the previous H and Ea columns, and profile column P, that env names. */
    ghost predicate Reading(env: ColIn, j: nat, P: seq<Vec>)
      reads this`pvHStore, this`pvHLoad, this`pvHMax, this`pvEaStore, this`pvEaLoad, pvHLoad, pvEaLoad
    {
      Layout() && ColInFits(env, segLen) && env.j == j && env.s2Len == |db| &&
      env.hPrev == pvHLoad[..] && env.eaPrev == pvEaLoad[..] && env.p == P
    }

    /** The arrays one column writes, as values. */
    ghost function Arr(): Arrays
      reads this, pvHStore, pvE, pvEaStore, pvHT, traceTable, insTable, delTable
    {
      Arrays(pvHStore[..], pvE[..], pvEaStore[..], pvHT[..], traceTable[..], insTable[..], delTable[..])
    }

    /** The whole kernel state, as the value SwTrace8 computes with. */
    ghost function State(): KState
      reads this, Repr
      requires Owns()
    {
      KState(pvHLoad[..], pvHMax[..], pvEaLoad[..], Arr(), vMaxH, unit, score, endRef, saturated)
    }

    /**
     * The set-up before the outer loop: the buffers, pvHStore zeroed, pvE and
     * pvEaStore holding -open, and DIAG stored in column 0 of the insertion
     * table.
     */
    constructor (cfg: Config, prof: seq<Vec>, db: seq<nat>)
      requires cfg.Valid() && ProfileFits(prof, db, cfg.SegLen()) && |db| >= 1
      ensures Layout() && Owns() && this.cfg == cfg && this.prof == prof && this.db == db
      ensures State() == KInit(cfg, |db|) && fresh(Repr)
    {
      SegLenPositive(cfg);
      var segLen := cfg.SegLen();
      this.cfg, this.prof, this.db, this.segLen := cfg, prof, db, segLen;
      var n := segLen * |db|;
      var negOpen := Splat(SegWidth, cfg.NegOpen());
      var insTab := NewInsTable(segLen, |db|);
      var hStore := NewBuffer(segLen, Zeros);
      var hLoad := NewBuffer(segLen, Zeros);
      var e := NewBuffer(segLen, negOpen);
      var eaStore := NewBuffer(segLen, negOpen);
      var eaLoad := NewBuffer(segLen, Zeros);
      var ht := NewBuffer(segLen, Splat(SegWidth, Zero));
      var hMax := NewBuffer(segLen, Zeros);
      var tTab := NewBuffer(n, Splat(SegWidth, Zero));
      var delTab := NewBuffer(n, Splat(SegWidth, Zero));
      pvHStore, pvHLoad, pvHMax, pvEaStore, pvEaLoad := hStore, hLoad, hMax, eaStore, eaLoad;
      pvE, pvHT, traceTable, insTable, delTable := e, ht, tTab, insTab, delTab;
      Repr := {hStore as object, hLoad as object, hMax as object, eaStore as object, eaLoad as object, e as object,
               ht as object, tTab as object, insTab as object, delTab as object};
      vMaxH, unit, score, endRef, saturated := Zeros, 0, Int8Min, 0, false;
    }

    /**
     * The H half of a main-pass iteration for segment i: H from H_dag, E and
     * F, stored with its tags in pvHT and the trace table, and folded into vMaxH.
     */
    method MainCell(ghost env: ColIn, j: nat, P: seq<Vec>, i: nat, vH: Vec, vE: Vec, vF: Vec) returns (vHcur: Vec)
      requires Reading(env, j, P) && i < segLen && vH == DiagIn(env.hPrev, i)
      requires |vE| == SegWidth && |vF| == SegWidth && |vMaxH| == SegWidth
      modifies pvHStore, pvHT, traceTable, this`vMaxH
      ensures vHcur == MaxV(MaxV(Hdag(env, i), vE), vF)
      ensures pvHStore[..] == old(pvHStore[..])[i := vHcur]
      ensures pvHT[..] == old(pvHT[..])[i := MainTags(vHcur, Hdag(env, i), vF)]
      ensures (SlotFits(i, j, segLen, |db|);
               traceTable[..] == old(traceTable[..])[TraceSlot(i, j, segLen) := MainTags(vHcur, Hdag(env, i), vF)])
      ensures vMaxH == MaxV(vHcur, old(vMaxH))
    {
      var vH_dag := MaxV(AddsV(vH, P[i]), Zeros);
      vHcur := MaxV(MaxV(vH_dag, vE), vF);
      Store(pvHStore, i, vHcur);
      var vT := Blend(Blend(Splat(SegWidth, Ins), Splat(SegWidth, Del), EqV(vHcur, vF)),
                      Blend(Splat(SegWidth, Diag), Splat(SegWidth, Zero), EqV(vHcur, Zeros)),
                      EqV(vHcur, vH_dag));
      MainTagsBlend(vHcur, vH_dag, vF);
      Store(pvHT, i, vT);
      SlotFits(i, j, segLen, |db|);
      ArrStore(traceTable, vT, i, segLen, j);
      vMaxH := MaxV(vHcur, vMaxH);
    }

    /**
     * Ea = max(H - open, Ea_prev - gap) for segment i, and, unless j is the
     * last column, its tag in column j + 1 of the insertion table.
     */
    method EaUpdate(j: nat, i: nat, vEF_opn: Vec)
      requires Layout() && i < segLen && j < |db| && |vEF_opn| == SegWidth && |pvEaLoad[i]| == SegWidth
      modifies pvEaStore, insTable
      ensures var eaExt := SubsV(pvEaLoad[i], cfg.GapE());
              pvEaStore[..] == old(pvEaStore[..])[i := MaxV(vEF_opn, eaExt)] &&
              insTable[..] == if j + 1 < |db|
                              then SlotFits(i, j + 1, segLen, |db|);
                                   old(insTable[..])[TraceSlot(i, j + 1, segLen) := GapTags(vEF_opn, eaExt, Ins)]
                              else old(insTable[..])
    {
      var vEa := pvEaLoad[i];
      var vEa_ext := SubsV(vEa, cfg.GapE());
      vEa := MaxV(vEF_opn, vEa_ext);
      Store(pvEaStore, i, vEa);
      if j + 1 < |db| {
        GapTagsBlend(vEF_opn, vEa_ext, Ins);
        SlotFits(i, j + 1, segLen, |db|);
        ArrStore(insTable, Blend(Splat(SegWidth, Ins), Splat(SegWidth, Diag), GtV(vEF_opn, vEa_ext)), i, segLen, j + 1);
      }
    }

    /** One iteration of the main inner loop, for segment i: vH is the diagonal H, vF the running F. */
    method MainBody(ghost env: ColIn, ghost st: MainRegs, j: nat, P: seq<Vec>, i: nat, vH: Vec, vF: Vec)
      returns (vHnext: Vec, vF': Vec, vF_ext: Vec, vEF_opn: Vec)
      requires Reading(env, j, P) && i < segLen && pvE[i] == env.e[i]
      requires vH == DiagIn(env.hPrev, i) && MainFits(st, segLen, |db|)
      requires st == MainRegs(Arr(), vF, st.fext, st.opn, vMaxH)
      modifies pvHStore, pvE, pvEaStore, pvHT, traceTable, insTable, delTable, this`vMaxH
      ensures forall x :: 0 <= x < segLen && x != i ==> pvE[x] == old(pvE[x])
      ensures vHnext == pvHLoad[i]
      ensures MainRegs(Arr(), vF', vF_ext, vEF_opn, vMaxH) == MainStep(cfg, env, st, i)
    {
      var vE := pvE[i];
      var vHcur := MainCell(env, j, P, i, vH, vE, vF);
      vEF_opn := SubsV(vHcur, cfg.GapO());
      var vE_ext := SubsV(vE, cfg.GapE());
      Store(pvE, i, MaxV(vEF_opn, vE_ext));
      EaUpdate(j, i, vEF_opn);
      vF_ext := SubsV(vF, cfg.GapE());
      vF' := MaxV(vEF_opn, vF_ext);
      var vTd := Blend(Splat(SegWidth, Del), Splat(SegWidth, Diag), GtV(vEF_opn, vF_ext));
      GapTagsBlend(vEF_opn, vF_ext, Del);
      if i + 1 < segLen {
        SlotFits(i + 1, j, segLen, |db|);
        ArrStore(delTable, vTd, i + 1, segLen, j);
      }
      vHnext := pvHLoad[i];
    }

    /**
     * The main inner loop of column j, once the buffers are rotated: vH0 is
     * the last segment of the previous H column shifted up one lane, P the
     * profile column.  Returns F, F_ext and H - open as the last segment left
     * them.
     */
    method MainLoop(ghost env: ColIn, j: nat, P: seq<Vec>, vH0: Vec) returns (vF: Vec, vF_ext: Vec, vEF_opn: Vec)
      requires Reading(env, j, P) && ArraysFit(Arr(), segLen, |db|) && env.e == pvE[..]
      requires vH0 == DiagIn(env.hPrev, 0) && |vMaxH| == SegWidth
      modifies pvHStore, pvE, pvEaStore, pvHT, traceTable, insTable, delTable, this`vMaxH
      ensures MainRegs(Arr(), vF, vF_ext, vEF_opn, vMaxH) == MainPass(cfg, env, old(Arr()), old(vMaxH))
    {
      ghost var init := MainInit(cfg, Arr(), vMaxH);
      ghost var cur := init;
      var vH := vH0;
      /* F starts at subs(0, open); F_ext and H - open are written before they are read. */
      vF, vF_ext, vEF_opn := SubsV(Zeros, cfg.GapO()), Zeros, Zeros;
      var i := 0;
      while i < segLen
        invariant i <= segLen && MainFits(cur, segLen, |db|)
        invariant cur == MainRegs(Arr(), vF, vF_ext, vEF_opn, vMaxH)
        invariant cur == MainUpTo(cfg, env, init, i)
        invariant i < segLen ==> vH == DiagIn(env.hPrev, i)
        invariant forall x :: i <= x < segLen ==> pvE[x] == env.e[x]
      {
        vH, vF, vF_ext, vEF_opn := MainBody(env, cur, j, P, i, vH, vF);
        cur := MainRegs(Arr(), vF, vF_ext, vEF_opn, vMaxH);
        i := i + 1;
      }
    }

    /**
     * The H half of a Lazy-F iteration for segment i: H raised to F, stored,
     * re-tagged in pvHT and the trace table, and folded into vMaxH.
     */
    method LazyCell(ghost env: ColIn, j: nat, P: seq<Vec>, i: nat, vHp: Vec, vF: Vec) returns (vH: Vec)
      requires Reading(env, j, P) && i < segLen && vHp == DiagIn(env.hPrev, i)
      requires |pvHStore[i]| == SegWidth && |pvHT[i]| == SegWidth && |vF| == SegWidth && |vMaxH| == SegWidth
      modifies pvHStore, pvHT, traceTable, this`vMaxH
      ensures vH == MaxV(old(pvHStore[i]), vF)
      ensures pvHStore[..] == old(pvHStore[..])[i := vH]
      ensures pvHT[..] == old(pvHT[..])[i := Retags(old(pvHT[i]), vH, Hdag(env, i), vF)]
      ensures (SlotFits(i, j, segLen, |db|);
               traceTable[..] == old(traceTable[..])[TraceSlot(i, j, segLen) := Retags(old(pvHT[i]), vH, Hdag(env, i), vF)])
      ensures vMaxH == MaxV(vH, old(vMaxH))
    {
      vH := pvHStore[i];
      vH := MaxV(vH, vF);
      Store(pvHStore, i, vH);
      var vHd := MaxV(AddsV(vHp, P[i]), Zeros);
      var cond := AndNotV(EqV(vH, vHd), EqV(vH, vF));
      var vT := pvHT[i];
      RetagsBlend(vT, vH, vHd, vF);
      vT := Blend(vT, Splat(SegWidth, Del), cond);
      Store(pvHT, i, vT);
      SlotFits(i, j, segLen, |db|);
      ArrStore(traceTable, vT, i, segLen, j);
      vMaxH := MaxV(vH, vMaxH);
    }

    /**
     * One iteration of the Lazy-F inner loop, for segment i: vHp is the
     * diagonal H.  `exit` is the goto out of both loops, taken when no lane
     * has F_ext >= H - open.
     */
    method LazyBody(ghost env: ColIn, ghost st: LazyRegs, j: nat, P: seq<Vec>, i: nat,
                    vHp: Vec, vEF_opn: Vec, vF_ext: Vec, vF: Vec, vFa_ext: Vec, vFa: Vec)
      returns (exit: bool, vHp': Vec, vEF_opn': Vec, vF_ext': Vec, vF': Vec, vFa_ext': Vec, vFa': Vec)
      requires Reading(env, j, P) && i < segLen
      requires vHp == DiagIn(env.hPrev, i) && LazyFits(st, segLen, |db|) && !st.done
      requires st == LazyRegs(Arr(), vMaxH, vEF_opn, vF_ext, vF, vFa_ext, vFa, false, st.steps)
      modifies pvHStore, pvEaStore, pvHT, traceTable, insTable, delTable, this`vMaxH
      ensures !exit ==> vHp' == pvHLoad[i]
      ensures LazyRegs(Arr(), vMaxH, vEF_opn', vF_ext', vF', vFa_ext', vFa', exit, st.steps + 1) == LazyInner(cfg, env, st, i)
    {
      var vH := LazyCell(env, j, P, i, vHp, vF);
      GapTagsBlend(vEF_opn, vFa_ext, Del);
      SlotFits(i, j, segLen, |db|);
      ArrStore(delTable, Blend(Splat(SegWidth, Del), Splat(SegWidth, Diag), GtV(vEF_opn, vFa_ext)), i, segLen, j);
      vEF_opn' := SubsV(vH, cfg.GapO());
      vF_ext' := SubsV(vF, cfg.GapE());
      EaUpdate(j, i, vEF_opn');
      assert Arr() == LazyInner(cfg, env, st, i).a;
      MayGrowMask(vF_ext', vEF_opn');
      if !AnyLane(OrV(GtV(vF_ext', vEF_opn'), EqV(vF_ext', vEF_opn'))) {
        exit, vHp', vF', vFa_ext', vFa' := true, vHp, vF, vFa_ext, vFa;
      } else {
        exit := false;
        vF' := vF_ext';
        vFa_ext' := SubsV(vFa, cfg.GapE());
        vFa' := MaxV(vEF_opn', vFa_ext');
        vHp' := pvHLoad[i];
      }
    }

    /** One round of the Lazy-F loop over the segments, from the shifted registers, until the exit. */
    method LazyRound(ghost env: ColIn, ghost entered: LazyRegs, j: nat, P: seq<Vec>,
                     vHp0: Vec, vEF_opn0: Vec, vF_ext0: Vec, vF0: Vec, vFa_ext0: Vec, vFa0: Vec, ghost steps0: nat)
      returns (done: bool, vEF_opn: Vec, vF_ext: Vec, vF: Vec, vFa_ext: Vec, vFa: Vec, ghost steps: nat)
      requires Reading(env, j, P)
      requires vHp0 == DiagIn(env.hPrev, 0) && LazyFits(entered, segLen, |db|) && !entered.done
      requires entered == LazyRegs(Arr(), vMaxH, vEF_opn0, vF_ext0, vF0, vFa_ext0, vFa0, false, steps0)
      modifies pvHStore, pvEaStore, pvHT, traceTable, insTable, delTable, this`vMaxH
      ensures LazyRegs(Arr(), vMaxH, vEF_opn, vF_ext, vF, vFa_ext, vFa, done, steps) == RoundUpTo(cfg, env, entered, segLen)
    {
      var vHp := vHp0;
      vEF_opn, vF_ext, vF, vFa_ext, vFa := vEF_opn0, vF_ext0, vF0, vFa_ext0, vFa0;
      done, steps := false, steps0;
      ghost var cur := entered;
      var i := 0;
      while i < segLen && !done
        invariant Reading(env, j, P)
        invariant i <= segLen && LazyFits(cur, segLen, |db|)
        invariant cur == LazyRegs(Arr(), vMaxH, vEF_opn, vF_ext, vF, vFa_ext, vFa, done, steps)
        invariant cur == RoundUpTo(cfg, env, entered, i)
        invariant !done && i < segLen ==> vHp == DiagIn(env.hPrev, i)
      {
        done, vHp, vEF_opn, vF_ext, vF, vFa_ext, vFa := LazyBody(env, cur, j, P, i, vHp, vEF_opn, vF_ext, vF, vFa_ext, vFa);
        steps := steps + 1;
        cur := LazyRegs(Arr(), vMaxH, vEF_opn, vF_ext, vF, vFa_ext, vFa, done, steps);
        i := i + 1;
      }
      if done {
        RoundUpToDone(cfg, env, entered, i, segLen);
      }
    }

    /**
     * The Lazy-F loop of column j: at most SegWidth rounds over the segments,
     * each round first shifting the carried registers up one lane; the pass
     * stops at the first segment where no lane of F can still raise an H.
     * `steps` counts the inner iterations.
     */
    method LazyLoop(ghost env: ColIn, j: nat, P: seq<Vec>, vEF_opn0: Vec, vF_ext0: Vec, vF0: Vec) returns (ghost steps: nat)
      requires Reading(env, j, P)
      requires MainFits(MainRegs(Arr(), vF0, vF_ext0, vEF_opn0, vMaxH), segLen, |db|)
      modifies pvHStore, pvEaStore, pvHT, traceTable, insTable, delTable, this`vMaxH
      ensures var r := LazyFrom(cfg, env, LazyInit(old(MainRegs(Arr(), vF0, vF_ext0, vEF_opn0, vMaxH))), SegWidth, segLen);
              Arr() == r.a && vMaxH == r.maxH && steps == r.steps
    {
      ghost var init := LazyInit(MainRegs(Arr(), vF0, vF_ext0, vEF_opn0, vMaxH));
      var vEF_opn, vF_ext, vF := vEF_opn0, vF_ext0, vF0;
      var vFa_ext, vFa := vF_ext, vF;
      var done := false;
      steps := 0;
      ghost var cur := init;
      var k := 0;
      while k < SegWidth && !done
        invariant k <= SegWidth && LazyFits(cur, segLen, |db|)
        invariant cur == LazyRegs(Arr(), vMaxH, vEF_opn, vF_ext, vF, vFa_ext, vFa, done, steps)
        invariant LazyFrom(cfg, env, cur, SegWidth - k, segLen) == LazyFrom(cfg, env, init, SegWidth, segLen)
      {
        var vHp := ShiftIn(pvHLoad[segLen - 1], 0);
        vEF_opn := ShiftIn(vEF_opn, cfg.NegOpen());
        vF_ext := ShiftIn(vF_ext, Int8Min);
        vF := ShiftIn(vF, cfg.NegOpen());
        vFa_ext := ShiftIn(vFa_ext, Int8Min);
        vFa := ShiftIn(vFa, cfg.NegOpen());
        ghost var entered := LazyRegs(Arr(), vMaxH, vEF_opn, vF_ext, vF, vFa_ext, vFa, done, steps);
        LazyFromEnter(cfg, env, cur, entered, SegWidth - k);
        LazyFromUpTo(cfg, env, entered, SegWidth - k - 1, segLen);
        done, vEF_opn, vF_ext, vF, vFa_ext, vFa, steps :=
          LazyRound(env, entered, j, P, vHp, vEF_opn, vF_ext, vF, vFa_ext, vFa, steps);
        cur := LazyRegs(Arr(), vMaxH, vEF_opn, vF_ext, vF, vFa_ext, vFa, done, steps);
        k := k + 1;
      }
      if done {
        LazyFromDone(cfg, env, cur, SegWidth - k, segLen);
      } else {
        LazyFromLast(cfg, env, cur);
      }
    }

    /** The pointer swaps at the top of column j (SWAP3 or SWAP, then SWAP of the Ea buffers). */
    method Swap(j: nat)
      requires Layout() && Owns()
      modifies this`pvHStore, this`pvHLoad, this`pvHMax, this`pvEaStore, this`pvEaLoad
      ensures Layout() && Owns() && State() == Rotate(old(State()), j)
    {
      if endRef == j - 2 {
        pvHMax, pvHLoad, pvHStore := pvHLoad, pvHStore, pvHMax;
      } else {
        pvHLoad, pvHStore := pvHStore, pvHLoad;
      }
      pvEaLoad, pvEaStore := pvEaStore, pvEaLoad;
    }

    /**
     * The main pass and the Lazy-F pass of column j, once the buffers are
     * rotated: vH is the last segment of the previous H column shifted up
     * one lane, vP the profile column of the database symbol.
     */
    method Passes(j: nat, vH: Vec)
      requires Layout() && Owns() && j < |db| && KFits(State(), segLen, |db|)
      requires vH == ShiftIn(pvHLoad[segLen - 1], 0)
      modifies pvHStore, pvE, pvEaStore, pvHT, traceTable, insTable, delTable, this`vMaxH
      ensures Owns() && State() == AfterPasses(cfg, prof, db, old(State()), j)
    {
      var vP := ProfileColumn(prof, db[j], segLen);
      ghost var s := State();
      ghost var env := ColumnInput(cfg, prof, db, s, j);
      var vF, vF_ext, vEF_opn := MainLoop(env, j, vP, vH);
      ghost var m := MainRegs(Arr(), vF, vF_ext, vEF_opn, vMaxH);
      ghost var steps := LazyLoop(env, j, vP, vEF_opn, vF_ext, vF);
      assert pvHLoad[..] == s.hLoad && pvHMax[..] == s.hMax && pvEaLoad[..] == s.eaLoad;
      assert State() == s.(a := Arr(), maxH := vMaxH);
      AfterPassesOf(cfg, prof, db, s, j, m, LazyFrom(cfg, env, LazyInit(m), SegWidth, segLen));
    }

    /** The end of column j: the comparison of vMaxH with vMaxHUnit. */
    method UpdateScore(j: nat)
      requires Owns() && |vMaxH| == SegWidth
      modifies this`score, this`unit, this`endRef, this`saturated
      ensures Owns() && State() == ScoreStep(cfg, old(State()), j)
    {
      if AnyLane(GtV(vMaxH, Splat(SegWidth, unit))) {
        score := HMax(vMaxH);
        if score > cfg.MaxP() {
          saturated := true;
        } else {
          unit, endRef := score, j;
        }
      }
    }

    /** Column j of the outer loop. */
    method ProcessColumn(j: nat)
      requires Layout() && Owns() && j < |db| && !saturated && KFits(State(), segLen, |db|)
      modifies this, Repr
      ensures Layout() && Owns()
      ensures State() == ColumnStep(cfg, prof, db, old(State()), j)
    {
      var vH := ShiftIn(pvHStore[segLen - 1], 0);
      Swap(j);
      Passes(j, vH);
      UpdateScore(j);
    }

    /** The final swap: pvHMax takes the H buffer of column end_ref. */
    method FinalSwap(n: nat)
      requires Layout() && Owns()
      modifies this`pvHStore, this`pvHLoad, this`pvHMax
      ensures Layout() && Owns() && pvHMax[..] == BestColumn(old(State()), n)
    {
      if endRef == n - 1 {
        pvHMax, pvHStore := pvHStore, pvHMax;
      } else if endRef == n - 2 {
        pvHMax, pvHLoad := pvHLoad, pvHMax;
      }
    }

    /** The end_query walk: the least query index, from s1Len - 1 down, whose byte of pvHMax equals the score. */
    method EndQuery() returns (eq: nat)
      requires Layout() && Vecs(pvHMax[..], segLen)
      ensures eq == EndQueryWalk(pvHMax[..], score, cfg.s1Len - 1, SegWidth * segLen)
    {
      eq := cfg.s1Len - 1;
      var x := 0;
      while x < SegWidth * segLen
        invariant x <= SegWidth * segLen
        invariant eq == EndQueryWalk(pvHMax[..], score, cfg.s1Len - 1, x)
      {
        FlatIndex(x, segLen);
        if pvHMax[x / SegWidth][x % SegWidth] == score {
          var temp := x / SegWidth + x % SegWidth * segLen;
          if temp < eq {
            eq := temp;
          }
        }
        x := x + 1;
      }
    }

    /** The outer loop over the database, left at the first column whose score saturates. */
    method Sweep()
      requires Layout() && Owns() && State() == KInit(cfg, |db|)
      modifies this, Repr
      ensures Layout() && Owns() && State() == Run(cfg, prof, db, |db|)
    {
      var j := 0;
      while j < |db|
        invariant j <= |db| && Layout() && Owns() && !saturated
        invariant State() == Run(cfg, prof, db, j)
      {
        ProcessColumn(j);
        if saturated {
          RunSaturatedStays(cfg, prof, db, j + 1, |db|);
          return;
        }
        j := j + 1;
      }
    }

    /**
     * After the sweep over n columns: the INT8_MAX check, and for an
     * unsaturated score the final swap and the end_query walk over the column
     * of end_ref.
     */
    method Finish(n: nat) returns (r: Alignment)
      requires Layout() && Owns() && KFits(State(), segLen, n)
      modifies this`saturated, this`pvHStore, this`pvHLoad, this`pvHMax
      ensures r == Outcome(cfg, old(State()), n)
    {
      if score == Int8Max {
        saturated := true;
      }
      if saturated {
        return Alignment(0, 0, 0, true, traceTable[..], insTable[..], delTable[..]);
      }
      FinalSwap(n);
      var eq := EndQuery();
      r := Alignment(score, eq, endRef, false, traceTable[..], insTable[..], delTable[..]);
    }

    /** The sweep, then the result. */
    method Align() returns (r: Alignment)
      requires Layout() && Owns() && State() == KInit(cfg, |db|)
      modifies this, Repr
      ensures r == Report(cfg, prof, db)
    {
      Sweep();
      r := Finish(|db|);
    }
  }

  /**
   * parasail_sw_trace_striped_profile_avx2_256_8: the local alignment score
   * of the query behind the profile against the (mapped) database sequence,
   * with where it ends and the three trace tables filled on the way.
   */
  method SwTraceStriped(cfg: Config, prof: seq<Vec>, db: seq<nat>) returns (r: Alignment)
    requires cfg.Valid() && ProfileFits(prof, db, cfg.SegLen()) && |db| >= 1
    ensures r == Report(cfg, prof, db)
  {
    var k := new SwKernel(cfg, prof, db);
    r := k.Align();
  }
}
