/**
 * The 8-bit striped Smith-Waterman kernel with traceback
 * (parasail_sw_trace_striped_profile_avx2_256_8): 32 lanes of int8 with
 * saturating adds/subs, a main pass per database column, a Lazy-F pass that
 * corrects the vertical-gap values, and three trace tables (trace, ins, del).
 *
 * This module is the specification side: one column of the kernel as pure
 * functions of the buffer contents, the sweep over the database as a fold,
 * the final report, and the lemmas about them.  Module SwKernel8 runs the
 * same computation on arrays.
 */
module SwTrace8 {
  import opened Lanes
  import opened Striped

  /** Number of int8 lanes in a 256-bit register. */
  const SegWidth: nat := 32

  /** The trace codes the kernel stores: PARASAIL_ZERO, PARASAIL_DIAG, PARASAIL_INS, PARASAIL_DEL. */
  datatype Tag = Zero | Diag | Ins | Del

  type TVec = seq<Tag>

  /**
   * The parameters: query length (profile->s1Len), gap open and extension
   * penalties, and the substitution matrix maximum (matrix->max).
   */
  datatype Config = Config(s1Len: nat, open: int, gap: int, matMax: int)
  {
    predicate Valid()
    {
      s1Len >= 1
    }

    function SegLen(): nat
    {
      Striped.SegLen(s1Len, SegWidth)
    }

    /** set1_epi8(open): the open penalty as it sits in a byte lane. */
    function GapO(): int
    {
      Wrap8(open)
    }

    /** set1_epi8(gap). */
    function GapE(): int
    {
      Wrap8(gap)
    }

    /** -open as a byte: the initial E and the value inserted into lane 0 in the Lazy-F pass. */
    function NegOpen(): int
    {
      Wrap8(-open)
    }

    /** maxp = INT8_MAX - (int8_t)(matrix->max + 1), held in an int8_t. */
    function MaxP(): int
    {
      Wrap8(Int8Max - Wrap8(matMax + 1))
    }
  }

  lemma SegLenPositive(cfg: Config)
    requires cfg.Valid()
    ensures cfg.SegLen() >= 1
  {
    SegLenIsCeiling(cfg.s1Len, SegWidth);
  }

  predicate Vecs(vs: seq<Vec>, n: nat)
  {
    |vs| == n && forall i :: 0 <= i < n ==> |vs[i]| == SegWidth
  }

  predicate TVecs(ts: seq<TVec>, n: nat)
  {
    |ts| == n && forall i :: 0 <= i < n ==> |ts[i]| == SegWidth
  }

  const Zeros: Vec := Splat(SegWidth, 0)

  /** The tag of a freshly computed H: H_dag wins (zero or diagonal), then F (deletion), else E (insertion). */
  function MainTag(h: int, hdag: int, f: int): Tag
  {
    if h == hdag then (if h == 0 then Zero else Diag) else if h == f then Del else Ins
  }

  function MainTags(h: Vec, hdag: Vec, f: Vec): (t: TVec)
    requires |h| == |hdag| == |f|
    ensures |t| == |h|
  {
    seq(|h|, k requires 0 <= k < |h| => MainTag(h[k], hdag[k], f[k]))
  }

  /** The Lazy-F re-tag: a lane whose H equals F and not H_dag becomes a deletion. */
  function Retag(t: Tag, h: int, hdag: int, f: int): Tag
  {
    if h != hdag && h == f then Del else t
  }

  function Retags(t: TVec, h: Vec, hdag: Vec, f: Vec): (r: TVec)
    requires |t| == |h| == |hdag| == |f|
    ensures |r| == |t|
  {
    seq(|t|, k requires 0 <= k < |t| => Retag(t[k], h[k], hdag[k], f[k]))
  }

  /** blendv(other, DIAG, cmpgt(opn, ext)): opening from H strictly beats extending the gap. */
  function GapTags(opn: Vec, ext: Vec, other: Tag): (t: TVec)
    requires |opn| == |ext|
    ensures |t| == |opn|
  {
    seq(|opn|, k requires 0 <= k < |opn| => if opn[k] > ext[k] then Diag else other)
  }

  /** The Lazy-F exit test: some lane has F_ext >= H - open, so another pass may still raise an H. */
  predicate FMayGrow(fext: Vec, opn: Vec)
    requires |fext| == |opn|
  {
    exists k :: 0 <= k < |fext| && fext[k] >= opn[k]
  }

  /** The tag blends of the main pass compute MainTag lane by lane. */
  lemma MainTagsBlend(h: Vec, hdag: Vec, f: Vec)
    requires |h| == |hdag| == |f| == SegWidth
    ensures Blend(Blend(Splat(SegWidth, Ins), Splat(SegWidth, Del), EqV(h, f)),
                  Blend(Splat(SegWidth, Diag), Splat(SegWidth, Zero), EqV(h, Zeros)),
                  EqV(h, hdag)) == MainTags(h, hdag, f)
  {
  }

  /** blendv(vT, DEL, andnot(cmpeq(H, H_dag), cmpeq(H, F))) is the Lazy-F re-tag. */
  lemma RetagsBlend(t: TVec, h: Vec, hdag: Vec, f: Vec)
    requires |t| == |h| == |hdag| == |f| == SegWidth
    ensures Blend(t, Splat(SegWidth, Del), AndNotV(EqV(h, hdag), EqV(h, f))) == Retags(t, h, hdag, f)
  {
  }

  /** blendv(other, DIAG, cmpgt(opn, ext)). */
  lemma GapTagsBlend(opn: Vec, ext: Vec, other: Tag)
    requires |opn| == |ext| == SegWidth
    ensures Blend(Splat(SegWidth, other), Splat(SegWidth, Diag), GtV(opn, ext)) == GapTags(opn, ext, other)
  {
  }

  /** movemask(cmpgt(F_ext, H - open) | cmpeq(F_ext, H - open)) is non-zero exactly when some lane may still grow. */
  lemma MayGrowMask(fext: Vec, opn: Vec)
    requires |fext| == |opn|
    ensures AnyLane(OrV(GtV(fext, opn), EqV(fext, opn))) <==> FMayGrow(fext, opn)
  {
    var m := OrV(GtV(fext, opn), EqV(fext, opn));
    if FMayGrow(fext, opn) {
      var k :| 0 <= k < |fext| && fext[k] >= opn[k];
      assert m[k];
    }
  }

  /**
   * What one column reads and never writes: its index j, the database
   * length, the previous H column (pvHLoad), E as it was when the column
   * began (pvE), the previous Ea column (pvEaLoad) and the profile
   * column of the database symbol.
   */
  datatype ColIn = ColIn(j: nat, s2Len: nat, hPrev: seq<Vec>, e: seq<Vec>, eaPrev: seq<Vec>, p: seq<Vec>)

  predicate ColInFits(env: ColIn, segLen: nat)
  {
    segLen > 0 && env.j < env.s2Len &&
    Vecs(env.hPrev, segLen) && Vecs(env.e, segLen) && Vecs(env.eaPrev, segLen) && Vecs(env.p, segLen)
  }

  /** The H of the diagonal neighbour of segment i: the last segment shifted up one lane for i = 0. */
  function DiagIn(hPrev: seq<Vec>, i: nat): (v: Vec)
    requires i < |hPrev| && |hPrev[|hPrev| - 1]| == SegWidth
    ensures |v| == SegWidth || (i > 0 && v == hPrev[i - 1])
  {
    if i == 0 then ShiftIn(hPrev[|hPrev| - 1], 0) else hPrev[i - 1]
  }

  /** H_dag = max(adds(H_diag, P), 0) for segment i. */
  function Hdag(env: ColIn, i: nat): (v: Vec)
    requires ColInFits(env, |env.hPrev|) && i < |env.hPrev|
    ensures |v| == SegWidth
  {
    MaxV(AddsV(DiagIn(env.hPrev, i), env.p[i]), Zeros)
  }

  /** What one column writes: pvHStore, pvE, pvEaStore, pvHT and the trace, ins and del tables. */
  datatype Arrays = Arrays(hs: seq<Vec>, es: seq<Vec>, eas: seq<Vec>, ht: seq<TVec>,
                           tTab: seq<TVec>, insTab: seq<TVec>, delTab: seq<TVec>)

  predicate ArraysFit(a: Arrays, segLen: nat, s2Len: nat)
  {
    Vecs(a.hs, segLen) && Vecs(a.es, segLen) && Vecs(a.eas, segLen) && TVecs(a.ht, segLen) &&
    |a.tTab| == segLen * s2Len && |a.insTab| == segLen * s2Len && |a.delTab| == segLen * s2Len
  }

  /** The arrays and the registers carried along the main pass. */
  datatype MainRegs = MainRegs(a: Arrays, f: Vec, fext: Vec, opn: Vec, maxH: Vec)

  predicate MainFits(st: MainRegs, segLen: nat, s2Len: nat)
  {
    ArraysFit(st.a, segLen, s2Len) &&
    |st.f| == SegWidth && |st.fext| == SegWidth && |st.opn| == SegWidth && |st.maxH| == SegWidth
  }

  /** Slot (t, d) of a segLen x s2Len trace table exists. */
  lemma SlotFits(t: nat, d: nat, segLen: nat, s2Len: nat)
    requires t < segLen && d < s2Len
    ensures TraceSlot(t, d, segLen) < segLen * s2Len
  {
    TraceSlotInjective(t, d, t, d, segLen, s2Len);
  }

  /** One iteration of the main inner loop, for segment i. */
  function MainStep(cfg: Config, env: ColIn, st: MainRegs, i: nat): (r: MainRegs)
    requires ColInFits(env, cfg.SegLen()) && i < cfg.SegLen() && MainFits(st, cfg.SegLen(), env.s2Len)
    ensures MainFits(r, cfg.SegLen(), env.s2Len)
  {
    var segLen := cfg.SegLen();
    var hdag := Hdag(env, i);
    var e := env.e[i];
    var h := MaxV(MaxV(hdag, e), st.f);
    var t := MainTags(h, hdag, st.f);
    var opn := SubsV(h, cfg.GapO());
    var eaExt := SubsV(env.eaPrev[i], cfg.GapE());
    var fext := SubsV(st.f, cfg.GapE());
    SlotFits(i, env.j, segLen, env.s2Len);
    var a := st.a.(hs := st.a.hs[i := h],
                   ht := st.a.ht[i := t],
                   tTab := st.a.tTab[TraceSlot(i, env.j, segLen) := t],
                   es := st.a.es[i := MaxV(opn, SubsV(e, cfg.GapE()))],
                   eas := st.a.eas[i := MaxV(opn, eaExt)],
                   insTab := if env.j + 1 < env.s2Len
                             then SlotFits(i, env.j + 1, segLen, env.s2Len);
                                  st.a.insTab[TraceSlot(i, env.j + 1, segLen) := GapTags(opn, eaExt, Ins)]
                             else st.a.insTab,
                   delTab := if i + 1 < segLen
                             then SlotFits(i + 1, env.j, segLen, env.s2Len);
                                  st.a.delTab[TraceSlot(i + 1, env.j, segLen) := GapTags(opn, fext, Del)]
                             else st.a.delTab);
    MainRegs(a, MaxV(opn, fext), fext, opn, MaxV(h, st.maxH))
  }

  /** The main pass's arrays and registers after its first n iterations, over segments 0 to n - 1. */
  function MainUpTo(cfg: Config, env: ColIn, st: MainRegs, n: nat): (r: MainRegs)
    requires ColInFits(env, cfg.SegLen()) && n <= cfg.SegLen() && MainFits(st, cfg.SegLen(), env.s2Len)
    ensures MainFits(r, cfg.SegLen(), env.s2Len)
  {
    if n == 0 then st else MainStep(cfg, env, MainUpTo(cfg, env, st, n - 1), n - 1)
  }

  /** The arrays and registers of the Lazy-F pass; `done` is the goto out of both loops, `steps` counts inner iterations. */
  datatype LazyRegs = LazyRegs(a: Arrays, maxH: Vec, opn: Vec, fext: Vec, f: Vec, faext: Vec, fa: Vec,
                               done: bool, steps: nat)

  predicate LazyFits(st: LazyRegs, segLen: nat, s2Len: nat)
  {
    ArraysFit(st.a, segLen, s2Len) &&
    |st.maxH| == SegWidth && |st.opn| == SegWidth && |st.fext| == SegWidth &&
    |st.f| == SegWidth && |st.faext| == SegWidth && |st.fa| == SegWidth
  }

  /** The shifts at the top of each Lazy-F round: every carried register moves up one lane. */
  function LazyEnter(cfg: Config, st: LazyRegs): (r: LazyRegs)
    requires |st.opn| > 0 && |st.fext| > 0 && |st.f| > 0 && |st.faext| > 0 && |st.fa| > 0
    ensures r.a == st.a && r.maxH == st.maxH && r.done == st.done && r.steps == st.steps
    ensures |r.opn| == |st.opn| && |r.fext| == |st.fext| && |r.f| == |st.f| && |r.faext| == |st.faext| && |r.fa| == |st.fa|
  {
    st.(opn := ShiftIn(st.opn, cfg.NegOpen()),
        fext := ShiftIn(st.fext, Int8Min),
        f := ShiftIn(st.f, cfg.NegOpen()),
        faext := ShiftIn(st.faext, Int8Min),
        fa := ShiftIn(st.fa, cfg.NegOpen()))
  }

  /** One iteration of the Lazy-F inner loop, for segment i. */
  function LazyInner(cfg: Config, env: ColIn, st: LazyRegs, i: nat): (r: LazyRegs)
    requires ColInFits(env, cfg.SegLen()) && i < cfg.SegLen() && LazyFits(st, cfg.SegLen(), env.s2Len)
    ensures LazyFits(r, cfg.SegLen(), env.s2Len) && r.steps == st.steps + 1
  {
    var segLen := cfg.SegLen();
    var h := MaxV(st.a.hs[i], st.f);
    var hdag := Hdag(env, i);
    var t := Retags(st.a.ht[i], h, hdag, st.f);
    var opn := SubsV(h, cfg.GapO());
    var fext := SubsV(st.f, cfg.GapE());
    var eaExt := SubsV(env.eaPrev[i], cfg.GapE());
    SlotFits(i, env.j, segLen, env.s2Len);
    var a := st.a.(hs := st.a.hs[i := h],
                   ht := st.a.ht[i := t],
                   tTab := st.a.tTab[TraceSlot(i, env.j, segLen) := t],
                   delTab := st.a.delTab[TraceSlot(i, env.j, segLen) := GapTags(st.opn, st.faext, Del)],
                   eas := st.a.eas[i := MaxV(opn, eaExt)],
                   insTab := if env.j + 1 < env.s2Len
                             then SlotFits(i, env.j + 1, segLen, env.s2Len);
                                  st.a.insTab[TraceSlot(i, env.j + 1, segLen) := GapTags(opn, eaExt, Ins)]
                             else st.a.insTab);
    var maxH := MaxV(h, st.maxH);
    if !FMayGrow(fext, opn) then
      st.(a := a, maxH := maxH, opn := opn, fext := fext, done := true, steps := st.steps + 1)
    else
      var faext := SubsV(st.fa, cfg.GapE());
      LazyRegs(a, maxH, opn, fext, fext, faext, MaxV(opn, faext), false, st.steps + 1)
  }

  /**
   * The Lazy-F pass from segment i of the current round on, with k rounds
   * still to start after it: each round begins with the lane shifts and
   * runs the inner iterations over the segments; the pass stops at the exit
   * or once the rounds run out.
   */
  function LazyFrom(cfg: Config, env: ColIn, st: LazyRegs, k: nat, i: nat): (r: LazyRegs)
    requires ColInFits(env, cfg.SegLen()) && i <= cfg.SegLen() && LazyFits(st, cfg.SegLen(), env.s2Len)
    ensures LazyFits(r, cfg.SegLen(), env.s2Len)
    decreases k, cfg.SegLen() - i
  {
    if st.done then st
    else if i < cfg.SegLen() then LazyFrom(cfg, env, LazyInner(cfg, env, st, i), k, i + 1)
    else if k == 0 then st
    else LazyFrom(cfg, env, LazyEnter(cfg, st), k - 1, 0)
  }

  /**
   * A Lazy-F round's arrays and registers after its first n inner
   * iterations, over segments 0 to n - 1; once the exit is taken nothing
   * changes any more.
   */
  function RoundUpTo(cfg: Config, env: ColIn, st: LazyRegs, n: nat): (r: LazyRegs)
    requires ColInFits(env, cfg.SegLen()) && n <= cfg.SegLen() && LazyFits(st, cfg.SegLen(), env.s2Len)
    ensures LazyFits(r, cfg.SegLen(), env.s2Len)
  {
    if n == 0 then st
    else
      var p := RoundUpTo(cfg, env, st, n - 1);
      if p.done then p else LazyInner(cfg, env, p, n - 1)
  }

  /** A round that has exited after n iterations ends there. */
  lemma {:induction false} RoundUpToDone(cfg: Config, env: ColIn, st: LazyRegs, n: nat, m: nat)
    requires ColInFits(env, cfg.SegLen()) && n <= m <= cfg.SegLen() && LazyFits(st, cfg.SegLen(), env.s2Len)
    requires RoundUpTo(cfg, env, st, n).done
    ensures RoundUpTo(cfg, env, st, m) == RoundUpTo(cfg, env, st, n)
    decreases m
  {
    if m > n {
      RoundUpToDone(cfg, env, st, n, m - 1);
    }
  }

  /** The Lazy-F pass from the start of a round is the pass from the end of its first n iterations. */
  lemma {:induction false} LazyFromUpTo(cfg: Config, env: ColIn, st: LazyRegs, k: nat, n: nat)
    requires ColInFits(env, cfg.SegLen()) && n <= cfg.SegLen() && LazyFits(st, cfg.SegLen(), env.s2Len)
    ensures LazyFrom(cfg, env, st, k, 0) == LazyFrom(cfg, env, RoundUpTo(cfg, env, st, n), k, n)
  {
    if n > 0 {
      LazyFromUpTo(cfg, env, st, k, n - 1);
    }
  }

  /** A round that has exited stays where it is, whatever segment it stopped at. */
  lemma LazyFromDone(cfg: Config, env: ColIn, st: LazyRegs, k: nat, i: nat)
    requires ColInFits(env, cfg.SegLen()) && i <= cfg.SegLen() && LazyFits(st, cfg.SegLen(), env.s2Len) && st.done
    ensures LazyFrom(cfg, env, st, k, i) == st && LazyFrom(cfg, env, st, k, cfg.SegLen()) == st
  {
  }

  /** At the end of a round with rounds left and no exit, the next round begins with the shifts. */
  lemma LazyFromEnter(cfg: Config, env: ColIn, st: LazyRegs, entered: LazyRegs, k: nat)
    requires ColInFits(env, cfg.SegLen()) && LazyFits(st, cfg.SegLen(), env.s2Len) && !st.done && k > 0
    requires entered == LazyEnter(cfg, st)
    ensures LazyFits(entered, cfg.SegLen(), env.s2Len)
    ensures LazyFrom(cfg, env, st, k, cfg.SegLen()) == LazyFrom(cfg, env, entered, k - 1, 0)
  {
  }

  /** With no round left to start, the end of a round is the end of the pass. */
  lemma LazyFromLast(cfg: Config, env: ColIn, st: LazyRegs)
    requires ColInFits(env, cfg.SegLen()) && LazyFits(st, cfg.SegLen(), env.s2Len)
    ensures LazyFrom(cfg, env, st, 0, cfg.SegLen()) == st
  {
  }

  /** The registers at the start of a column: F = subs(0, open); the others are written before they are read. */
  function MainInit(cfg: Config, a: Arrays, maxH: Vec): MainRegs
  {
    MainRegs(a, SubsV(Zeros, cfg.GapO()), Zeros, Zeros, maxH)
  }

  /** The Lazy-F pass starts from the main pass's registers, with Fa = F and Fa_ext = F_ext. */
  function LazyInit(m: MainRegs): LazyRegs
  {
    LazyRegs(m.a, m.maxH, m.opn, m.fext, m.f, m.fext, m.f, false, 0)
  }

  /** The main pass of a column. */
  function MainPass(cfg: Config, env: ColIn, a: Arrays, maxH: Vec): (r: MainRegs)
    requires ColInFits(env, cfg.SegLen()) && ArraysFit(a, cfg.SegLen(), env.s2Len) && |maxH| == SegWidth
    ensures MainFits(r, cfg.SegLen(), env.s2Len)
  {
    MainUpTo(cfg, env, MainInit(cfg, a, maxH), cfg.SegLen())
  }

  /** One whole column: the main pass, then at most SegWidth Lazy-F rounds (the main pass ends where a round would). */
  function Column(cfg: Config, env: ColIn, a: Arrays, maxH: Vec): (r: LazyRegs)
    requires ColInFits(env, cfg.SegLen()) && ArraysFit(a, cfg.SegLen(), env.s2Len) && |maxH| == SegWidth
    ensures LazyFits(r, cfg.SegLen(), env.s2Len)
  {
    LazyFrom(cfg, env, LazyInit(MainPass(cfg, env, a, maxH)), SegWidth, cfg.SegLen())
  }

  /** The profile holds segLen registers of 32 lanes for every symbol the (mapped) database uses. */
  predicate ProfileFits(prof: seq<Vec>, db: seq<nat>, segLen: nat)
  {
    (forall j :: 0 <= j < |db| ==> db[j] * segLen + segLen <= |prof|) &&
    (forall x :: 0 <= x < |prof| ==> |prof[x]| == SegWidth)
  }

  /** vP = vProfile + mapper[s2[j]] * segLen: the segLen registers of one symbol. */
  function ProfileColumn(prof: seq<Vec>, sym: nat, segLen: nat): (P: seq<Vec>)
    requires sym * segLen + segLen <= |prof|
    requires forall x :: 0 <= x < |prof| ==> |prof[x]| == SegWidth
    ensures Vecs(P, segLen) && forall i :: 0 <= i < segLen ==> P[i] == prof[sym * segLen + i]
  {
    prof[sym * segLen .. sym * segLen + segLen]
  }

  /**
   * The kernel state between columns: pvHLoad, pvHMax and pvEaLoad (the
   * buffers the pointer swaps rotate), the other arrays (whose `hs` is
   * pvHStore and `eas` is pvEaStore), vMaxH, the score of vMaxHUnit,
   * score, end_ref and the saturation flag.
   */
  datatype KState = KState(hLoad: seq<Vec>, hMax: seq<Vec>, eaLoad: seq<Vec>, a: Arrays, maxH: Vec,
                           unit: int, score: int, endRef: int, saturated: bool)

  predicate KFits(st: KState, segLen: nat, s2Len: nat)
  {
    ArraysFit(st.a, segLen, s2Len) && Vecs(st.hLoad, segLen) && Vecs(st.hMax, segLen) &&
    Vecs(st.eaLoad, segLen) && |st.maxH| == SegWidth
  }

  /** The insertion table after the set-up loop: DIAG in every slot of column 0. */
  function InitIns(segLen: nat, s2Len: nat): (t: seq<TVec>)
    ensures |t| == segLen * s2Len
  {
    seq(segLen * s2Len, x => if x < segLen then Splat(SegWidth, Diag) else Splat(SegWidth, Zero))
  }

  /**
   * The state before the first column.  pvHStore is zeroed and pvE and
   * pvEaStore hold -open; the buffers the source leaves uninitialised
   * (pvHLoad, pvHMax, pvEaLoad, pvHT and the tables) are taken as zero.
   */
  function KInit(cfg: Config, s2Len: nat): (st: KState)
    ensures KFits(st, cfg.SegLen(), s2Len)
  {
    var segLen := cfg.SegLen();
    var zeros := Splat(segLen, Zeros);
    var negOpen := Splat(segLen, Splat(SegWidth, cfg.NegOpen()));
    var noTags := Splat(segLen * s2Len, Splat(SegWidth, Zero));
    KState(zeros, zeros, zeros,
           Arrays(zeros, negOpen, negOpen, Splat(segLen, Splat(SegWidth, Zero)), noTags, InitIns(segLen, s2Len), noTags),
           Zeros, 0, Int8Min, 0, false)
  }

  /**
   * The pointer swaps at the top of column j: when end_ref is the column
   * before last, pvHMax takes pvHLoad (the column end_ref), pvHLoad takes
   * pvHStore and pvHStore takes the old pvHMax; otherwise only the load and
   * store buffers trade places.  The Ea buffers always trade places.
   */
  function Rotate(st: KState, j: nat): (r: KState)
    ensures r.maxH == st.maxH && r.unit == st.unit && r.score == st.score && r.endRef == st.endRef
    ensures r.saturated == st.saturated && r.a.es == st.a.es && r.a.ht == st.a.ht
  {
    var ea := st.(a := st.a.(eas := st.eaLoad), eaLoad := st.a.eas);
    if st.endRef == j - 2 then ea.(hMax := st.hLoad, hLoad := st.a.hs, a := ea.a.(hs := st.hMax))
    else ea.(hLoad := st.a.hs, a := ea.a.(hs := st.hLoad))
  }

  /** What column j reads, once the buffers are rotated. */
  function ColumnInput(cfg: Config, prof: seq<Vec>, db: seq<nat>, s: KState, j: nat): (env: ColIn)
    requires cfg.Valid() && ProfileFits(prof, db, cfg.SegLen()) && j < |db| && KFits(s, cfg.SegLen(), |db|)
    ensures ColInFits(env, cfg.SegLen())
  {
    SegLenPositive(cfg);
    ColIn(j, |db|, s.hLoad, s.a.es, s.eaLoad, ProfileColumn(prof, db[j], cfg.SegLen()))
  }

  /** The main and Lazy-F passes of column j on the rotated state s. */
  function AfterPasses(cfg: Config, prof: seq<Vec>, db: seq<nat>, s: KState, j: nat): (r: KState)
    requires cfg.Valid() && ProfileFits(prof, db, cfg.SegLen()) && j < |db| && KFits(s, cfg.SegLen(), |db|)
    ensures KFits(r, cfg.SegLen(), |db|)
  {
    var c := Column(cfg, ColumnInput(cfg, prof, db, s, j), s.a, s.maxH);
    s.(a := c.a, maxH := c.maxH)
  }

  /** The passes of column j end in the state whose arrays and vMaxH are those of the Lazy-F rounds after the main pass. */
  lemma AfterPassesOf(cfg: Config, prof: seq<Vec>, db: seq<nat>, s: KState, j: nat, m: MainRegs, r: LazyRegs)
    requires cfg.Valid() && ProfileFits(prof, db, cfg.SegLen()) && j < |db| && KFits(s, cfg.SegLen(), |db|)
    requires m == MainPass(cfg, ColumnInput(cfg, prof, db, s, j), s.a, s.maxH)
    requires r == LazyFrom(cfg, ColumnInput(cfg, prof, db, s, j), LazyInit(m), SegWidth, cfg.SegLen())
    ensures AfterPasses(cfg, prof, db, s, j) == s.(a := r.a, maxH := r.maxH)
  {
  }

  /**
   * The comparison at the end of column j: some lane of vMaxH above
   * vMaxHUnit makes the register's maximum the new score; a score above maxp
   * saturates, otherwise vMaxHUnit and end_ref move to it.
   */
  function ScoreStep(cfg: Config, s: KState, j: nat): (r: KState)
    requires |s.maxH| == SegWidth
    ensures r.a == s.a && r.maxH == s.maxH && r.hLoad == s.hLoad && r.hMax == s.hMax && r.eaLoad == s.eaLoad
  {
    if AnyLane(GtV(s.maxH, Splat(SegWidth, s.unit))) then
      var sc := HMax(s.maxH);
      if sc > cfg.MaxP() then s.(score := sc, saturated := true)
      else s.(score := sc, unit := sc, endRef := j)
    else s
  }

  /** Column j of the outer loop: rotate the buffers, run the column, compare the maximum; nothing after saturation. */
  function ColumnStep(cfg: Config, prof: seq<Vec>, db: seq<nat>, st: KState, j: nat): (r: KState)
    requires cfg.Valid() && ProfileFits(prof, db, cfg.SegLen()) && j < |db| && KFits(st, cfg.SegLen(), |db|)
    ensures KFits(r, cfg.SegLen(), |db|)
  {
    if st.saturated then st else ScoreStep(cfg, AfterPasses(cfg, prof, db, Rotate(st, j), j), j)
  }

  /** The state after the first n columns of the database. */
  function Run(cfg: Config, prof: seq<Vec>, db: seq<nat>, n: nat): (r: KState)
    requires cfg.Valid() && ProfileFits(prof, db, cfg.SegLen()) && n <= |db|
    ensures KFits(r, cfg.SegLen(), |db|)
    decreases n
  {
    if n == 0 then KInit(cfg, |db|) else ColumnStep(cfg, prof, db, Run(cfg, prof, db, n - 1), n - 1)
  }

  /** Column n takes the state after the first n columns to the state after n + 1. */
  lemma RunNext(cfg: Config, prof: seq<Vec>, db: seq<nat>, n: nat, prev: KState, next: KState)
    requires cfg.Valid() && ProfileFits(prof, db, cfg.SegLen()) && n < |db|
    requires prev == Run(cfg, prof, db, n) && next == ColumnStep(cfg, prof, db, prev, n)
    ensures next == Run(cfg, prof, db, n + 1)
  {
  }

  /** Once the sweep has saturated, the later columns change nothing: the outer loop's break. */
  lemma {:induction false} RunSaturatedStays(cfg: Config, prof: seq<Vec>, db: seq<nat>, m: nat, n: nat)
    requires cfg.Valid() && ProfileFits(prof, db, cfg.SegLen()) && m <= n <= |db|
    requires Run(cfg, prof, db, m).saturated
    ensures Run(cfg, prof, db, n) == Run(cfg, prof, db, m)
    decreases n
  {
    if n > m {
      RunSaturatedStays(cfg, prof, db, m, n - 1);
    }
  }

  /**
   * The end_query walk over the first i flat positions of a buffer: the
   * least unfolded query index below `limit` whose H equals the score, or
   * `limit` when there is none.
   */
  function EndQueryWalk(col: seq<Vec>, score: int, limit: nat, i: nat): (r: nat)
    requires |col| > 0 && i <= SegWidth * |col| && Vecs(col, |col|)
  {
    if i == 0 then limit
    else
      var eq := EndQueryWalk(col, score, limit, i - 1);
      var x := i - 1;
      FlatIndex(x, |col|);
      var temp := FlatToQuery(x, SegWidth, |col|);
      if col[x / SegWidth][x % SegWidth] == score && temp < eq then temp else eq
  }

  lemma FlatIndex(x: nat, segLen: nat)
    requires x < SegWidth * segLen
    ensures x / SegWidth < segLen
  {
    QueryIndexSplit(x, SegWidth, segLen);
  }

  /** The walk keeps the least query index, below the limit, of a flat position seen so far that holds the score. */
  lemma {:induction false} EndQueryWalkLeast(col: seq<Vec>, score: int, limit: nat, i: nat)
    requires |col| > 0 && i <= SegWidth * |col| && Vecs(col, |col|)
    ensures var eq := EndQueryWalk(col, score, limit, i);
            eq <= limit &&
            (eq < limit ==> exists x :: 0 <= x < i && x / SegWidth < |col| && col[x / SegWidth][x % SegWidth] == score &&
                                        FlatToQuery(x, SegWidth, |col|) == eq) &&
            (forall x :: 0 <= x < i && x / SegWidth < |col| && col[x / SegWidth][x % SegWidth] == score
                      ==> eq <= FlatToQuery(x, SegWidth, |col|))
  {
    if i > 0 {
      EndQueryWalkLeast(col, score, limit, i - 1);
      FlatIndex(i - 1, |col|);
    }
  }

  /**
   * The outcome of the kernel: score, end_query, end_ref, the saturation
   * flag, and the trace, insertion and deletion tables of result->trace.
   */
  datatype Alignment = Alignment(score: int, endQuery: int, endRef: int, saturated: bool,
                                 trace: seq<TVec>, ins: seq<TVec>, del: seq<TVec>)

  /** The H buffer holding column end_ref once the sweep is over, after the final swap. */
  function BestColumn(st: KState, n: nat): seq<Vec>
  {
    if st.endRef == n - 1 then st.a.hs else if st.endRef == n - 2 then st.hLoad else st.hMax
  }

  /**
   * The result from the state after the sweep over n columns: zeros and the
   * saturated flag when the sweep stopped at maxp or the score is INT8_MAX;
   * otherwise the score, end_ref and the end_query walk over the H column
   * of end_ref, starting from s1Len - 1.  The trace tables are returned in
   * either case.
   */
  function Outcome(cfg: Config, st: KState, n: nat): Alignment
    requires cfg.Valid() && KFits(st, cfg.SegLen(), n)
  {
    if st.saturated || st.score == Int8Max then Alignment(0, 0, 0, true, st.a.tTab, st.a.insTab, st.a.delTab)
    else
      SegLenPositive(cfg);
      Alignment(st.score, EndQueryWalk(BestColumn(st, n), st.score, cfg.s1Len - 1, SegWidth * cfg.SegLen()),
                st.endRef, false, st.a.tTab, st.a.insTab, st.a.delTab)
  }

  /** The kernel's result: the outcome of the sweep over the whole database. */
  function Report(cfg: Config, prof: seq<Vec>, db: seq<nat>): Alignment
    requires cfg.Valid() && ProfileFits(prof, db, cfg.SegLen())
  {
    Outcome(cfg, Run(cfg, prof, db, |db|), |db|)
  }

  /**
   * The report with the local-alignment floor restored: when no column set
   * the score (no H rose above zero) the score is 0, the Smith-Waterman
   * score of an alignment with nothing in it, instead of NEG_INF.
   */
  function CorrectedReport(cfg: Config, prof: seq<Vec>, db: seq<nat>): Alignment
    requires cfg.Valid() && ProfileFits(prof, db, cfg.SegLen())
  {
    var st := Run(cfg, prof, db, |db|);
    Outcome(cfg, if st.score == Int8Min then st.(score := 0) else st, |db|)
  }
}
