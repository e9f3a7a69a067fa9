/**
 * Properties of the 8-bit striped Smith-Waterman kernel with traceback,
 * proved about the column functions and the sweep of SwTrace8: the range of
 * every stored H, the growth and the bound of the Lazy-F pass, the running
 * maximum vMaxH, the first column reaching the score, and the buffer
 * rotation that keeps the H column of end_ref for the end_query walk.
 */
module SwProps8 {
  import opened Lanes
  import opened Striped
  import opened SwTrace8

  /** Every lane of v lies in [lo, hi]. */
  predicate LanesIn(v: Vec, lo: int, hi: int)
  {
    forall k :: 0 <= k < |v| ==> lo <= v[k] <= hi
  }

  /** Every lane of every register of vs lies in [lo, hi]. */
  predicate AllIn(vs: seq<Vec>, lo: int, hi: int)
  {
    forall i :: 0 <= i < |vs| ==> LanesIn(vs[i], lo, hi)
  }

  // ---------------------------------------------------------------------
  // The range of the stored values.  Every bound is proved for a ceiling c:
  // c = INT8_MAX holds of every run; c = 0 holds when no profile score is
  // positive and the penalties are non-negative bytes.

  /** The ceiling c is INT8_MAX, or 0 with gap penalties that never raise a value. */
  predicate Capped(cfg: Config, c: int)
  {
    c == Int8Max || (c == 0 && cfg.GapO() >= 0 && cfg.GapE() >= 0 && cfg.NegOpen() <= 0)
  }

  /** Under the ceiling 0, no profile score is positive. */
  predicate ProfCapped(P: seq<Vec>, c: int)
  {
    c == Int8Max || forall i, k :: 0 <= i < |P| && 0 <= k < |P[i]| ==> P[i][k] <= 0
  }

  /** What a column reads is within the ceiling: H in [0, c], E in [INT8_MIN, c]. */
  predicate EnvCapped(env: ColIn, c: int)
  {
    AllIn(env.hPrev, 0, c) && AllIn(env.e, Int8Min, c) && ProfCapped(env.p, c)
  }

  /** The main pass's buffers and registers are within the ceiling. */
  predicate MainCapped(st: MainRegs, c: int)
  {
    AllIn(st.a.hs, 0, c) && AllIn(st.a.es, Int8Min, c) &&
    LanesIn(st.f, Int8Min, c) && LanesIn(st.fext, Int8Min, c) && LanesIn(st.maxH, 0, c)
  }

  /** The Lazy-F pass's buffers and registers are within the ceiling. */
  predicate LazyCapped(st: LazyRegs, c: int)
  {
    AllIn(st.a.hs, 0, c) && AllIn(st.a.es, Int8Min, c) &&
    LanesIn(st.f, Int8Min, c) && LanesIn(st.fext, Int8Min, c) && LanesIn(st.maxH, 0, c)
  }

  /** The kernel's H buffers, E buffer and vMaxH are within the ceiling. */
  predicate KCapped(st: KState, c: int)
  {
    AllIn(st.a.hs, 0, c) && AllIn(st.hLoad, 0, c) && AllIn(st.hMax, 0, c) &&
    AllIn(st.a.es, Int8Min, c) && LanesIn(st.maxH, 0, c)
  }

  /** A saturating subtraction of a gap penalty from values at most c stays in [INT8_MIN, c]. */
  lemma SubsCapped(cfg: Config, c: int, v: Vec)
    requires Capped(cfg, c) && LanesIn(v, Int8Min, c)
    ensures LanesIn(SubsV(v, cfg.GapO()), Int8Min, c) && LanesIn(SubsV(v, cfg.GapE()), Int8Min, c)
  {
  }

  /** H_dag = max(adds(H_diag, P), 0) lies in [0, c]. */
  lemma HdagCapped(cfg: Config, env: ColIn, i: nat, c: int)
    requires ColInFits(env, cfg.SegLen()) && i < cfg.SegLen() && Capped(cfg, c) && EnvCapped(env, c)
    ensures LanesIn(Hdag(env, i), 0, c)
  {
    var d := DiagIn(env.hPrev, i);
    assert LanesIn(d, 0, c) by {
      if i == 0 {
        assert LanesIn(env.hPrev[|env.hPrev| - 1], 0, c);
      } else {
        assert LanesIn(env.hPrev[i - 1], 0, c);
      }
    }
    assert forall k :: 0 <= k < SegWidth ==> env.p[i][k] <= 0 || c == Int8Max;
  }

  /** One main-pass iteration keeps the buffers and registers within the ceiling. */
  lemma MainStepCapped(cfg: Config, env: ColIn, st: MainRegs, i: nat, c: int)
    requires ColInFits(env, cfg.SegLen()) && i < cfg.SegLen() && MainFits(st, cfg.SegLen(), env.s2Len)
    requires Capped(cfg, c) && EnvCapped(env, c) && MainCapped(st, c)
    ensures MainCapped(MainStep(cfg, env, st, i), c)
  {
    HdagCapped(cfg, env, i, c);
    var h := MaxV(MaxV(Hdag(env, i), env.e[i]), st.f);
    assert LanesIn(env.e[i], Int8Min, c);
    assert LanesIn(h, 0, c);
    SubsCapped(cfg, c, h);
    SubsCapped(cfg, c, env.e[i]);
    SubsCapped(cfg, c, st.f);
  }

  /** The first n main-pass iterations keep the buffers and registers within the ceiling. */
  lemma MainUpToCapped(cfg: Config, env: ColIn, st: MainRegs, n: nat, c: int)
    requires ColInFits(env, cfg.SegLen()) && n <= cfg.SegLen() && MainFits(st, cfg.SegLen(), env.s2Len)
    requires Capped(cfg, c) && EnvCapped(env, c) && MainCapped(st, c)
    ensures MainCapped(MainUpTo(cfg, env, st, n), c)
  {
    CappedUpToAll(cfg, env, st, n, c);
  }

  /** The first n main-pass iterations from st can run, and st, the column input and the penalties are within the ceiling c. */
  predicate CappedStart(cfg: Config, env: ColIn, st: MainRegs, n: nat, c: int)
  {
    ColInFits(env, cfg.SegLen()) && n <= cfg.SegLen() && MainFits(st, cfg.SegLen(), env.s2Len) &&
    Capped(cfg, c) && EnvCapped(env, c) && MainCapped(st, c)
  }

  /** From a start within the ceiling, the first n main-pass iterations stay within it. */
  predicate CappedUpTo(cfg: Config, env: ColIn, st: MainRegs, n: nat, c: int)
  {
    CappedStart(cfg, env, st, n, c) ==> MainCapped(MainUpTo(cfg, env, st, n), c)
  }

  /** The induction behind MainUpToCapped. */
  lemma {:induction false} CappedUpToAll(cfg: Config, env: ColIn, st: MainRegs, n: nat, c: int)
    ensures CappedUpTo(cfg, env, st, n, c)
  {
    if n == 0 {
      CappedUpToZero(cfg, env, st, c);
    } else {
      CappedUpToAll(cfg, env, st, n - 1, c);
      MainUpToCappedStep(cfg, env, st, n - 1, n, c);
    }
  }

  /** The base case of MainUpToCapped: no iteration leaves the registers as they were. */
  lemma CappedUpToZero(cfg: Config, env: ColIn, st: MainRegs, c: int)
    ensures CappedUpTo(cfg, env, st, 0, c)
  {
    if CappedStart(cfg, env, st, 0, c) {
      assert MainUpTo(cfg, env, st, 0) == st;
    }
  }

  /** The induction step of MainUpToCapped: iteration m keeps the ceiling. */
  lemma MainUpToCappedStep(cfg: Config, env: ColIn, st: MainRegs, m: nat, n: nat, c: int)
    requires n == m + 1 && CappedUpTo(cfg, env, st, m, c)
    ensures CappedUpTo(cfg, env, st, n, c)
  {
    if CappedStart(cfg, env, st, n, c) {
      var prev := MainUpTo(cfg, env, st, m);
      assert MainUpTo(cfg, env, st, n) == MainStep(cfg, env, prev, m);
      MainStepCapped(cfg, env, prev, m, c);
    }
  }

  /** One Lazy-F iteration keeps the buffers and registers within the ceiling. */
  lemma LazyInnerCapped(cfg: Config, env: ColIn, st: LazyRegs, i: nat, c: int)
    requires ColInFits(env, cfg.SegLen()) && i < cfg.SegLen() && LazyFits(st, cfg.SegLen(), env.s2Len)
    requires Capped(cfg, c) && LazyCapped(st, c)
    ensures LazyCapped(LazyInner(cfg, env, st, i), c)
  {
    var h := MaxV(st.a.hs[i], st.f);
    assert LanesIn(st.a.hs[i], 0, c);
    assert LanesIn(h, 0, c);
    SubsCapped(cfg, c, st.f);
  }

  /** The lane shifts at the top of a Lazy-F round insert -open and INT8_MIN, both within the ceiling. */
  lemma LazyEnterCapped(cfg: Config, st: LazyRegs, c: int)
    requires |st.opn| > 0 && |st.fext| > 0 && |st.f| > 0 && |st.faext| > 0 && |st.fa| > 0
    requires Capped(cfg, c) && LazyCapped(st, c)
    ensures LazyCapped(LazyEnter(cfg, st), c)
  {
  }

  /** The Lazy-F pass keeps the buffers and registers within the ceiling. */
  lemma {:induction false} LazyFromCapped(cfg: Config, env: ColIn, st: LazyRegs, k: nat, i: nat, c: int)
    requires ColInFits(env, cfg.SegLen()) && i <= cfg.SegLen() && LazyFits(st, cfg.SegLen(), env.s2Len)
    requires Capped(cfg, c) && LazyCapped(st, c)
    ensures LazyCapped(LazyFrom(cfg, env, st, k, i), c)
    decreases k, cfg.SegLen() - i
  {
    if st.done {
    } else if i < cfg.SegLen() {
      LazyInnerCapped(cfg, env, st, i, c);
      LazyFromCapped(cfg, env, LazyInner(cfg, env, st, i), k, i + 1, c);
    } else if k > 0 {
      LazyEnterCapped(cfg, st, c);
      LazyFromCapped(cfg, env, LazyEnter(cfg, st), k - 1, 0, c);
    }
  }

  /** A whole column keeps the H buffer in [0, c], E in [INT8_MIN, c] and vMaxH in [0, c]. */
  lemma ColumnCapped(cfg: Config, env: ColIn, a: Arrays, maxH: Vec, c: int)
    requires ColInFits(env, cfg.SegLen()) && ArraysFit(a, cfg.SegLen(), env.s2Len) && |maxH| == SegWidth
    requires Capped(cfg, c) && EnvCapped(env, c)
    requires AllIn(a.hs, 0, c) && AllIn(a.es, Int8Min, c) && LanesIn(maxH, 0, c)
    ensures var r := Column(cfg, env, a, maxH);
            AllIn(r.a.hs, 0, c) && AllIn(r.a.es, Int8Min, c) && LanesIn(r.maxH, 0, c)
  {
    var init := MainInit(cfg, a, maxH);
    SubsCapped(cfg, c, Zeros);
    assert MainCapped(init, c);
    MainUpToCapped(cfg, env, init, cfg.SegLen(), c);
    var m := MainPass(cfg, env, a, maxH);
    assert LazyCapped(LazyInit(m), c);
    LazyFromCapped(cfg, env, LazyInit(m), SegWidth, cfg.SegLen(), c);
  }

  /** The rotation at the top of a column only trades the buffers' places. */
  lemma RotateCapped(st: KState, j: nat, c: int)
    requires KCapped(st, c)
    ensures KCapped(Rotate(st, j), c)
  {
  }

  /** The passes of a column keep the kernel state within the ceiling. */
  lemma AfterPassesCapped(cfg: Config, prof: seq<Vec>, db: seq<nat>, s: KState, j: nat, c: int)
    requires cfg.Valid() && ProfileFits(prof, db, cfg.SegLen()) && j < |db| && KFits(s, cfg.SegLen(), |db|)
    requires Capped(cfg, c) && ProfCapped(prof, c) && KCapped(s, c)
    ensures KCapped(AfterPasses(cfg, prof, db, s, j), c)
  {
    var env := ColumnInput(cfg, prof, db, s, j);
    assert EnvCapped(env, c);
    ColumnCapped(cfg, env, s.a, s.maxH, c);
  }

  /**
   * Column j keeps the kernel state within the ceiling.  Under the ceiling 0
   * no lane of vMaxH exceeds vMaxHUnit = 0, so the score is not set.
   */
  lemma ColumnStepCapped(cfg: Config, prof: seq<Vec>, db: seq<nat>, st: KState, j: nat, c: int)
    requires cfg.Valid() && ProfileFits(prof, db, cfg.SegLen()) && j < |db| && KFits(st, cfg.SegLen(), |db|)
    requires Capped(cfg, c) && ProfCapped(prof, c) && KCapped(st, c)
    ensures var r := ColumnStep(cfg, prof, db, st, j);
            KCapped(r, c) &&
            (c == 0 && st.unit == 0 && st.score == Int8Min && st.endRef == 0 && !st.saturated ==>
               r.unit == 0 && r.score == Int8Min && r.endRef == 0 && !r.saturated)
  {
    if !st.saturated {
      var s := Rotate(st, j);
      RotateCapped(st, j, c);
      AfterPassesCapped(cfg, prof, db, s, j, c);
      var q := AfterPasses(cfg, prof, db, s, j);
      if c == 0 && st.unit == 0 {
        assert !AnyLane(GtV(q.maxH, Splat(SegWidth, q.unit)));
      }
    }
  }

  /**
   * Between columns every H buffer is in [0, c], E in [INT8_MIN, c] and
   * vMaxH in [0, c].  Under the ceiling 0 the score is never set: it stays
   * NEG_INF with end_ref 0.
   */
  lemma RunCapped(cfg: Config, prof: seq<Vec>, db: seq<nat>, n: nat, c: int)
    requires cfg.Valid() && ProfileFits(prof, db, cfg.SegLen()) && n <= |db|
    requires Capped(cfg, c) && ProfCapped(prof, c)
    ensures KCapped(Run(cfg, prof, db, n), c)
    ensures c == 0 ==> var st := Run(cfg, prof, db, n);
                       st.unit == 0 && st.score == Int8Min && st.endRef == 0 && !st.saturated
  {
    CappedAfterAll(cfg, prof, db, n, c);
  }

  /** After n columns the kernel state is within the ceiling, and under the ceiling 0 the score is unset. */
  predicate CappedAfter(cfg: Config, prof: seq<Vec>, db: seq<nat>, n: nat, c: int)
    requires cfg.Valid() && ProfileFits(prof, db, cfg.SegLen())
  {
    n <= |db| && KCapped(Run(cfg, prof, db, n), c) &&
    (c == 0 ==> var st := Run(cfg, prof, db, n);
                st.unit == 0 && st.score == Int8Min && st.endRef == 0 && !st.saturated)
  }

  /** The induction behind RunCapped. */
  lemma {:induction false} CappedAfterAll(cfg: Config, prof: seq<Vec>, db: seq<nat>, n: nat, c: int)
    requires cfg.Valid() && ProfileFits(prof, db, cfg.SegLen()) && n <= |db|
    requires Capped(cfg, c) && ProfCapped(prof, c)
    ensures CappedAfter(cfg, prof, db, n, c)
  {
    if n > 0 {
      CappedAfterAll(cfg, prof, db, n - 1, c);
      RunCappedStep(cfg, prof, db, n - 1, n, c);
    }
  }

  /** The induction step of RunCapped: column m keeps the ceiling, and under the ceiling 0 the unset score. */
  lemma RunCappedStep(cfg: Config, prof: seq<Vec>, db: seq<nat>, m: nat, n: nat, c: int)
    requires cfg.Valid() && ProfileFits(prof, db, cfg.SegLen()) && n == m + 1 && n <= |db|
    requires Capped(cfg, c) && ProfCapped(prof, c) && CappedAfter(cfg, prof, db, m, c)
    ensures CappedAfter(cfg, prof, db, n, c)
  {
    var prev := Run(cfg, prof, db, m);
    var r := Run(cfg, prof, db, n);
    RunNext(cfg, prof, db, m, prev, ColumnStep(cfg, prof, db, prev, m));
    ColumnStepCapped(cfg, prof, db, prev, m, c);
    assert KCapped(r, c);
  }

  /** Every H the kernel stores is in [0, INT8_MAX]: H_dag is floored at zero, and E and F are int8. */
  lemma StoredHInRange(cfg: Config, prof: seq<Vec>, db: seq<nat>, n: nat)
    requires cfg.Valid() && ProfileFits(prof, db, cfg.SegLen()) && n <= |db|
    ensures var st := Run(cfg, prof, db, n);
            AllIn(st.a.hs, 0, Int8Max) && AllIn(st.hLoad, 0, Int8Max) && AllIn(st.hMax, 0, Int8Max)
  {
    RunCapped(cfg, prof, db, n, Int8Max);
  }

  /** The H column of database column c: pvHStore once column c is done. */
  function HCol(cfg: Config, prof: seq<Vec>, db: seq<nat>, c: nat): (col: seq<Vec>)
    requires cfg.Valid() && ProfileFits(prof, db, cfg.SegLen()) && c < |db|
    ensures Vecs(col, cfg.SegLen())
  {
    Run(cfg, prof, db, c + 1).a.hs
  }

  // ---------------------------------------------------------------------
  // The Lazy-F pass: it only raises H, never touches E, and its inner loop
  // runs at most segWidth * segLen times.

  /** Lane by lane, every register of u is at most the register of v at the same index. */
  predicate Below(u: seq<Vec>, v: seq<Vec>)
  {
    |u| == |v| &&
    forall i :: 0 <= i < |u| ==> |u[i]| == |v[i]| && forall k :: 0 <= k < |u[i]| ==> u[i][k] <= v[i][k]
  }

  lemma BelowTrans(u: seq<Vec>, v: seq<Vec>, w: seq<Vec>)
    requires Below(u, v) && Below(v, w)
    ensures Below(u, w)
  {
    forall i | 0 <= i < |u|
      ensures |u[i]| == |w[i]| && forall k :: 0 <= k < |u[i]| ==> u[i][k] <= w[i][k]
    {
      assert |u[i]| == |v[i]|;
    }
  }

  /** One Lazy-F iteration raises H of its segment to max(H, F) and leaves E alone. */
  lemma LazyInnerGrows(cfg: Config, env: ColIn, st: LazyRegs, i: nat)
    requires ColInFits(env, cfg.SegLen()) && i < cfg.SegLen() && LazyFits(st, cfg.SegLen(), env.s2Len)
    ensures var r := LazyInner(cfg, env, st, i);
            Below(st.a.hs, r.a.hs) && r.a.es == st.a.es
  {
  }

  /**
   * The Lazy-F pass from segment i with k rounds still to start only raises
   * H, keeps E, and runs at most k * segLen + (segLen - i) inner iterations.
   */
  lemma {:induction false} LazyFromGrows(cfg: Config, env: ColIn, st: LazyRegs, k: nat, i: nat)
    requires ColInFits(env, cfg.SegLen()) && i <= cfg.SegLen() && LazyFits(st, cfg.SegLen(), env.s2Len)
    ensures var r := LazyFrom(cfg, env, st, k, i);
            Below(st.a.hs, r.a.hs) && r.a.es == st.a.es &&
            r.steps <= st.steps + k * cfg.SegLen() + (cfg.SegLen() - i)
    decreases k, cfg.SegLen() - i
  {
    var segLen := cfg.SegLen();
    if st.done {
    } else if i < segLen {
      var nx := LazyInner(cfg, env, st, i);
      LazyInnerGrows(cfg, env, st, i);
      LazyFromGrows(cfg, env, nx, k, i + 1);
      BelowTrans(st.a.hs, nx.a.hs, LazyFrom(cfg, env, nx, k, i + 1).a.hs);
    } else if k > 0 {
      LazyFromGrows(cfg, env, LazyEnter(cfg, st), k - 1, 0);
      assert (k - 1) * segLen + segLen == k * segLen;
    }
  }

  /**
   * Over a whole column the Lazy-F rounds only raise the H the main pass
   * stored, leave E as the main pass left it, and stop within segWidth
   * rounds of segLen iterations.
   */
  lemma LazyFBounded(cfg: Config, env: ColIn, a: Arrays, maxH: Vec)
    requires ColInFits(env, cfg.SegLen()) && ArraysFit(a, cfg.SegLen(), env.s2Len) && |maxH| == SegWidth
    ensures var m := MainPass(cfg, env, a, maxH);
            var r := Column(cfg, env, a, maxH);
            Below(m.a.hs, r.a.hs) && r.a.es == m.a.es && r.steps <= SegWidth * cfg.SegLen()
  {
    LazyFromGrows(cfg, env, LazyInit(MainPass(cfg, env, a, maxH)), SegWidth, cfg.SegLen());
  }

  // ---------------------------------------------------------------------
  // The running maximum vMaxH: it never drops, bounds every H stored so far,
  // and is either where it started or one of those H.

  /**
   * maxH covers the first n registers of hs from the start value m0: lane by
   * lane it is at least m0, at least every H among them, and equal to m0 or
   * to one of them.
   */
  predicate Covers(hs: seq<Vec>, n: nat, maxH: Vec, m0: Vec)
  {
    |maxH| == SegWidth && |m0| == SegWidth && n <= |hs| &&
    (forall i :: 0 <= i < |hs| ==> |hs[i]| == SegWidth) &&
    forall k :: 0 <= k < SegWidth ==>
      m0[k] <= maxH[k] &&
      (forall i :: 0 <= i < n ==> hs[i][k] <= maxH[k]) &&
      (maxH[k] == m0[k] || exists i :: 0 <= i < n && hs[i][k] == maxH[k])
  }

  /** vMaxH of r covers the first n registers of its H buffer from the start value m0. */
  predicate CoversFrom(r: MainRegs, n: nat, m0: Vec)
  {
    Covers(r.a.hs, n, r.maxH, m0)
  }

  /** A main-pass iteration stores H in segment i and folds it into vMaxH. */
  lemma MainStepCovers(cfg: Config, env: ColIn, st: MainRegs, i: nat, m0: Vec)
    requires ColInFits(env, cfg.SegLen()) && i < cfg.SegLen() && MainFits(st, cfg.SegLen(), env.s2Len)
    requires Covers(st.a.hs, i, st.maxH, m0)
    ensures var r := MainStep(cfg, env, st, i);
            Covers(r.a.hs, i + 1, r.maxH, m0)
  {
    var r := MainStep(cfg, env, st, i);
    forall k | 0 <= k < SegWidth
      ensures m0[k] <= r.maxH[k] &&
              (forall x :: 0 <= x < i + 1 ==> r.a.hs[x][k] <= r.maxH[k]) &&
              (r.maxH[k] == m0[k] || exists x :: 0 <= x < i + 1 && r.a.hs[x][k] == r.maxH[k])
    {
      if r.maxH[k] != st.maxH[k] {
        assert r.a.hs[i][k] == r.maxH[k];
      } else if st.maxH[k] != m0[k] {
        var x :| 0 <= x < i && st.a.hs[x][k] == st.maxH[k];
        assert r.a.hs[x][k] == r.maxH[k];
      }
    }
  }

  lemma {:induction false} MainUpToCovers(cfg: Config, env: ColIn, st: MainRegs, n: nat)
    requires ColInFits(env, cfg.SegLen()) && n <= cfg.SegLen() && MainFits(st, cfg.SegLen(), env.s2Len)
    ensures var r := MainUpTo(cfg, env, st, n);
            Covers(r.a.hs, n, r.maxH, st.maxH)
  {
    CoversUpToAll(cfg, env, st, n);
  }

  /** After the first n main-pass iterations from st, vMaxH covers the H stored in segments 0 .. n - 1. */
  predicate CoversUpTo(cfg: Config, env: ColIn, st: MainRegs, n: nat)
  {
    ColInFits(env, cfg.SegLen()) && n <= cfg.SegLen() && MainFits(st, cfg.SegLen(), env.s2Len) ==>
      CoversFrom(MainUpTo(cfg, env, st, n), n, st.maxH)
  }

  /** The induction behind MainUpToCovers. */
  lemma {:induction false} CoversUpToAll(cfg: Config, env: ColIn, st: MainRegs, n: nat)
    ensures CoversUpTo(cfg, env, st, n)
  {
    if n == 0 {
      CoversUpToZero(cfg, env, st);
    } else {
      CoversUpToAll(cfg, env, st, n - 1);
      MainUpToCoversStep(cfg, env, st, n - 1, n);
    }
  }

  /** The base case of MainUpToCovers: before any iteration vMaxH covers nothing but itself. */
  lemma CoversUpToZero(cfg: Config, env: ColIn, st: MainRegs)
    ensures CoversUpTo(cfg, env, st, 0)
  {
    if ColInFits(env, cfg.SegLen()) && MainFits(st, cfg.SegLen(), env.s2Len) {
      assert MainUpTo(cfg, env, st, 0) == st;
      assert Covers(st.a.hs, 0, st.maxH, st.maxH);
    }
  }

  /** The induction step of MainUpToCovers: iteration m folds H of segment m into vMaxH. */
  lemma MainUpToCoversStep(cfg: Config, env: ColIn, st: MainRegs, m: nat, n: nat)
    requires n == m + 1 && CoversUpTo(cfg, env, st, m)
    ensures CoversUpTo(cfg, env, st, n)
  {
    if ColInFits(env, cfg.SegLen()) && n <= cfg.SegLen() && MainFits(st, cfg.SegLen(), env.s2Len) {
      var p := MainUpTo(cfg, env, st, m);
      MainStepCovers(cfg, env, p, m, st.maxH);
      assert MainUpTo(cfg, env, st, n) == MainStep(cfg, env, p, m);
    }
  }

  /**
   * A Lazy-F iteration raises H of segment i and folds it into vMaxH; a
   * maximum that H of segment i held before is held by the raised H too.
   */
  lemma LazyInnerCovers(cfg: Config, env: ColIn, st: LazyRegs, i: nat, m0: Vec)
    requires ColInFits(env, cfg.SegLen()) && i < cfg.SegLen() && LazyFits(st, cfg.SegLen(), env.s2Len)
    requires Covers(st.a.hs, cfg.SegLen(), st.maxH, m0)
    ensures var r := LazyInner(cfg, env, st, i);
            Covers(r.a.hs, cfg.SegLen(), r.maxH, m0)
  {
    var segLen := cfg.SegLen();
    var r := LazyInner(cfg, env, st, i);
    forall k | 0 <= k < SegWidth
      ensures m0[k] <= r.maxH[k] &&
              (forall x :: 0 <= x < segLen ==> r.a.hs[x][k] <= r.maxH[k]) &&
              (r.maxH[k] == m0[k] || exists x :: 0 <= x < segLen && r.a.hs[x][k] == r.maxH[k])
    {
      if r.maxH[k] != st.maxH[k] {
        assert r.a.hs[i][k] == r.maxH[k];
      } else if st.maxH[k] != m0[k] {
        var x :| 0 <= x < segLen && st.a.hs[x][k] == st.maxH[k];
        if x == i {
          assert r.a.hs[i][k] == r.maxH[k];
        } else {
          assert r.a.hs[x][k] == r.maxH[k];
        }
      }
    }
  }

  lemma {:induction false} LazyFromCovers(cfg: Config, env: ColIn, st: LazyRegs, k: nat, i: nat, m0: Vec)
    requires ColInFits(env, cfg.SegLen()) && i <= cfg.SegLen() && LazyFits(st, cfg.SegLen(), env.s2Len)
    requires Covers(st.a.hs, cfg.SegLen(), st.maxH, m0)
    ensures var r := LazyFrom(cfg, env, st, k, i);
            Covers(r.a.hs, cfg.SegLen(), r.maxH, m0)
    decreases k, cfg.SegLen() - i
  {
    if st.done {
    } else if i < cfg.SegLen() {
      LazyInnerCovers(cfg, env, st, i, m0);
      LazyFromCovers(cfg, env, LazyInner(cfg, env, st, i), k, i + 1, m0);
    } else if k > 0 {
      LazyFromCovers(cfg, env, LazyEnter(cfg, st), k - 1, 0, m0);
    }
  }

  /** After a column, vMaxH is the lane-wise maximum of its old value and the column's stored H. */
  lemma ColumnCovers(cfg: Config, env: ColIn, a: Arrays, maxH: Vec)
    requires ColInFits(env, cfg.SegLen()) && ArraysFit(a, cfg.SegLen(), env.s2Len) && |maxH| == SegWidth
    ensures var r := Column(cfg, env, a, maxH);
            Covers(r.a.hs, cfg.SegLen(), r.maxH, maxH)
  {
    MainUpToCovers(cfg, env, MainInit(cfg, a, maxH), cfg.SegLen());
    LazyFromCovers(cfg, env, LazyInit(MainPass(cfg, env, a, maxH)), SegWidth, cfg.SegLen(), maxH);
  }

  /** A column that does not saturate folds its stored H into vMaxH, starting from the vMaxH before it. */
  lemma ColumnStepCovers(cfg: Config, prof: seq<Vec>, db: seq<nat>, st: KState, j: nat)
    requires cfg.Valid() && ProfileFits(prof, db, cfg.SegLen()) && j < |db| && KFits(st, cfg.SegLen(), |db|)
    requires !ColumnStep(cfg, prof, db, st, j).saturated
    ensures var r := ColumnStep(cfg, prof, db, st, j);
            !st.saturated && Covers(r.a.hs, cfg.SegLen(), r.maxH, st.maxH)
  {
    var s := Rotate(st, j);
    ColumnCovers(cfg, ColumnInput(cfg, prof, db, s, j), s.a, s.maxH);
  }

  /** The H columns the sweep has stored after n columns: entry c is pvHStore once column c is done. */
  function Stored(cfg: Config, prof: seq<Vec>, db: seq<nat>, n: nat): (cols: seq<seq<Vec>>)
    requires cfg.Valid() && ProfileFits(prof, db, cfg.SegLen()) && n <= |db|
    ensures |cols| == n && forall c :: 0 <= c < n ==> Vecs(cols[c], cfg.SegLen())
  {
    if n == 0 then [] else Stored(cfg, prof, db, n - 1) + [HCol(cfg, prof, db, n - 1)]
  }

  /** The columns stored after m <= n columns are the first m of those stored after n; entry c is column c. */
  lemma {:induction false} StoredPrefix(cfg: Config, prof: seq<Vec>, db: seq<nat>, m: nat, n: nat)
    requires cfg.Valid() && ProfileFits(prof, db, cfg.SegLen()) && m <= n <= |db|
    ensures Stored(cfg, prof, db, n)[..m] == Stored(cfg, prof, db, m)
    ensures m < n ==> Stored(cfg, prof, db, n)[m] == HCol(cfg, prof, db, m)
    decreases n
  {
    if m < n {
      StoredPrefix(cfg, prof, db, m, n - 1);
      var prev := Stored(cfg, prof, db, n - 1);
      assert Stored(cfg, prof, db, n) == prev + [HCol(cfg, prof, db, n - 1)];
      if m < n - 1 {
        assert Stored(cfg, prof, db, n)[m] == prev[m];
      }
      assert Stored(cfg, prof, db, n)[..m] == prev[..m];
    }
  }

  /**
   * m is the lane-wise maximum, floored at 0, of a list of H columns: every
   * H is at most m and each lane of m is 0 or one of them.
   */
  predicate MaxOf(cols: seq<seq<Vec>>, m: Vec)
  {
    |m| == SegWidth &&
    (forall c, i :: 0 <= c < |cols| && 0 <= i < |cols[c]| ==> |cols[c][i]| == SegWidth) &&
    forall k :: 0 <= k < SegWidth ==>
      (forall c, i :: 0 <= c < |cols| && 0 <= i < |cols[c]| ==> cols[c][i][k] <= m[k]) &&
      (m[k] == 0 || exists c, i :: 0 <= c < |cols| && 0 <= i < |cols[c]| && cols[c][i][k] == m[k])
  }

  /** Folding one more column h into the maximum pm of the earlier ones gives the maximum rm of all of them. */
  lemma MaxOfExtend(cols: seq<seq<Vec>>, h: seq<Vec>, pm: Vec, rm: Vec)
    requires MaxOf(cols, pm) && Covers(h, |h|, rm, pm)
    ensures MaxOf(cols + [h], rm)
  {
    var all := cols + [h];
    forall k | 0 <= k < SegWidth
      ensures (forall c, i :: 0 <= c < |all| && 0 <= i < |all[c]| ==> all[c][i][k] <= rm[k]) &&
              (rm[k] == 0 || exists c, i :: 0 <= c < |all| && 0 <= i < |all[c]| && all[c][i][k] == rm[k])
    {
      forall c, i | 0 <= c < |all| && 0 <= i < |all[c]|
        ensures all[c][i][k] <= rm[k]
      {
        if c < |cols| {
          assert all[c] == cols[c];
        }
      }
      if rm[k] != pm[k] {
        var i :| 0 <= i < |h| && h[i][k] == rm[k];
        assert all[|cols|][i][k] == rm[k];
      } else if rm[k] != 0 {
        var c, i :| 0 <= c < |cols| && 0 <= i < |cols[c]| && cols[c][i][k] == pm[k];
        assert all[c][i][k] == rm[k];
      }
    }
  }

  /** Before the first column nothing is stored and vMaxH is zero. */
  lemma NothingStored(cfg: Config, prof: seq<Vec>, db: seq<nat>)
    requires cfg.Valid() && ProfileFits(prof, db, cfg.SegLen())
    ensures MaxOf(Stored(cfg, prof, db, 0), Run(cfg, prof, db, 0).maxH)
  {
    assert Run(cfg, prof, db, 0).maxH == Zeros;
  }

  /** A sweep unsaturated after n columns was unsaturated after each m <= n. */
  lemma UnsaturatedBefore(cfg: Config, prof: seq<Vec>, db: seq<nat>, m: nat, n: nat)
    requires cfg.Valid() && ProfileFits(prof, db, cfg.SegLen()) && m <= n <= |db|
    requires !Run(cfg, prof, db, n).saturated
    ensures !Run(cfg, prof, db, m).saturated
  {
    if Run(cfg, prof, db, m).saturated {
      RunSaturatedStays(cfg, prof, db, m, n);
    }
  }

  /** Column n - 1 folds its stored H into the maximum of the columns before it. */
  lemma RunCoversStep(cfg: Config, prof: seq<Vec>, db: seq<nat>, n: nat)
    requires cfg.Valid() && ProfileFits(prof, db, cfg.SegLen()) && 1 <= n <= |db|
    requires !Run(cfg, prof, db, n).saturated
    requires MaxOf(Stored(cfg, prof, db, n - 1), Run(cfg, prof, db, n - 1).maxH)
    ensures MaxOf(Stored(cfg, prof, db, n), Run(cfg, prof, db, n).maxH)
  {
    var prev := Run(cfg, prof, db, n - 1);
    var r := Run(cfg, prof, db, n);
    var cols := Stored(cfg, prof, db, n - 1);
    var h := HCol(cfg, prof, db, n - 1);
    assert Stored(cfg, prof, db, n) == cols + [h];
    RunNext(cfg, prof, db, n - 1, prev, ColumnStep(cfg, prof, db, prev, n - 1));
    ColumnStepCovers(cfg, prof, db, prev, n - 1);
    MaxOfExtend(cols, h, prev.maxH, r.maxH);
  }

  /**
   * While the sweep has not saturated, vMaxH after n columns is the
   * lane-wise maximum, floored at 0, of every H stored in those columns.
   */
  lemma {:induction false} RunCovers(cfg: Config, prof: seq<Vec>, db: seq<nat>, n: nat)
    requires cfg.Valid() && ProfileFits(prof, db, cfg.SegLen()) && n <= |db|
    requires !Run(cfg, prof, db, n).saturated
    ensures MaxOf(Stored(cfg, prof, db, n), Run(cfg, prof, db, n).maxH)
  {
    CoversAll(cfg, prof, db, n);
  }

  /** After n columns, unless the sweep has saturated, vMaxH is the floored maximum of the stored H. */
  predicate CoversAt(cfg: Config, prof: seq<Vec>, db: seq<nat>, n: nat)
    requires cfg.Valid() && ProfileFits(prof, db, cfg.SegLen())
  {
    n <= |db| && (!Run(cfg, prof, db, n).saturated ==> MaxOf(Stored(cfg, prof, db, n), Run(cfg, prof, db, n).maxH))
  }

  /** The induction step of RunCovers. */
  lemma CoversAtStep(cfg: Config, prof: seq<Vec>, db: seq<nat>, m: nat, n: nat)
    requires cfg.Valid() && ProfileFits(prof, db, cfg.SegLen()) && n == m + 1 && n <= |db|
    requires CoversAt(cfg, prof, db, m)
    ensures CoversAt(cfg, prof, db, n)
  {
    if !Run(cfg, prof, db, n).saturated {
      UnsaturatedBefore(cfg, prof, db, m, n);
      RunCoversStep(cfg, prof, db, n);
    }
  }

  /** The induction behind RunCovers. */
  lemma {:induction false} CoversAll(cfg: Config, prof: seq<Vec>, db: seq<nat>, n: nat)
    requires cfg.Valid() && ProfileFits(prof, db, cfg.SegLen()) && n <= |db|
    ensures CoversAt(cfg, prof, db, n)
  {
    if n == 0 {
      NothingStored(cfg, prof, db);
    } else {
      CoversAll(cfg, prof, db, n - 1);
      CoversAtStep(cfg, prof, db, n - 1, n);
    }
  }

  // ---------------------------------------------------------------------
  // score, vMaxHUnit and end_ref.

  /** Some lane of v equals x. */
  predicate Attains(v: Vec, x: int)
  {
    exists k :: 0 <= k < |v| && v[k] == x
  }

  /** Every lane of v is below x. */
  predicate AllBelow(v: Vec, x: int)
  {
    forall k :: 0 <= k < |v| ==> v[k] < x
  }

  /** Every lane of v is at most x. */
  predicate AllAtMost(v: Vec, x: int)
  {
    forall k :: 0 <= k < |v| ==> v[k] <= x
  }

  /**
   * The comparison at the end of a column keeps every lane of vMaxH at most
   * vMaxHUnit: either nothing changes, or score and vMaxHUnit rise to the
   * register's maximum, attained by one of its lanes, and end_ref becomes j.
   */
  lemma ScoreStepTracks(cfg: Config, s: KState, j: nat)
    requires |s.maxH| == SegWidth && !ScoreStep(cfg, s, j).saturated
    ensures var r := ScoreStep(cfg, s, j);
            AllAtMost(r.maxH, r.unit) &&
            ((r.unit == s.unit && r.score == s.score && r.endRef == s.endRef) ||
             (s.unit < r.unit == r.score && r.endRef == j && Attains(r.maxH, r.score)))
  {
    var r := ScoreStep(cfg, s, j);
    var m := GtV(s.maxH, Splat(SegWidth, s.unit));
    if AnyLane(m) {
      HMaxIsMax(s.maxH);
      var k0 :| 0 <= k0 < SegWidth && m[k0];
      assert s.maxH[k0] > s.unit;
    } else {
      forall k | 0 <= k < SegWidth
        ensures r.maxH[k] <= r.unit
      {
        assert !m[k];
      }
    }
  }

  /** The same for a whole column that does not saturate: the passes leave score, vMaxHUnit and end_ref alone. */
  lemma ColumnStepTracks(cfg: Config, prof: seq<Vec>, db: seq<nat>, st: KState, j: nat)
    requires cfg.Valid() && ProfileFits(prof, db, cfg.SegLen()) && j < |db| && KFits(st, cfg.SegLen(), |db|)
    requires !ColumnStep(cfg, prof, db, st, j).saturated
    ensures var r := ColumnStep(cfg, prof, db, st, j);
            !st.saturated && AllAtMost(r.maxH, r.unit) &&
            ((r.unit == st.unit && r.score == st.score && r.endRef == st.endRef) ||
             (st.unit < r.unit == r.score && r.endRef == j && Attains(r.maxH, r.score)))
  {
    var q := AfterPasses(cfg, prof, db, Rotate(st, j), j);
    ScoreStepTracks(cfg, q, j);
  }

  /**
   * Column e is where the score x was first reached: some lane of vMaxH
   * equals x after column e, and every lane was below x before it (entry k
   * of MaxHist is vMaxH after k columns, by MaxHistAt).
   */
  predicate FirstReached(cfg: Config, prof: seq<Vec>, db: seq<nat>, e: int, x: int)
    requires cfg.Valid() && ProfileFits(prof, db, cfg.SegLen())
  {
    0 <= e < |db| && ReachedIn(MaxHist(cfg, prof, db, e + 1), e, x)
  }

  /** What the sweep keeps of score, vMaxHUnit and end_ref after n columns. */
  predicate TracksScore(cfg: Config, prof: seq<Vec>, db: seq<nat>, n: nat, st: KState)
    requires cfg.Valid() && ProfileFits(prof, db, cfg.SegLen())
  {
    0 <= st.unit && AllAtMost(st.maxH, st.unit) &&
    ((st.score == Int8Min && st.unit == 0 && st.endRef == 0) ||
     (0 < st.score == st.unit && st.endRef < n && FirstReached(cfg, prof, db, st.endRef, st.score)))
  }

  /**
   * While the sweep has not saturated, every lane of vMaxH is at most
   * vMaxHUnit, and either no column has set the score (NEG_INF, with
   * vMaxHUnit 0 and end_ref 0) or score = vMaxHUnit > 0 and end_ref is the
   * column that first reached it.
   */
  lemma {:induction false} RunTracksScore(cfg: Config, prof: seq<Vec>, db: seq<nat>, n: nat)
    requires cfg.Valid() && ProfileFits(prof, db, cfg.SegLen()) && n <= |db|
    requires !Run(cfg, prof, db, n).saturated
    ensures TracksScore(cfg, prof, db, n, Run(cfg, prof, db, n))
  {
    TracksAll(cfg, prof, db, n);
  }

  /** A first reach in column e, in terms of vMaxH before and after that column. */
  lemma FirstReachedRegs(cfg: Config, prof: seq<Vec>, db: seq<nat>, e: int, x: int)
    requires cfg.Valid() && ProfileFits(prof, db, cfg.SegLen()) && FirstReached(cfg, prof, db, e, x)
    ensures 0 <= e < |db| && Attains(Run(cfg, prof, db, e + 1).maxH, x) && AllBelow(Run(cfg, prof, db, e).maxH, x)
  {
    MaxHistAt(cfg, prof, db, e + 1, e);
    MaxHistAt(cfg, prof, db, e + 1, e + 1);
    ReachedAt(MaxHist(cfg, prof, db, e + 1), e, x, Run(cfg, prof, db, e).maxH, Run(cfg, prof, db, e + 1).maxH);
  }

  /** ReachedIn names the registers before and after column e. */
  lemma ReachedAt(hist: seq<Vec>, e: int, x: int, before: Vec, after: Vec)
    requires ReachedIn(hist, e, x) && hist[e] == before && hist[e + 1] == after
    ensures Attains(after, x) && AllBelow(before, x)
  {
  }

  /** vMaxH after each of the first n columns: entry k is vMaxH after k columns. */
  function MaxHist(cfg: Config, prof: seq<Vec>, db: seq<nat>, n: nat): (h: seq<Vec>)
    requires cfg.Valid() && ProfileFits(prof, db, cfg.SegLen()) && n <= |db|
    ensures |h| == n + 1
  {
    if n == 0 then [Run(cfg, prof, db, 0).maxH] else MaxHist(cfg, prof, db, n - 1) + [Run(cfg, prof, db, n).maxH]
  }

  /** Entry k of the vMaxH history is vMaxH after k columns. */
  lemma {:induction false} MaxHistAt(cfg: Config, prof: seq<Vec>, db: seq<nat>, n: nat, k: nat)
    requires cfg.Valid() && ProfileFits(prof, db, cfg.SegLen()) && k <= n <= |db|
    ensures MaxHist(cfg, prof, db, n)[k] == Run(cfg, prof, db, k).maxH
  {
    if k < n {
      MaxHistAt(cfg, prof, db, n - 1, k);
    }
  }

  /** The score x was first reached in column e of a vMaxH history. */
  predicate ReachedIn(hist: seq<Vec>, e: int, x: int)
  {
    0 <= e && e + 1 < |hist| && Attains(hist[e + 1], x) && AllBelow(hist[e], x)
  }

  /**
   * A column that raises vMaxH from below x to a lane equal to x is where x
   * was first reached, in any vMaxH history that ends with that column.
   */
  lemma ReachedLast(hist: seq<Vec>, next: seq<Vec>, m: nat, before: Vec, after: Vec, x: int)
    requires |hist| == m + 1 && hist[m] == before && next == hist + [after]
    requires Attains(after, x) && AllBelow(before, x)
    ensures ReachedIn(next, m, x)
  {
    assert next[m] == before && next[m + 1] == after;
  }

  /** After n columns, unless the sweep has saturated, it keeps what TracksScore says. */
  predicate TracksAt(cfg: Config, prof: seq<Vec>, db: seq<nat>, n: nat)
    requires cfg.Valid() && ProfileFits(prof, db, cfg.SegLen())
  {
    n <= |db| && (!Run(cfg, prof, db, n).saturated ==> TracksScore(cfg, prof, db, n, Run(cfg, prof, db, n)))
  }

  /** The induction step of RunTracksScore: column m keeps what the sweep knows of the score. */
  lemma TracksAtStep(cfg: Config, prof: seq<Vec>, db: seq<nat>, m: nat, n: nat)
    requires cfg.Valid() && ProfileFits(prof, db, cfg.SegLen()) && n == m + 1 && n <= |db|
    requires TracksAt(cfg, prof, db, m)
    ensures TracksAt(cfg, prof, db, n)
  {
    var prev := Run(cfg, prof, db, m);
    var r := Run(cfg, prof, db, n);
    if !r.saturated {
      UnsaturatedBefore(cfg, prof, db, m, n);
      RunNext(cfg, prof, db, m, prev, ColumnStep(cfg, prof, db, prev, m));
      ColumnStepTracks(cfg, prof, db, prev, m);
      if r.unit != prev.unit || r.score != prev.score || r.endRef != prev.endRef {
        assert AllBelow(prev.maxH, r.score) by {
          assert AllAtMost(prev.maxH, prev.unit);
        }
        MaxHistAt(cfg, prof, db, m, m);
        ReachedLast(MaxHist(cfg, prof, db, m), MaxHist(cfg, prof, db, n), m, prev.maxH, r.maxH, r.score);
      }
    }
  }

  /** The base case of RunTracksScore: before the first column the score is unset. */
  lemma TracksAtZero(cfg: Config, prof: seq<Vec>, db: seq<nat>)
    requires cfg.Valid() && ProfileFits(prof, db, cfg.SegLen())
    ensures TracksAt(cfg, prof, db, 0)
  {
    var st := Run(cfg, prof, db, 0);
    assert st == KInit(cfg, |db|);
    assert AllAtMost(st.maxH, st.unit);
  }

  /** The induction behind RunTracksScore. */
  lemma {:induction false} TracksAll(cfg: Config, prof: seq<Vec>, db: seq<nat>, n: nat)
    requires cfg.Valid() && ProfileFits(prof, db, cfg.SegLen()) && n <= |db|
    ensures TracksAt(cfg, prof, db, n)
  {
    if n == 0 {
      TracksAtZero(cfg, prof, db);
    } else {
      TracksAll(cfg, prof, db, n - 1);
      TracksAtStep(cfg, prof, db, n - 1, n);
    }
  }

  /** If the maximum of some H columns is below x, so is every H in them. */
  lemma ColumnsBelow(cols: seq<seq<Vec>>, before: Vec, x: int)
    requires MaxOf(cols, before) && AllBelow(before, x)
    ensures forall c, i, k :: 0 <= c < |cols| && 0 <= i < |cols[c]| && 0 <= k < SegWidth ==> cols[c][i][k] < x
  {
    forall c, i, k | 0 <= c < |cols| && 0 <= i < |cols[c]| && 0 <= k < SegWidth
      ensures cols[c][i][k] < x
    {
      assert cols[c][i][k] <= before[k];
    }
  }

  /**
   * If the maximum of some H columns is below x and adding the column h
   * lifts it to reach x > 0, then h holds x.
   */
  lemma ColumnReaches(cols: seq<seq<Vec>>, h: seq<Vec>, before: Vec, after: Vec, x: int)
    requires 0 < x && MaxOf(cols, before) && AllBelow(before, x) && MaxOf(cols + [h], after) && Attains(after, x)
    requires forall i :: 0 <= i < |h| ==> |h[i]| == SegWidth
    ensures exists i, k :: 0 <= i < |h| && 0 <= k < SegWidth && h[i][k] == x
  {
    var all := cols + [h];
    assert forall c :: 0 <= c < |cols| ==> all[c] == cols[c];
    assert all[|cols|] == h;
    var k :| 0 <= k < SegWidth && after[k] == x;
    assert forall c, i :: 0 <= c < |cols| && 0 <= i < |cols[c]| ==> cols[c][i][k] <= before[k] < x;
    var c, i :| 0 <= c < |all| && 0 <= i < |all[c]| && all[c][i][k] == after[k];
    assert c == |cols|;
    assert h[i][k] == x;
  }

  /**
   * In a list of H columns of segLen registers, column e is the first to
   * hold x, and no H anywhere exceeds x.
   */
  predicate FirstAt(cols: seq<seq<Vec>>, segLen: nat, e: nat, x: int)
    requires e < |cols|
    requires forall c :: 0 <= c < |cols| ==> |cols[c]| == segLen && forall i :: 0 <= i < segLen ==> |cols[c][i]| == SegWidth
  {
    (forall c, i, k :: 0 <= c < |cols| && 0 <= i < segLen && 0 <= k < SegWidth ==> cols[c][i][k] <= x) &&
    (exists i, k :: 0 <= i < segLen && 0 <= k < SegWidth && cols[e][i][k] == x) &&
    (forall c, i, k :: 0 <= c < e && 0 <= i < segLen && 0 <= k < SegWidth ==> cols[c][i][k] < x)
  }

  /**
   * For a list of H columns whose maximum is at most x > 0, whose first e
   * columns stay below x and whose first e + 1 reach it: column e holds x,
   * and every H before it is below x.
   */
  lemma FirstColumn(cols: seq<seq<Vec>>, segLen: nat, e: nat, m: Vec, before: Vec, after: Vec, x: int)
    requires e < |cols| && 0 < x
    requires forall c :: 0 <= c < |cols| ==> |cols[c]| == segLen && forall i :: 0 <= i < segLen ==> |cols[c][i]| == SegWidth
    requires MaxOf(cols, m) && AllAtMost(m, x)
    requires MaxOf(cols[..e], before) && AllBelow(before, x)
    requires MaxOf(cols[..e + 1], after) && Attains(after, x)
    ensures FirstAt(cols, segLen, e, x)
  {
    forall c, i, k | 0 <= c < |cols| && 0 <= i < segLen && 0 <= k < SegWidth
      ensures cols[c][i][k] <= x
    {
      assert cols[c][i][k] <= m[k];
    }
    var pre := cols[..e];
    ColumnsBelow(pre, before, x);
    forall c, i, k | 0 <= c < e && 0 <= i < segLen && 0 <= k < SegWidth
      ensures cols[c][i][k] < x
    {
      assert cols[c] == pre[c];
    }
    assert cols[..e + 1] == pre + [cols[e]];
    assert forall i :: 0 <= i < |cols[e]| ==> |cols[e][i]| == SegWidth;
    ColumnReaches(pre, cols[e], before, after, x);
  }

  /** After an unsaturated sweep with the score set, end_ref first reached it and vMaxH is the maximum of every stored H. */
  lemma SweepScoreFacts(cfg: Config, prof: seq<Vec>, db: seq<nat>)
    requires cfg.Valid() && ProfileFits(prof, db, cfg.SegLen())
    requires !Run(cfg, prof, db, |db|).saturated && Run(cfg, prof, db, |db|).score != Int8Min
    ensures var st := Run(cfg, prof, db, |db|);
            0 < st.score && 0 <= st.endRef < |db| && FirstReached(cfg, prof, db, st.endRef, st.score) &&
            MaxOf(Stored(cfg, prof, db, |db|), st.maxH) && AllAtMost(st.maxH, st.score)
  {
    RunTracksScore(cfg, prof, db, |db|);
    RunCovers(cfg, prof, db, |db|);
  }

  /** In an unsaturated sweep, vMaxH after m columns is the maximum of the first m stored columns. */
  lemma PrefixMax(cfg: Config, prof: seq<Vec>, db: seq<nat>, m: nat)
    requires cfg.Valid() && ProfileFits(prof, db, cfg.SegLen()) && m <= |db|
    requires !Run(cfg, prof, db, |db|).saturated
    ensures MaxOf(Stored(cfg, prof, db, |db|)[..m], Run(cfg, prof, db, m).maxH)
  {
    UnsaturatedBefore(cfg, prof, db, m, |db|);
    RunCovers(cfg, prof, db, m);
    StoredPrefix(cfg, prof, db, m, |db|);
  }

  /** The first-column facts about the state after the whole sweep, when it has not saturated and the score is set. */
  lemma SweepEndRefFirst(cfg: Config, prof: seq<Vec>, db: seq<nat>)
    requires cfg.Valid() && ProfileFits(prof, db, cfg.SegLen())
    requires !Run(cfg, prof, db, |db|).saturated && Run(cfg, prof, db, |db|).score != Int8Min
    ensures var st := Run(cfg, prof, db, |db|);
            0 < st.score && 0 <= st.endRef < |db| &&
            FirstAt(Stored(cfg, prof, db, |db|), cfg.SegLen(), st.endRef, st.score)
  {
    var n := |db|;
    var st := Run(cfg, prof, db, n);
    var cols := Stored(cfg, prof, db, n);
    SweepScoreFacts(cfg, prof, db);
    var e: nat := st.endRef;
    var x := st.score;
    PrefixMax(cfg, prof, db, e);
    PrefixMax(cfg, prof, db, e + 1);
    FirstReachedRegs(cfg, prof, db, e, x);
    var before := Run(cfg, prof, db, e).maxH;
    var after := Run(cfg, prof, db, e + 1).maxH;
    FirstColumn(cols, cfg.SegLen(), e, st.maxH, before, after, x);
  }

  /**
   * When the kernel reports an unsaturated score other than NEG_INF, the
   * score is positive, no H stored anywhere in the sweep exceeds it, the H
   * column of end_ref holds it, and every H of the columns before end_ref is
   * below it: end_ref is the first database position at which the score is
   * reached.
   */
  lemma EndRefFirst(cfg: Config, prof: seq<Vec>, db: seq<nat>)
    requires cfg.Valid() && ProfileFits(prof, db, cfg.SegLen())
    requires !Report(cfg, prof, db).saturated && Report(cfg, prof, db).score != Int8Min
    ensures var r := Report(cfg, prof, db);
            0 < r.score && 0 <= r.endRef < |db| &&
            FirstAt(Stored(cfg, prof, db, |db|), cfg.SegLen(), r.endRef, r.score)
  {
    var st := Run(cfg, prof, db, |db|);
    var r := Report(cfg, prof, db);
    assert !st.saturated && r.score == st.score && r.endRef == st.endRef;
    SweepEndRefFirst(cfg, prof, db);
  }

  // ---------------------------------------------------------------------
  // The buffer rotation keeps the H column of end_ref for the end_query walk.

  /**
   * The pointer swaps of column j, as seen from the states around it:
   * pvHLoad takes the column just stored, pvHMax takes pvHLoad when end_ref
   * is j - 2, and end_ref stays or becomes j.
   */
  lemma ColumnStepKeeps(cfg: Config, prof: seq<Vec>, db: seq<nat>, st: KState, j: nat)
    requires cfg.Valid() && ProfileFits(prof, db, cfg.SegLen()) && j < |db| && KFits(st, cfg.SegLen(), |db|)
    requires !ColumnStep(cfg, prof, db, st, j).saturated
    ensures var r := ColumnStep(cfg, prof, db, st, j);
            !st.saturated && r.hLoad == st.a.hs && (r.endRef == st.endRef || r.endRef == j) &&
            r.hMax == (if st.endRef == j - 2 then st.hLoad else st.hMax)
  {
    var s := Rotate(st, j);
    var q := AfterPasses(cfg, prof, db, s, j);
    assert q.hLoad == s.hLoad && q.hMax == s.hMax;
  }

  /**
   * While the sweep has not saturated, after n >= 1 columns end_ref is one
   * of them, pvHLoad holds the H stored in column n - 2, and pvHMax the H
   * stored in column end_ref whenever end_ref is older than both.
   */
  lemma {:induction false} RunKeepsColumns(cfg: Config, prof: seq<Vec>, db: seq<nat>, n: nat)
    requires cfg.Valid() && ProfileFits(prof, db, cfg.SegLen()) && 1 <= n <= |db|
    requires !Run(cfg, prof, db, n).saturated
    ensures var st := Run(cfg, prof, db, n);
            0 <= st.endRef < n &&
            (n >= 2 ==> st.hLoad == Stored(cfg, prof, db, n)[n - 2]) &&
            (st.endRef <= n - 3 ==> st.hMax == Stored(cfg, prof, db, n)[st.endRef])
  {
    KeepsAll(cfg, prof, db, n);
  }

  /**
   * After n >= 1 columns, unless the sweep has saturated, end_ref is one of
   * them, pvHLoad holds stored column n - 2, and pvHMax holds stored column
   * end_ref whenever end_ref is older than both.
   */
  predicate KeepsAt(cfg: Config, prof: seq<Vec>, db: seq<nat>, n: nat)
    requires cfg.Valid() && ProfileFits(prof, db, cfg.SegLen())
  {
    1 <= n <= |db| &&
    (!Run(cfg, prof, db, n).saturated ==>
       var st := Run(cfg, prof, db, n);
       0 <= st.endRef < n &&
       (n >= 2 ==> st.hLoad == Stored(cfg, prof, db, n)[n - 2]) &&
       (st.endRef <= n - 3 ==> st.hMax == Stored(cfg, prof, db, n)[st.endRef]))
  }

  /**
   * The buffer shift of one column over any list of columns: if before
   * column m the buffers hold the columns KeepsAt names and column m moves
   * them as ColumnStepKeeps says, then after it they hold the columns KeepsAt
   * names one column on.
   */
  lemma KeepsShift(prev: KState, r: KState, m: nat, cols: seq<seq<Vec>>, all: seq<seq<Vec>>)
    requires 1 <= m && |cols| == m && all == cols + [r.a.hs]
    requires 0 <= prev.endRef < m && (m >= 2 ==> prev.hLoad == cols[m - 2]) &&
             (prev.endRef <= m - 3 ==> prev.hMax == cols[prev.endRef]) && prev.a.hs == cols[m - 1]
    requires r.hLoad == prev.a.hs && (r.endRef == prev.endRef || r.endRef == m) &&
             r.hMax == (if prev.endRef == m - 2 then prev.hLoad else prev.hMax)
    ensures 0 <= r.endRef < m + 1 && r.hLoad == all[m - 1] && (r.endRef <= m - 2 ==> r.hMax == all[r.endRef])
  {
    if r.endRef <= m - 2 {
      assert r.endRef == prev.endRef && all[r.endRef] == cols[r.endRef];
    }
  }

  /** The base case of RunKeepsColumns: after the first column end_ref is 0. */
  lemma KeepsAtFirst(cfg: Config, prof: seq<Vec>, db: seq<nat>)
    requires cfg.Valid() && ProfileFits(prof, db, cfg.SegLen()) && 1 <= |db|
    ensures KeepsAt(cfg, prof, db, 1)
  {
    if !Run(cfg, prof, db, 1).saturated {
      ColumnStepKeeps(cfg, prof, db, Run(cfg, prof, db, 0), 0);
    }
  }

  /** The last column stored after m >= 1 columns is the H buffer of the state after m columns. */
  lemma StoredLast(cfg: Config, prof: seq<Vec>, db: seq<nat>, m: nat, n: nat)
    requires cfg.Valid() && ProfileFits(prof, db, cfg.SegLen()) && n == m + 1 && 1 <= m && n <= |db|
    ensures Stored(cfg, prof, db, m)[m - 1] == Run(cfg, prof, db, m).a.hs
    ensures Stored(cfg, prof, db, n) == Stored(cfg, prof, db, m) + [Run(cfg, prof, db, n).a.hs]
  {
    assert Stored(cfg, prof, db, m) == Stored(cfg, prof, db, m - 1) + [HCol(cfg, prof, db, m - 1)];
  }

  /** The induction step of RunKeepsColumns: the rotation of column m moves the buffers one column on. */
  lemma KeepsAtStep(cfg: Config, prof: seq<Vec>, db: seq<nat>, m: nat, n: nat)
    requires cfg.Valid() && ProfileFits(prof, db, cfg.SegLen()) && n == m + 1 && 2 <= n <= |db|
    requires KeepsAt(cfg, prof, db, m)
    ensures KeepsAt(cfg, prof, db, n)
  {
    var prev := Run(cfg, prof, db, m);
    var r := Run(cfg, prof, db, n);
    if !r.saturated {
      UnsaturatedBefore(cfg, prof, db, m, n);
      RunNext(cfg, prof, db, m, prev, ColumnStep(cfg, prof, db, prev, m));
      ColumnStepKeeps(cfg, prof, db, prev, m);
      StoredLast(cfg, prof, db, m, n);
      KeepsShift(prev, r, m, Stored(cfg, prof, db, m), Stored(cfg, prof, db, n));
    }
  }

  /** The induction behind RunKeepsColumns. */
  lemma {:induction false} KeepsAll(cfg: Config, prof: seq<Vec>, db: seq<nat>, n: nat)
    requires cfg.Valid() && ProfileFits(prof, db, cfg.SegLen()) && 1 <= n <= |db|
    ensures KeepsAt(cfg, prof, db, n)
  {
    if n == 1 {
      KeepsAtFirst(cfg, prof, db);
    } else {
      KeepsAll(cfg, prof, db, n - 1);
      KeepsAtStep(cfg, prof, db, n - 1, n);
    }
  }

  /** After an unsaturated sweep, the buffer the end_query walk reads is the H column of end_ref. */
  lemma BestColumnIsEndRef(cfg: Config, prof: seq<Vec>, db: seq<nat>)
    requires cfg.Valid() && ProfileFits(prof, db, cfg.SegLen()) && |db| >= 1
    requires !Run(cfg, prof, db, |db|).saturated
    ensures var st := Run(cfg, prof, db, |db|);
            0 <= st.endRef < |db| && BestColumn(st, |db|) == Stored(cfg, prof, db, |db|)[st.endRef]
  {
    var n := |db|;
    var st := Run(cfg, prof, db, n);
    RunKeepsColumns(cfg, prof, db, n);
    if st.endRef == n - 1 {
      assert Stored(cfg, prof, db, n) == Stored(cfg, prof, db, n - 1) + [HCol(cfg, prof, db, n - 1)];
    }
  }

  /**
   * eq is the least query index whose H in col equals the score, when one
   * is below the limit, and the limit otherwise.
   */
  predicate EndQueryLeast(col: seq<Vec>, score: int, limit: nat, eq: int)
    requires Vecs(col, |col|)
  {
    0 <= eq <= limit &&
    (eq < limit ==>
       exists x :: 0 <= x < SegWidth * |col| && x / SegWidth < |col| && col[x / SegWidth][x % SegWidth] == score &&
                   FlatToQuery(x, SegWidth, |col|) == eq) &&
    (forall x :: 0 <= x < SegWidth * |col| && x / SegWidth < |col| && col[x / SegWidth][x % SegWidth] == score ==>
                   eq <= FlatToQuery(x, SegWidth, |col|))
  }

  /** The end_query walk over a whole buffer finds the least query index holding the score. */
  lemma WalkLeast(col: seq<Vec>, score: int, limit: nat)
    requires |col| > 0 && Vecs(col, |col|)
    ensures EndQueryLeast(col, score, limit, EndQueryWalk(col, score, limit, SegWidth * |col|))
  {
    EndQueryWalkLeast(col, score, limit, SegWidth * |col|);
  }

  /** An unsaturated outcome carries the sweep's end_ref, and its end_query is the least query index in the buffer of end_ref holding the score. */
  lemma OutcomeEnd(cfg: Config, st: KState, n: nat, col: seq<Vec>)
    requires cfg.Valid() && KFits(st, cfg.SegLen(), n) && !Outcome(cfg, st, n).saturated
    requires BestColumn(st, n) == col
    ensures var r := Outcome(cfg, st, n);
            !st.saturated && r.endRef == st.endRef && Vecs(col, |col|) &&
            EndQueryLeast(col, r.score, cfg.s1Len - 1, r.endQuery)
  {
    SegLenPositive(cfg);
    WalkLeast(col, st.score, cfg.s1Len - 1);
  }

  /**
   * The kernel's end position: when the result is not saturated, end_ref is
   * a database position and end_query is the least query index, below
   * s1Len - 1, whose H in the column of end_ref equals the score, or
   * s1Len - 1 when there is none.
   */
  lemma ReportEndPositions(cfg: Config, prof: seq<Vec>, db: seq<nat>)
    requires cfg.Valid() && ProfileFits(prof, db, cfg.SegLen()) && |db| >= 1
    requires !Report(cfg, prof, db).saturated
    ensures var r := Report(cfg, prof, db);
            0 <= r.endRef < |db| &&
            EndQueryLeast(Stored(cfg, prof, db, |db|)[r.endRef], r.score, cfg.s1Len - 1, r.endQuery)
  {
    var st := Run(cfg, prof, db, |db|);
    assert !st.saturated;
    BestColumnIsEndRef(cfg, prof, db);
    OutcomeEnd(cfg, st, |db|, Stored(cfg, prof, db, |db|)[st.endRef]);
  }

  // ---------------------------------------------------------------------
  // The score when no H rises above zero.

  /**
   * With non-negative open and extension penalties below 128 and no
   * positive substitution score, no H rises above zero, so no column sets
   * the score: the kernel reports NEG_INF, unsaturated, although the best
   * local alignment scores 0.
   */
  lemma NoPositiveScoreReportsNegInf(cfg: Config, prof: seq<Vec>, db: seq<nat>)
    requires cfg.Valid() && ProfileFits(prof, db, cfg.SegLen())
    requires 0 <= cfg.open <= Int8Max && 0 <= cfg.gap <= Int8Max && ProfCapped(prof, 0)
    ensures AllIn(Run(cfg, prof, db, |db|).a.hs, 0, 0)
    ensures Report(cfg, prof, db).score == Int8Min && !Report(cfg, prof, db).saturated
  {
    assert Capped(cfg, 0);
    RunCapped(cfg, prof, db, |db|, 0);
  }

  /** One query residue against one database residue that scores -1, with open and extension 1: the report is NEG_INF. */
  lemma NegInfExample()
    ensures var cfg := Config(1, 1, 1, 0);
            cfg.Valid() && ProfileFits([Splat(SegWidth, -1)], [0], cfg.SegLen()) &&
            Report(cfg, [Splat(SegWidth, -1)], [0]).score == Int8Min
  {
    var cfg := Config(1, 1, 1, 0);
    var prof := [Splat(SegWidth, -1)];
    assert cfg.SegLen() == 1 by {
      SegLenIsCeiling(1, SegWidth);
    }
    assert ProfCapped(prof, 0);
    NoPositiveScoreReportsNegInf(cfg, prof, [0]);
  }

  /** x bounds every H of the stored columns and is one of them. */
  predicate BestOf(cols: seq<seq<Vec>>, segLen: nat, x: int)
    requires forall c :: 0 <= c < |cols| ==> |cols[c]| == segLen && forall i :: 0 <= i < segLen ==> |cols[c][i]| == SegWidth
  {
    (forall c, i, k :: 0 <= c < |cols| && 0 <= i < segLen && 0 <= k < SegWidth ==> cols[c][i][k] <= x) &&
    (exists c, i, k :: 0 <= c < |cols| && 0 <= i < segLen && 0 <= k < SegWidth && cols[c][i][k] == x)
  }

  /** When no column set the score, every stored H is 0. */
  lemma UnsetScoreAllZero(cfg: Config, prof: seq<Vec>, db: seq<nat>)
    requires cfg.Valid() && ProfileFits(prof, db, cfg.SegLen()) && |db| >= 1
    requires !Run(cfg, prof, db, |db|).saturated && Run(cfg, prof, db, |db|).score == Int8Min
    ensures BestOf(Stored(cfg, prof, db, |db|), cfg.SegLen(), 0)
  {
    var n := |db|;
    var st := Run(cfg, prof, db, n);
    var cols := Stored(cfg, prof, db, n);
    RunTracksScore(cfg, prof, db, n);
    RunCovers(cfg, prof, db, n);
    assert AllAtMost(st.maxH, 0) && MaxOf(cols, st.maxH);
    forall c, i, k | 0 <= c < n && 0 <= i < cfg.SegLen() && 0 <= k < SegWidth
      ensures cols[c][i][k] <= 0
    {
      assert cols[c][i][k] <= st.maxH[k];
    }
    StoredPrefix(cfg, prof, db, 0, n);
    StoredHInRange(cfg, prof, db, 1);
    SegLenPositive(cfg);
    assert LanesIn(HCol(cfg, prof, db, 0)[0], 0, Int8Max);
    assert cols[0][0][0] == 0;
  }

  /**
   * The corrected report: when it is not saturated its score is the largest
   * H the sweep stored (0 when none rose above zero), and when the kernel
   * set the score the two reports agree.
   */
  lemma CorrectedScoreIsBestH(cfg: Config, prof: seq<Vec>, db: seq<nat>)
    requires cfg.Valid() && ProfileFits(prof, db, cfg.SegLen()) && |db| >= 1
    requires !CorrectedReport(cfg, prof, db).saturated
    ensures var r := CorrectedReport(cfg, prof, db);
            0 <= r.score && BestOf(Stored(cfg, prof, db, |db|), cfg.SegLen(), r.score)
    ensures Report(cfg, prof, db).score != Int8Min ==> CorrectedReport(cfg, prof, db) == Report(cfg, prof, db)
  {
    var st := Run(cfg, prof, db, |db|);
    assert !st.saturated;
    if st.score == Int8Min {
      UnsetScoreAllZero(cfg, prof, db);
    } else {
      SweepEndRefFirst(cfg, prof, db);
      FirstAtIsBest(Stored(cfg, prof, db, |db|), cfg.SegLen(), st.endRef, st.score);
    }
  }

  /** The first column to hold x, when x bounds every H, makes x the best H. */
  lemma FirstAtIsBest(cols: seq<seq<Vec>>, segLen: nat, e: nat, x: int)
    requires e < |cols|
    requires forall c :: 0 <= c < |cols| ==> |cols[c]| == segLen && forall i :: 0 <= i < segLen ==> |cols[c][i]| == SegWidth
    requires FirstAt(cols, segLen, e, x)
    ensures BestOf(cols, segLen, x)
  {
    var i, k :| 0 <= i < segLen && 0 <= k < SegWidth && cols[e][i][k] == x;
  }
}
