/**
 * The number of hops of a printed chain. The round loop of cfgtool.cpp runs
 * `maxhops - 1` rounds, which suggests one pointer per round, but
 * propagatepointers takes a word's hops as it finds them: a word relaxed
 * earlier in the same pass passes the new hops on at once. A chain can thus
 * gain several hops in one round. The corrected pointer pass lets
 * only words with fewer hops than the round number pass a hop on, and then
 * no chain has more hops than rounds have run.
 */
module CfgHops {
  import opened Util
  import opened CfgModel

  /** Every live word has at most `k` hops. */
  predicate HopsAtMost(g: Grid, k: nat) {
    forall r, j | 0 <= r < |g| && 0 <= j < |g[r]| :: Live(g[r][j]) ==> g[r][j].hops <= k
  }

  /** Every chain has at most `k` hops, that is at most `k + 1` lines. */
  predicate PathsAtMost(reps: seq<Report>, k: nat) {
    forall i | 0 <= i < |reps| :: |reps[i].path| <= k + 1
  }

  // ---------------------------------------------------------------------
  // The offset pass keeps the bound
  // ---------------------------------------------------------------------

  lemma OffsetStepAtMost(g: Grid, r: nat, j: nat, maxOffset: u32, k: nat)
    requires Wf(g) && r < |g| && j + 1 < |g[r]| && HopsAtMost(g, k)
    ensures HopsAtMost(OffsetStep(g, r, j, maxOffset), k)
  {
    OffsetStepSpec(g, r, j, maxOffset);
    var h := OffsetStep(g, r, j, maxOffset);
    forall r', j' | 0 <= r' < |h| && 0 <= j' < |h[r']| && Live(h[r'][j'])
      ensures h[r'][j'].hops <= k
    {
      if (r', j') != (r, j + 1) {
        assert h[r'][j'] == Get(h, Ref(r', j')) == Get(g, Ref(r', j'));
      } else if OffsetRelaxes(g, r, j, maxOffset) {
        assert h[r'][j'].hops == g[r][j].hops;
      }
    }
  }

  lemma {:induction false} OffsetRowAtMost(g: Grid, r: nat, j: nat, maxOffset: u32, k: nat)
    requires Wf(g) && r < |g| && j < |g[r]| && HopsAtMost(g, k)
    ensures HopsAtMost(OffsetRow(g, r, j, maxOffset), k)
    decreases j
  {
    if j > 0 {
      OffsetRowAtMost(g, r, j - 1, maxOffset, k);
      OffsetStepAtMost(OffsetRow(g, r, j - 1, maxOffset), r, j - 1, maxOffset, k);
    }
  }

  lemma {:induction false} OffsetRowsAtMost(g: Grid, i: nat, maxOffset: u32, k: nat)
    requires Wf(g) && i <= |g| && HopsAtMost(g, k)
    ensures HopsAtMost(OffsetRows(g, i, maxOffset), k)
    decreases i
  {
    if i > 0 {
      OffsetRowsAtMost(g, i - 1, maxOffset, k);
      var h0 := OffsetRows(g, i - 1, maxOffset);
      OffsetRowAtMost(h0, i - 1, |h0[i - 1]| - 1, maxOffset, k);
    }
  }

  /** propagateoffsets copies hops from live words only, so it never raises
      the largest hop count. */
  lemma OffsetPassAtMost(g: Grid, maxOffset: u32, k: nat)
    requires Wf(g) && HopsAtMost(g, k)
    ensures HopsAtMost(OffsetPass(g, maxOffset), k)
  {
    OffsetRowsAtMost(g, |g|, maxOffset, k);
  }

  // ---------------------------------------------------------------------
  // The corrected pointer pass
  // ---------------------------------------------------------------------

  /** One iteration of the corrected inner loop of propagatepointers in round
      `limit`: a word passes a hop on only when it has fewer than `limit` hops. */
  function BoundedPtrStep(g: Grid, p: Ref, limit: nat): (s: Scan)
    requires Wf(g) && ValidRef(g, p)
    ensures Wf(s.grid) && |s.grid| == |g| && |s.grid[p.region]| == |g[p.region]|
  {
    if Get(g, p).hops < limit then PtrStep(g, p) else Scan(g, [])
  }

  function BoundedPtrRow(g: Grid, r: nat, j: nat, limit: nat): (s: Scan)
    requires Wf(g) && r < |g| && j <= |g[r]|
    ensures Wf(s.grid) && |s.grid| == |g| && |s.grid[r]| == |g[r]|
    decreases j
  {
    if j == 0 then Scan(g, [])
    else
      var s0 := BoundedPtrRow(g, r, j - 1, limit);
      var st := BoundedPtrStep(s0.grid, Ref(r, j - 1), limit);
      Scan(st.grid, s0.reports + st.reports)
  }

  function BoundedPtrRows(g: Grid, i: nat, limit: nat): (s: Scan)
    requires Wf(g) && i <= |g|
    ensures Wf(s.grid) && |s.grid| == |g|
    decreases i
  {
    if i == 0 then Scan(g, [])
    else
      var s0 := BoundedPtrRows(g, i - 1, limit);
      var s1 := BoundedPtrRow(s0.grid, i - 1, |s0.grid[i - 1]|, limit);
      Scan(s1.grid, s0.reports + s1.reports)
  }

  /** Round `limit` of the corrected main loop: propagateoffsets, then the
      corrected propagatepointers. */
  function BoundedRound(g: Grid, maxOffset: u32, limit: nat): (s: Scan)
    requires Wf(g)
    ensures Wf(s.grid) && |s.grid| == |g|
  {
    BoundedPtrRows(OffsetPass(g, maxOffset), |g|, limit)
  }

  /** The rounds `1 .. n` of the corrected main loop. */
  function BoundedRounds(g: Grid, n: nat, maxOffset: u32): (s: Scan)
    requires Wf(g)
    ensures Wf(s.grid)
    decreases n
  {
    if n == 0 then Scan(g, [])
    else
      var s0 := BoundedRounds(g, n - 1, maxOffset);
      var s1 := BoundedRound(s0.grid, maxOffset, n);
      Scan(s1.grid, s0.reports + s1.reports)
  }

  /** A word with fewer than `limit` hops gives its target at most `limit`
      hops, and the chain it prints then has at most `limit` hops. */
  lemma BoundedPtrStepAtMost(g: Grid, p: Ref, limit: nat)
    requires Wf(g) && ValidRef(g, p) && HopsAtMost(g, limit)
    ensures HopsAtMost(BoundedPtrStep(g, p, limit).grid, limit)
    ensures PathsAtMost(BoundedPtrStep(g, p, limit).reports, limit)
  {
    var c := Get(g, p);
    if c.hops < limit && PtrRelaxes(g, p) {
      var t := c.ptr.value;
      PtrRelaxKeepsWf(g, p);
      var h := PtrRelaxed(g, p);
      assert Get(h, t).hops == c.hops + 1 <= limit;
      forall r, j | 0 <= r < |h| && 0 <= j < |h[r]| && Live(h[r][j]) ensures h[r][j].hops <= limit {
        if Ref(r, j) != t {
          assert h[r][j] == Get(h, Ref(r, j)) == Get(g, Ref(r, j));
        }
      }
      var s := BoundedPtrStep(g, p, limit);
      if Get(g, t).hops == GOAL_PENDING {
        var k := MarkReported(h, t);
        assert s == Scan(k, [Report(t, Walk(h, t, true))]);
        forall r, j | 0 <= r < |k| && 0 <= j < |k[r]| && Live(k[r][j]) ensures k[r][j].hops <= limit {
          assert Ref(r, j) != t;
          assert k[r][j] == Get(k, Ref(r, j)) == Get(h, Ref(r, j));
        }
      } else {
        assert s == Scan(h, []);
      }
    } else {
      if c.hops < limit {
        assert CellOk(g, p.region, p.index);
      }
      assert BoundedPtrStep(g, p, limit) == Scan(g, []);
    }
  }

  /** A stretch of the corrected search within the bound `k`. */
  predicate ScanAtMost(s: Scan, k: nat) {
    var ok := HopsAtMost(s.grid, k) && PathsAtMost(s.reports, k);
    ok
  }

  lemma {:induction false} BoundedPtrRowAtMost(g: Grid, r: nat, j: nat, limit: nat)
    requires Wf(g) && r < |g| && j <= |g[r]| && HopsAtMost(g, limit)
    ensures ScanAtMost(BoundedPtrRow(g, r, j, limit), limit)
    decreases j
  {
    if j > 0 {
      BoundedPtrRowAtMost(g, r, j - 1, limit);
      BoundedPtrRowStep(g, r, j, limit);
    }
  }

  lemma BoundedPtrRowStep(g: Grid, r: nat, j: nat, limit: nat)
    requires Wf(g) && r < |g| && 0 < j <= |g[r]|
    requires ScanAtMost(BoundedPtrRow(g, r, j - 1, limit), limit)
    ensures ScanAtMost(BoundedPtrRow(g, r, j, limit), limit)
  {
    var s0 := BoundedPtrRow(g, r, j - 1, limit);
    var st := BoundedPtrStep(s0.grid, Ref(r, j - 1), limit);
    assert BoundedPtrRow(g, r, j, limit) == Scan(st.grid, s0.reports + st.reports);
    BoundedPtrStepAtMost(s0.grid, Ref(r, j - 1), limit);
    PathsAtMostAppend(s0.reports, st.reports, limit);
  }

  lemma {:induction false} BoundedPtrRowsAtMost(g: Grid, i: nat, limit: nat)
    requires Wf(g) && i <= |g| && HopsAtMost(g, limit)
    ensures ScanAtMost(BoundedPtrRows(g, i, limit), limit)
    decreases i
  {
    if i > 0 {
      BoundedPtrRowsAtMost(g, i - 1, limit);
      BoundedPtrRowsStep(g, i, limit);
    } else {
      assert BoundedPtrRows(g, i, limit) == Scan(g, []);
    }
  }

  lemma BoundedPtrRowsStep(g: Grid, i: nat, limit: nat)
    requires Wf(g) && 0 < i <= |g|
    requires ScanAtMost(BoundedPtrRows(g, i - 1, limit), limit)
    ensures ScanAtMost(BoundedPtrRows(g, i, limit), limit)
  {
    var s0 := BoundedPtrRows(g, i - 1, limit);
    var s1 := BoundedPtrRow(s0.grid, i - 1, |s0.grid[i - 1]|, limit);
    assert BoundedPtrRows(g, i, limit) == Scan(s1.grid, s0.reports + s1.reports);
    BoundedPtrRowAtMost(s0.grid, i - 1, |s0.grid[i - 1]|, limit);
    PathsAtMostAppend(s0.reports, s1.reports, limit);
  }

  lemma PathsAtMostAppend(a: seq<Report>, b: seq<Report>, k: nat)
    requires PathsAtMost(a, k) && PathsAtMost(b, k)
    ensures PathsAtMost(a + b, k)
  {
    forall i | 0 <= i < |a + b| ensures |(a + b)[i].path| <= k + 1 {
      if i < |a| { assert (a + b)[i] == a[i]; } else { assert (a + b)[i] == b[i - |a|]; }
    }
  }

  lemma ScanWiden(s: Scan, k: nat, k': nat)
    requires ScanAtMost(s, k) && k <= k'
    ensures ScanAtMost(s, k')
  {
  }

  /** After `n` corrected rounds from a labelling whose live words all have
      zero hops, no word has more than `n` hops, and no chain printed has
      more than `n` hops. */
  lemma {:induction false} BoundedRoundsAtMost(g: Grid, n: nat, maxOffset: u32)
    requires Wf(g) && HopsAtMost(g, 0)
    ensures ScanAtMost(BoundedRounds(g, n, maxOffset), n)
    decreases n
  {
    if n > 0 {
      var k: nat := n - 1;
      BoundedRoundsAtMost(g, k, maxOffset);
      BoundedRoundsStep(g, k, maxOffset);
    } else {
      assert BoundedRounds(g, n, maxOffset) == Scan(g, []);
    }
  }

  lemma BoundedRoundsStep(g: Grid, k: nat, maxOffset: u32)
    requires Wf(g) && ScanAtMost(BoundedRounds(g, k, maxOffset), k)
    ensures ScanAtMost(BoundedRounds(g, k + 1, maxOffset), k + 1)
  {
    var n := k + 1;
    var s0 := BoundedRounds(g, k, maxOffset);
    var s1 := BoundedRound(s0.grid, maxOffset, n);
    assert BoundedRounds(g, n, maxOffset) == Scan(s1.grid, s0.reports + s1.reports);
    ScanWiden(s0, k, n);
    var h := OffsetPass(s0.grid, maxOffset);
    OffsetPassAtMost(s0.grid, maxOffset, n);
    BoundedPtrRowsAtMost(h, |h|, n);
    PathsAtMostAppend(s0.reports, s1.reports, n);
  }

  /** The corrected search: no chain has more hops than rounds run, which is
      `maxhops - 1`, so no chain has `maxhops` hops or more. */
  lemma BoundedSearchHops(spans: seq<Span>, g: Grid, startLo: nat, startHi: nat, goalLo: nat, goalHi: nat,
                          maxHops: u32, maxOffset: u32)
    requires WfSpans(spans) && Shaped(spans, g)
    ensures var h := Seed(spans, g, startLo, startHi, goalLo, goalHi);
      Wf(h) &&
      var s := BoundedRounds(h, RoundCount(maxHops), maxOffset);
      forall i | 0 <= i < |s.reports| :: |s.reports[i].path| - 1 < maxHops || maxHops == 0
  {
    var h := Seed(spans, g, startLo, startHi, goalLo, goalHi);
    SeededWf(h);
    SeedTracked(spans, g, startLo, startHi, goalLo, goalHi, maxOffset);
    BoundedRoundsAtMost(h, RoundCount(maxHops), maxOffset);
  }

  // ---------------------------------------------------------------------
  // The code as written: three hops in one round
  // ---------------------------------------------------------------------

  /** One region of four words at 0x1000, each pointing at the next; the
      first word is the start and the last the goal. */
  const Chain0 := Cell(0x1000, 0x1008, Some(Ref(0, 1)), None, 0, 0)
  const Chain1 := Cell(0x1008, 0x1010, Some(Ref(0, 2)), None, UNVISITED, UNVISITED)
  const Chain2 := Cell(0x1010, 0x1018, Some(Ref(0, 3)), None, UNVISITED, UNVISITED)
  const Chain3 := Cell(0x1018, 0, None, None, GOAL_PENDING, GOAL_PENDING)

  const ChainPath := [Step(0x1000, 0, 0x1000, 0x1008, false), Step(0x1008, 0, 0x1008, 0x1010, false),
                      Step(0x1010, 0, 0x1010, 0x1018, false), Step(0x1018, 0, 0x1018, 0, true)]

  /** The labellings of the first pointer pass: word `k` relaxed from word
      `k - 1` for `k` = 1, 2, 3, then the goal marked reported. */
  const Cascade0: Grid := [[Chain0, Chain1, Chain2, Chain3]]
  const Reached1 := Chain1.(hops := 1, offset := 0, rev := Some(Ref(0, 0)))
  const Reached2 := Chain2.(hops := 2, offset := 0, rev := Some(Ref(0, 1)))
  const Reached3 := Chain3.(hops := 3, offset := 0, rev := Some(Ref(0, 2)))
  const Cascade1: Grid := [[Chain0, Reached1, Chain2, Chain3]]
  const Cascade2: Grid := [[Chain0, Reached1, Reached2, Chain3]]
  const Cascade3: Grid := [[Chain0, Reached1, Reached2, Reached3]]
  const Cascade4: Grid := [[Chain0, Reached1, Reached2, Reached3.(hops := GOAL_REPORTED)]]

  /** The snapshot of the example is one region of 32 bytes at 0x1000; after
      the preliminary analysis, with start range [0x1000, 0x1008) and goal
      range [0x1018, 0x1020), it is labelled `Cascade0`. */
  lemma CascadeSeed()
    ensures var spans := [Span(0x1000, 32)];
      var g := Captured(spans, [[0x1008, 0x1010, 0x1018, 0]]);
      var g0 := Prepare(spans, g);
      && Touched(g0, 0x1000, 0x1008)
      && Touched(Mark(g0, 0x1000, 0x1008, 0, 0), 0x1018, 0x1020)
      && Seed(spans, g, 0x1000, 0x1008, 0x1018, 0x1020) == Cascade0
  {
    var spans: seq<Span> := [Span(0x1000, 32)];
    var g := Captured(spans, [[0x1008, 0x1010, 0x1018, 0]]);
    assert PtrTarget(spans, 0x1008) == Some(Ref(0, 1));
    assert PtrTarget(spans, 0x1010) == Some(Ref(0, 2));
    assert PtrTarget(spans, 0x1018) == Some(Ref(0, 3));
    assert PtrTarget(spans, 0) == None;
    var g0 := Prepare(spans, g);
    assert |g0| == 1 && |g0[0]| == 4;
    forall j | 0 <= j < 4 ensures g0[0][j] == Get(g0, Ref(0, j)) == PrepareCell(spans, g[0][j]) {}
    assert g0[0][0] == Chain0.(hops := UNVISITED, offset := UNVISITED);
    assert g0[0][1] == Chain1;
    assert g0[0][2] == Chain2;
    assert g0[0][3] == Chain3.(hops := UNVISITED, offset := UNVISITED);
    CascadeMarked(g0);
  }

  lemma CascadeMarked(g0: Grid)
    requires |g0| == 1 && |g0[0]| == 4
    requires g0[0][0] == Chain0.(hops := UNVISITED, offset := UNVISITED) && g0[0][1] == Chain1
    requires g0[0][2] == Chain2 && g0[0][3] == Chain3.(hops := UNVISITED, offset := UNVISITED)
    ensures Touched(g0, 0x1000, 0x1008)
    ensures Touched(Mark(g0, 0x1000, 0x1008, 0, 0), 0x1018, 0x1020)
    ensures Mark(Mark(g0, 0x1000, 0x1008, 0, 0), 0x1018, 0x1020, GOAL_PENDING, GOAL_PENDING) == Cascade0
  {
    assert Hit(0x1000, 0x1000, 0x1008) && Hit(g0[0][0].address, 0x1000, 0x1008);
    assert !Hit(0x1008, 0x1000, 0x1008) && !Hit(0x1010, 0x1000, 0x1008) && !Hit(0x1018, 0x1000, 0x1008);
    var g1: Grid := Mark(g0, 0x1000, 0x1008, 0, 0);
    assert Hit(0x1018, 0x1018, 0x1020) && Hit(g1[0][3].address, 0x1018, 0x1020);
    assert !Hit(0x1000, 0x1018, 0x1020) && !Hit(0x1008, 0x1018, 0x1020) && !Hit(0x1010, 0x1018, 0x1020);
    var h: Grid := Mark(g1, 0x1018, 0x1020, GOAL_PENDING, GOAL_PENDING);
    assert |h| == 1 && |h[0]| == 4;
    assert h[0][0] == Chain0 && h[0][1] == Chain1 && h[0][2] == Chain2 && h[0][3] == Chain3;
    assert h[0] == Cascade0[0];
  }

  /** The search of the example with `maxhops` 2 and `maxoffset` 0 runs one
      round and prints a chain of three hops. */
  lemma CascadeSearch()
    ensures var spans := [Span(0x1000, 32)];
      var o := Search(spans, Captured(spans, [[0x1008, 0x1010, 0x1018, 0]]), 0x1000, 0x1008, 0x1018, 0x1020, 2, 0);
      && o.Finished? && o.reports == [Report(Ref(0, 3), ChainPath)]
      && |o.reports[0].path| - 1 == 3
  {
    CascadeSeed();
    CascadeInOneRound();
  }

  /** With one round (`maxhops` 2) and `maxoffset` 0, the first round prints
      the chain of all four words: three hops, more than `maxhops`. */
  lemma CascadeInOneRound()
    ensures Wf(Cascade0)
    ensures Rounds(Cascade0, RoundCount(2), 0).reports == [Report(Ref(0, 3), ChainPath)]
    ensures |ChainPath| - 1 == 3
  {
    var g := Cascade0;
    SeededWf(g);
    assert OffsetPass(g, 0) == g by {
      assert OffsetRow(g, 0, 1, 0) == g;
      assert OffsetRow(g, 0, 2, 0) == g;
      assert OffsetRows(g, 1, 0) == OffsetRow(g, 0, 3, 0) == g;
    }
    CascadePtrPass();
    assert Rounds(g, 1, 0).reports == Round(g, 0).reports;
  }

  lemma CascadePtrPass()
    ensures Wf(Cascade0) && PtrPass(Cascade0).reports == [Report(Ref(0, 3), ChainPath)]
  {
    var g := Cascade0;
    CascadeStep1();
    CascadeStep2();
    CascadeStep3();
    assert PtrRow(g, 0, 1) == Scan(Cascade1, []);
    assert PtrRow(g, 0, 2) == Scan(Cascade2, []);
    assert PtrRow(g, 0, 3) == Scan(Cascade4, [Report(Ref(0, 3), ChainPath)]);
    assert PtrStep(Cascade4, Ref(0, 3)) == Scan(Cascade4, []);
    assert PtrRows(g, 1).reports == PtrRow(g, 0, 4).reports;
  }

  lemma CascadeStep1()
    ensures Wf(Cascade0) && Wf(Cascade1) && PtrStep(Cascade0, Ref(0, 0)) == Scan(Cascade1, [])
  {
    SeededWf(Cascade0);
    var h := PtrRelaxed(Cascade0, Ref(0, 0));
    assert h[0] == Cascade0[0][1 := Reached1];
    assert h[0] == Cascade1[0];
    assert h == Cascade1;
  }

  lemma CascadeStep2()
    ensures Wf(Cascade1) && Wf(Cascade2) && PtrStep(Cascade1, Ref(0, 1)) == Scan(Cascade2, [])
  {
    CascadeStep1();
    var h := PtrRelaxed(Cascade1, Ref(0, 1));
    assert h[0] == Cascade1[0][2 := Reached2];
    assert h[0] == Cascade2[0];
    assert h == Cascade2;
  }

  lemma CascadeStep3()
    ensures Wf(Cascade2) && Wf(Cascade3)
    ensures PtrStep(Cascade2, Ref(0, 2)) == Scan(Cascade4, [Report(Ref(0, 3), ChainPath)])
  {
    CascadeStep2();
    var h := PtrRelaxed(Cascade2, Ref(0, 2));
    assert h[0] == Cascade2[0][3 := Reached3];
    assert h[0] == Cascade3[0];
    assert h == Cascade3;
    CascadeWalk();
    var k := MarkReported(Cascade3, Ref(0, 3));
    assert k[0] == Cascade3[0][3 := Reached3.(hops := GOAL_REPORTED)];
    assert k[0] == Cascade4[0];
    assert k == Cascade4;
  }

  lemma CascadeWalk()
    ensures Wf(Cascade3) && Walk(Cascade3, Ref(0, 3), true) == ChainPath
  {
    var g := Cascade3;
    assert CellOk(g, 0, 0) && CellOk(g, 0, 1) && CellOk(g, 0, 2) && CellOk(g, 0, 3);
    assert Walk(g, Ref(0, 0), false) == ChainPath[..1];
    assert Walk(g, Ref(0, 1), false) == ChainPath[..2];
    assert Walk(g, Ref(0, 2), false) == ChainPath[..3];
  }
}
