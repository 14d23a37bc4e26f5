/**
 * A value model of the pointer-chain search in JITServer/cfgtool.cpp.
 *
 * The snapshot is a sequence of regions (`Span`: base address and byte size)
 * and, per region, a row of 8-byte words (`Cell`). Pointers between words are
 * (region, index) pairs (`Ref`). Every pass of the engine is a function from
 * one labelling (`Grid`) to the next, written as the same left-to-right scan
 * the C code performs, so that the imperative model in CfgTool can be proved
 * equal to it word by word.
 */
module CfgModel {
  import opened Util

  /** sizeof(void *) on the 64-bit target. */
  const WORD: nat := 8

  /** The `hops` sentinels of cfgtool.cpp. */
  const UNVISITED: u32 := 0xffff_ffff
  const GOAL_PENDING: u32 := 0xffff_fffe
  const GOAL_REPORTED: u32 := 0xffff_fffd
  /** Words whose `hops` is at or above this value are never used as a source. */
  const FROZEN: u32 := 0xffff_fff0

  /** `struct region` without its data: base address and size in bytes. */
  datatype Span = Span(base: nat, size: nat)

  /** A word of the snapshot: region number and word index inside the region. */
  datatype Ref = Ref(region: nat, index: nat)

  /** `struct location` as a value. */
  datatype Cell = Cell(address: nat, value: nat, ptr: Option<Ref>, rev: Option<Ref>,
                       hops: u32, offset: u32)

  /** `struct resultline`: `address + offset = address2 -> dest`. */
  datatype Step = Step(address: nat, offset: u32, address2: nat, dest: nat, goal: bool)

  /** One call of printresult: the goal word and the chain printed for it. */
  datatype Report = Report(goal: Ref, path: seq<Step>)

  /** The labelling after part of a scan, and the reports emitted so far. */
  datatype Scan = Scan(grid: Grid, reports: seq<Report>)

  type Grid = seq<seq<Cell>>

  predicate Live(c: Cell) { c.hops < FROZEN }

  // ---------------------------------------------------------------------
  // Regions and address lookup (findregion, findlocation)
  // ---------------------------------------------------------------------

  /** The test of findregion: `base <= a <= base + size - 1`. */
  predicate InSpan(s: Span, a: int) {
    s.base <= a <= s.base + s.size - 1
  }

  /** Regions sorted by base address and pairwise disjoint. */
  predicate Ordered(spans: seq<Span>) {
    forall i, j | 0 <= i < j < |spans| :: spans[i].base + spans[i].size <= spans[j].base
  }

  /** What the capture code produces: a non-empty sorted list of non-empty,
      word-granular regions below 2^64. */
  predicate WfSpans(spans: seq<Span>) {
    && |spans| > 0
    && (forall i | 0 <= i < |spans| ::
          0 < spans[i].size && spans[i].size % WORD == 0 && spans[i].base + spans[i].size <= TWO_64)
    && Ordered(spans)
  }

  /** `minaddress` and `maxaddress` (cfgtool.cpp:290-291). */
  function MinAddress(spans: seq<Span>): nat
    requires |spans| > 0
  {
    spans[0].base
  }

  function MaxAddress(spans: seq<Span>): int
    requires |spans| > 0
  {
    spans[|spans| - 1].base + spans[|spans| - 1].size - 1
  }

  /** Reference definition of the region lookup: the first region, at or
      after `i`, that contains `a`. */
  function RegionFrom(spans: seq<Span>, a: int, i: nat): (r: Option<nat>)
    requires i <= |spans|
    ensures r.Some? ==> i <= r.value < |spans| && InSpan(spans[r.value], a)
    ensures r.None? ==> forall k | i <= k < |spans| :: !InSpan(spans[k], a)
    decreases |spans| - i
  {
    if i == |spans| then None
    else if InSpan(spans[i], a) then Some(i)
    else RegionFrom(spans, a, i + 1)
  }

  function RegionContaining(spans: seq<Span>, a: int): Option<nat> {
    RegionFrom(spans, a, 0)
  }

  /** Some region contains `a` exactly when the lookup succeeds; in a sorted
      snapshot the region containing `a` is unique, so the lookup finds it. */
  lemma RegionContainingSpec(spans: seq<Span>, a: int)
    ensures RegionContaining(spans, a).Some? <==> exists k :: 0 <= k < |spans| && InSpan(spans[k], a)
    ensures Ordered(spans) ==>
              forall k | 0 <= k < |spans| && InSpan(spans[k], a) :: RegionContaining(spans, a) == Some(k)
  {
    var r := RegionContaining(spans, a);
    if r.Some? {
      assert InSpan(spans[r.value], a);
    }
    if Ordered(spans) {
      forall k | 0 <= k < |spans| && InSpan(spans[k], a)
        ensures r == Some(k)
      {
        assert InSpan(spans[r.value], a);
      }
    }
  }

  /** findlocation: the word whose 8-byte slot holds `a`; an unaligned `a` is
      rounded down to the start of its slot. */
  function LocationOf(spans: seq<Span>, a: int): (r: Option<Ref>)
    requires WfSpans(spans)
    ensures r.None? <==> RegionContaining(spans, a).None?
    ensures r.Some? ==>
              && r.value.region < |spans|
              && r.value.index < spans[r.value.region].size / WORD
              && spans[r.value.region].base + WORD * r.value.index <= a
              && a < spans[r.value.region].base + WORD * r.value.index + WORD
  {
    match RegionContaining(spans, a)
    case None => None
    case Some(k) => Some(Ref(k, (a - spans[k].base) / WORD))
  }

  /** The candidate pointer edge of a word holding `v` (cfgtool.cpp:306-315). */
  function PtrTarget(spans: seq<Span>, v: int): Option<Ref>
    requires WfSpans(spans)
  {
    if v < MinAddress(spans) || v > MaxAddress(spans) then None
    else LocationOf(spans, v)
  }

  /** The range test of line 306 changes nothing: a value is a pointer exactly
      when some region contains it, and it then names the word holding it. */
  lemma PtrTargetSpec(spans: seq<Span>, v: int)
    requires WfSpans(spans)
    ensures PtrTarget(spans, v) == LocationOf(spans, v)
    ensures PtrTarget(spans, v).Some? <==> exists k :: 0 <= k < |spans| && InSpan(spans[k], v)
  {
    RegionContainingSpec(spans, v);
    var last := |spans| - 1;
    if v < MinAddress(spans) || v > MaxAddress(spans) {
      forall k | 0 <= k < |spans| ensures !InSpan(spans[k], v) {
        if k > 0 { assert spans[0].base + spans[0].size <= spans[k].base; }
        if k < last { assert spans[k].base + spans[k].size <= spans[last].base; }
      }
    }
  }

  // ---------------------------------------------------------------------
  // Labellings
  // ---------------------------------------------------------------------

  predicate ValidRef(g: Grid, p: Ref) {
    p.region < |g| && p.index < |g[p.region]|
  }

  function Get(g: Grid, p: Ref): Cell
    requires ValidRef(g, p)
  {
    g[p.region][p.index]
  }

  predicate SameShape(g: Grid, h: Grid) {
    |g| == |h| && forall r | 0 <= r < |g| :: |g[r]| == |h[r]|
  }

  function Set(g: Grid, p: Ref, c: Cell): (h: Grid)
    requires ValidRef(g, p)
    ensures SameShape(g, h) && Get(h, p) == c
    ensures forall q | ValidRef(g, q) && q != p :: Get(h, q) == Get(g, q)
  {
    g[p.region := g[p.region][p.index := c]]
  }

  /** The word addresses of a labelling agree with the region layout. */
  predicate Shaped(spans: seq<Span>, g: Grid) {
    && |g| == |spans|
    && (forall r | 0 <= r < |g| :: |g[r]| == spans[r].size / WORD)
    && (forall r, j | 0 <= r < |g| && 0 <= j < |g[r]| :: g[r][j].address == spans[r].base + WORD * j)
  }

  /** Pointer and back-reference fields name existing words; the word a
      back-reference names is a live source whose pointer leads back here. */
  predicate LinkOk(g: Grid, r: nat, j: nat)
    requires r < |g| && j < |g[r]|
  {
    var c := g[r][j];
    && (c.ptr.Some? ==> ValidRef(g, c.ptr.value))
    && (c.rev.Some? ==>
          && ValidRef(g, c.rev.value)
          && Live(Get(g, c.rev.value))
          && Get(g, c.rev.value).ptr == Some(Ref(r, j)))
  }

  /** For a live word: its offset is a whole number of words reaching back no
      further than the start of its region; the run-origin word
      `index - offset / 8` has no more hops, and unless it is a start word its
      back-reference has strictly fewer hops than this word. */
  predicate RunOk(g: Grid, r: nat, j: nat)
    requires r < |g| && j < |g[r]|
  {
    var c := g[r][j];
    Live(c) ==>
      && c.offset % WORD == 0
      && c.offset / WORD <= j
      && var o := g[r][j - c.offset / WORD];
         && o.hops <= c.hops
         && (o.hops == 0 ||
             (o.rev.Some? && ValidRef(g, o.rev.value) && Get(g, o.rev.value).hops < c.hops))
  }

  predicate CellOk(g: Grid, r: nat, j: nat)
    requires r < |g| && j < |g[r]|
  {
    && g[r][j].address == g[r][0].address + WORD * j
    && LinkOk(g, r, j)
    && RunOk(g, r, j)
  }

  /** The invariant every labelling of a search satisfies. */
  predicate Wf(g: Grid) {
    && (forall r | 0 <= r < |g| :: |g[r]| > 0)
    && (forall r, j | 0 <= r < |g| && 0 <= j < |g[r]| :: CellOk(g, r, j))
  }

  // ---------------------------------------------------------------------
  // printresult
  // ---------------------------------------------------------------------

  /** A printed chain: every step is `address + offset = address2`, every
      dereference lands on the next step's base, and only the last step, the
      goal, has no dereference. */
  predicate PathOk(path: seq<Step>) {
    && |path| > 0
    && path[|path| - 1].goal
    && path[|path| - 1].dest == 0
    && Chained(path)
  }

  /** Every step but the last dereferences to the base of the next one, and
      every step adds its offset to its base. */
  predicate Chained(path: seq<Step>) {
    && (forall i | 0 <= i < |path| - 1 :: !path[i].goal && path[i].dest == path[i + 1].address)
    && (forall i | 0 <= i < |path| :: path[i].address + path[i].offset == path[i].address2)
  }

  lemma ChainedSnoc(rest: seq<Step>, step: Step)
    requires Chained(rest) && |rest| > 0
    requires !rest[|rest| - 1].goal && rest[|rest| - 1].dest == step.address
    requires step.address + step.offset == step.address2
    ensures Chained(rest + [step])
  {
    var path := rest + [step];
    forall i | 0 <= i < |path| - 1 ensures !path[i].goal && path[i].dest == path[i + 1].address {
      if i < |rest| - 1 {
        assert path[i] == rest[i] && path[i + 1] == rest[i + 1];
      }
    }
  }

  /** The back-walk of printresult from word `w`, in print order (start first).
      Each step goes to the run-origin of the current word; the walk stops at
      a run-origin with zero hops and otherwise continues at the origin's
      back-reference, which always has fewer hops, so the walk terminates.
      The first word is live, or (a goal just reached with hops 0xfffffff0)
      a word with offset 0 and a back-reference. */
  function Walk(g: Grid, w: Ref, goal: bool): (path: seq<Step>)
    requires Wf(g) && ValidRef(g, w)
    requires Live(Get(g, w)) || (Get(g, w).offset == 0 && Get(g, w).rev.Some?)
    requires !goal ==> Get(g, w).ptr.Some?
    ensures 1 <= |path| <= Get(g, w).hops + 1
    decreases Get(g, w).hops
  {
    assert CellOk(g, w.region, w.index);
    var c := Get(g, w);
    var oi := w.index - c.offset / WORD;
    var o := g[w.region][oi];
    assert CellOk(g, w.region, oi);
    assert c.address - o.address == c.offset;
    var dest := if goal then 0 else Get(g, c.ptr.value).address;
    var step := Step(o.address, c.offset, c.address, dest, goal);
    if o.hops == 0 then
      assert Get(g, Ref(w.region, oi)).hops == 0;
      [step]
    else
      var next := o.rev.value;
      assert Get(g, next).ptr == Some(Ref(w.region, oi));
      var rest := Walk(g, next, false);
      rest + [step]
  }

  /** The walk from `w` ends with the line for `w`: its run-origin, its
      offset, its own address and, unless it is the goal, the address its
      pointer names. Before that line comes the walk from the origin's
      back-reference, which has fewer hops, unless the origin is a start word. */
  lemma WalkSplit(g: Grid, w: Ref, goal: bool)
    requires Wf(g) && ValidRef(g, w)
    requires Live(Get(g, w)) || (Get(g, w).offset == 0 && Get(g, w).rev.Some?)
    requires !goal ==> Get(g, w).ptr.Some?
    ensures var c := Get(g, w); var path := Walk(g, w, goal);
      && c.offset / WORD <= w.index
      && var o := Get(g, Ref(w.region, w.index - c.offset / WORD));
         && (!goal ==> ValidRef(g, c.ptr.value))
         && o.address + c.offset == c.address
         && path[|path| - 1] ==
              Step(o.address, c.offset, c.address, if goal then 0 else Get(g, c.ptr.value).address, goal)
         && (o.hops == 0 <==> |path| == 1)
         && (o.hops != 0 ==>
               && o.rev.Some? && ValidRef(g, o.rev.value)
               && Live(Get(g, o.rev.value))
               && Get(g, o.rev.value).ptr == Some(Ref(w.region, w.index - c.offset / WORD))
               && Get(g, o.rev.value).hops < c.hops
               && Walk(g, o.rev.value, false) == path[..|path| - 1])
  {
    var c := Get(g, w);
    assert CellOk(g, w.region, w.index);
    var oi := w.index - c.offset / WORD;
    assert CellOk(g, w.region, oi);
    var o := g[w.region][oi];
    if o.hops != 0 {
      var rest := Walk(g, o.rev.value, false);
      assert Walk(g, w, goal)[..|Walk(g, w, goal)| - 1] == rest;
    }
  }

  /** What printresult prints is a well-formed chain: it ends at `w`, every
      dereference lands on the base of the next step, each step adds its
      offset to its base, and the first base is the address of a word with
      zero hops (WalkTracked shows that this word is in the start range). */
  lemma WalkSound(g: Grid, w: Ref, goal: bool)
    requires Wf(g) && ValidRef(g, w)
    requires Live(Get(g, w)) || (Get(g, w).offset == 0 && Get(g, w).rev.Some?)
    requires !goal ==> Get(g, w).ptr.Some?
    ensures var path := Walk(g, w, goal);
      && path[|path| - 1].address2 == Get(g, w).address
      && path[|path| - 1].goal == goal
      && (goal ==> path[|path| - 1].dest == 0)
      && Chained(path)
      && exists q :: ValidRef(g, q) && Get(g, q).hops == 0 && Get(g, q).address == path[0].address
  {
    WalkSplit(g, w, goal);
    WalkChained(g, w, goal);
  }

  /** The chain part of WalkSound, by induction on the hops of `w`. */
  lemma {:induction false} WalkChained(g: Grid, w: Ref, goal: bool)
    requires Wf(g) && ValidRef(g, w)
    requires Live(Get(g, w)) || (Get(g, w).offset == 0 && Get(g, w).rev.Some?)
    requires !goal ==> Get(g, w).ptr.Some?
    ensures var path := Walk(g, w, goal);
      && Chained(path)
      && exists q :: ValidRef(g, q) && Get(g, q).hops == 0 && Get(g, q).address == path[0].address
    decreases Get(g, w).hops
  {
    WalkSplit(g, w, goal);
    var c := Get(g, w);
    var oi := w.index - c.offset / WORD;
    var o := g[w.region][oi];
    var path := Walk(g, w, goal);
    var step := path[|path| - 1];
    if o.hops == 0 {
      assert Get(g, Ref(w.region, oi)).hops == 0;
    } else {
      var next := o.rev.value;
      WalkChained(g, next, false);
      WalkSplit(g, next, false);
      var rest := Walk(g, next, false);
      assert path == rest + [step];
      ChainedSnoc(rest, step);
    }
  }

  // ---------------------------------------------------------------------
  // How labels may evolve
  // ---------------------------------------------------------------------

  /** A word's later label: same address, value and pointer; hops never grow,
      except that a pending goal may become reported; nothing becomes a
      pending goal. */
  predicate Follows(a: Cell, b: Cell) {
    && b.address == a.address && b.value == a.value && b.ptr == a.ptr
    && (b.hops <= a.hops || (a.hops == GOAL_PENDING && b.hops == GOAL_REPORTED))
    && (b.hops == GOAL_PENDING ==> a.hops == GOAL_PENDING)
  }

  predicate Evolves(g: Grid, h: Grid) {
    && SameShape(g, h)
    && forall r, j {:trigger Follows(g[r][j], h[r][j])} | 0 <= r < |g| && 0 <= j < |g[r]| :: Follows(g[r][j], h[r][j])
  }

  lemma EvolvesTrans(g: Grid, h: Grid, k: Grid)
    requires Evolves(g, h) && Evolves(h, k)
    ensures Evolves(g, k)
  {
    forall r, j | 0 <= r < |g| && 0 <= j < |g[r]| ensures Follows(g[r][j], k[r][j]) {
      assert Follows(g[r][j], h[r][j]) && Follows(h[r][j], k[r][j]);
    }
  }

  /** What offset propagation may do to a word: it either keeps the word or
      lowers its hops and gives it an offset of at least one word and at most
      `maxOffset`, leaving pointer and back-reference alone. */
  predicate OffsetFollows(a: Cell, b: Cell, maxOffset: u32) {
    && b.address == a.address && b.value == a.value && b.ptr == a.ptr && b.rev == a.rev
    && b.hops <= a.hops
    && (b != a ==> Live(b) && b.hops < a.hops && WORD <= b.offset <= maxOffset)
  }

  predicate OffsetEvolves(g: Grid, h: Grid, maxOffset: u32) {
    && SameShape(g, h)
    && forall r, j {:trigger OffsetFollows(g[r][j], h[r][j], maxOffset)} | 0 <= r < |g| && 0 <= j < |g[r]| ::
         OffsetFollows(g[r][j], h[r][j], maxOffset)
  }

  lemma OffsetEvolvesTrans(g: Grid, h: Grid, k: Grid, maxOffset: u32)
    requires OffsetEvolves(g, h, maxOffset) && OffsetEvolves(h, k, maxOffset)
    ensures OffsetEvolves(g, k, maxOffset)
  {
    forall r, j | 0 <= r < |g| && 0 <= j < |g[r]| ensures OffsetFollows(g[r][j], k[r][j], maxOffset) {
      assert OffsetFollows(g[r][j], h[r][j], maxOffset) && OffsetFollows(h[r][j], k[r][j], maxOffset);
    }
  }

  lemma OffsetEvolvesIsEvolves(g: Grid, h: Grid, maxOffset: u32)
    requires OffsetEvolves(g, h, maxOffset)
    ensures Evolves(g, h)
  {
    forall r, j | 0 <= r < |g| && 0 <= j < |g[r]| ensures Follows(g[r][j], h[r][j]) {
      assert OffsetFollows(g[r][j], h[r][j], maxOffset);
    }
  }

  // ---------------------------------------------------------------------
  // propagateoffsets
  // ---------------------------------------------------------------------

  /** The label word `j + 1` takes from word `j`. */
  function OffsetLabel(g: Grid, r: nat, j: nat): Cell
    requires r < |g| && j + 1 < |g[r]| && g[r][j].offset as int + WORD < TWO_32
  {
    g[r][j + 1].(hops := g[r][j].hops, offset := g[r][j].offset + WORD)
  }

  /** The labelling after word `j + 1` of region `r` took its label from word `j`. */
  function OffsetRelaxed(g: Grid, r: nat, j: nat): Grid
    requires r < |g| && j + 1 < |g[r]| && g[r][j].offset as int + WORD < TWO_32
  {
    Set(g, Ref(r, j + 1), OffsetLabel(g, r, j))
  }

  /** Preconditions under which propagateoffsets relaxes word `j + 1` from word `j`. */
  predicate OffsetRelaxes(g: Grid, r: nat, j: nat, maxOffset: u32) {
    && Wf(g) && r < |g| && j + 1 < |g[r]|
    && Live(g[r][j]) && g[r][j].offset as int + WORD <= maxOffset as int
    && g[r][j + 1].hops > g[r][j].hops
  }

  lemma OffsetRelaxedMonotone(g: Grid, r: nat, j: nat, maxOffset: u32, s: Ref)
    requires OffsetRelaxes(g, r, j, maxOffset) && ValidRef(g, s)
    ensures ValidRef(OffsetRelaxed(g, r, j), s)
    ensures Get(OffsetRelaxed(g, r, j), s).hops <= Get(g, s).hops
    ensures Get(OffsetRelaxed(g, r, j), s).ptr == Get(g, s).ptr
  {
  }

  /** The relaxed word itself: its run-origin is that of word `j`. */
  lemma OffsetTargetOk(g: Grid, r: nat, j: nat, maxOffset: u32)
    requires OffsetRelaxes(g, r, j, maxOffset)
    ensures CellOk(OffsetRelaxed(g, r, j), r, j + 1)
  {
    var h: Grid := OffsetRelaxed(g, r, j);
    var c := g[r][j];
    assert CellOk(g, r, j) && CellOk(g, r, j + 1);
    var x: Cell := h[r][j + 1];
    var oi := j - c.offset / WORD;
    assert x.offset / WORD == c.offset / WORD + 1;
    assert h[r][j + 1 - x.offset / WORD] == g[r][oi];
    var o := g[r][oi];
    if o.hops != 0 {
      OffsetRelaxedMonotone(g, r, j, maxOffset, o.rev.value);
    }
    assert RunOk(h, r, j + 1);
    if x.rev.Some? {
      OffsetRelaxedMonotone(g, r, j, maxOffset, x.rev.value);
    }
    assert LinkOk(h, r, j + 1);
  }

  /** Every other word keeps its label; its origin or back-reference may have
      fewer hops than before, which keeps its constraints true. */
  lemma OffsetOtherOk(g: Grid, r: nat, j: nat, maxOffset: u32, r': nat, j': nat)
    requires OffsetRelaxes(g, r, j, maxOffset)
    requires r' < |g| && j' < |g[r']| && (r', j') != (r, j + 1)
    ensures CellOk(OffsetRelaxed(g, r, j), r', j')
  {
    var h: Grid := OffsetRelaxed(g, r, j);
    assert CellOk(g, r', j');
    assert CellOk(g, r, j + 1);
    assert h[r'][0] == g[r'][0];
    var x: Cell := h[r'][j'];
    assert x == Get(h, Ref(r', j')) == g[r'][j'];
    if x.rev.Some? {
      OffsetRelaxedMonotone(g, r, j, maxOffset, x.rev.value);
      if x.rev.value != Ref(r, j + 1) {
        assert Get(h, x.rev.value) == Get(g, x.rev.value);
      }
    }
    assert LinkOk(h, r', j');
    if Live(x) {
      var oi := j' - x.offset / WORD;
      var o := h[r'][oi];
      if r' == r && oi == j + 1 {
        assert g[r][j + 1].hops != 0;
        OffsetRelaxedMonotone(g, r, j, maxOffset, o.rev.value);
      } else {
        assert o == Get(h, Ref(r', oi)) == g[r'][oi];
        if o.hops != 0 {
          OffsetRelaxedMonotone(g, r, j, maxOffset, o.rev.value);
        }
      }
    }
    assert RunOk(h, r', j');
  }

  lemma OffsetStepKeepsWf(g: Grid, r: nat, j: nat, maxOffset: u32)
    requires OffsetRelaxes(g, r, j, maxOffset)
    ensures Wf(OffsetRelaxed(g, r, j))
  {
    var h: Grid := OffsetRelaxed(g, r, j);
    forall r', j' | 0 <= r' < |h| && 0 <= j' < |h[r']| ensures CellOk(h, r', j') {
      if (r', j') == (r, j + 1) {
        OffsetTargetOk(g, r, j, maxOffset);
      } else {
        OffsetOtherOk(g, r, j, maxOffset, r', j');
      }
    }
  }

  /** One iteration of the inner loop of propagateoffsets: word `j` of region
      `r` passes its label, one word further on, to word `j + 1`. */
  function OffsetStep(g: Grid, r: nat, j: nat, maxOffset: u32): (h: Grid)
    requires Wf(g) && r < |g| && j + 1 < |g[r]|
    ensures Wf(h) && |h| == |g| && |h[r]| == |g[r]|
  {
    var c := g[r][j];
    if c.hops >= FROZEN then g
    else if c.offset as int + WORD > maxOffset as int then g
    else if g[r][j + 1].hops > c.hops then
      OffsetStepKeepsWf(g, r, j, maxOffset);
      OffsetRelaxed(g, r, j)
    else g
  }

  /** What one iteration of propagateoffsets does: nothing, unless word `j`
      is live, its offset can grow by a word within `maxOffset`, and word
      `j + 1` has more hops; then word `j + 1` takes the hops of word `j` and
      its offset plus one word, and no other word changes. */
  lemma OffsetStepSpec(g: Grid, r: nat, j: nat, maxOffset: u32)
    requires Wf(g) && r < |g| && j + 1 < |g[r]|
    ensures var h := OffsetStep(g, r, j, maxOffset);
      && OffsetEvolves(g, h, maxOffset)
      && (forall q | ValidRef(g, q) && q != Ref(r, j + 1) :: Get(h, q) == Get(g, q))
      && (OffsetRelaxes(g, r, j, maxOffset) ==>
            h[r][j + 1] == g[r][j + 1].(hops := g[r][j].hops, offset := g[r][j].offset + WORD))
      && (!OffsetRelaxes(g, r, j, maxOffset) ==> h == g)
  {
    var h := OffsetStep(g, r, j, maxOffset);
    if OffsetRelaxes(g, r, j, maxOffset) {
      assert OffsetFollows(g[r][j + 1], h[r][j + 1], maxOffset);
      assert forall r', j' | 0 <= r' < |g| && 0 <= j' < |g[r']| && (r', j') != (r, j + 1) ::
        h[r'][j'] == Get(h, Ref(r', j')) == Get(g, Ref(r', j'));
    }
  }

  /** The inner loop of propagateoffsets after `j` iterations. */
  function OffsetRow(g: Grid, r: nat, j: nat, maxOffset: u32): (h: Grid)
    requires Wf(g) && r < |g| && j < |g[r]|
    ensures Wf(h) && |h| == |g| && |h[r]| == |g[r]|
    decreases j
  {
    if j == 0 then g
    else OffsetStep(OffsetRow(g, r, j - 1, maxOffset), r, j - 1, maxOffset)
  }

  /** propagateoffsets after its first `i` regions. */
  function OffsetRows(g: Grid, i: nat, maxOffset: u32): (h: Grid)
    requires Wf(g) && i <= |g|
    ensures Wf(h) && |h| == |g|
    decreases i
  {
    if i == 0 then g
    else
      var h0 := OffsetRows(g, i - 1, maxOffset);
      OffsetRow(h0, i - 1, |h0[i - 1]| - 1, maxOffset)
  }

  /** propagateoffsets. */
  function OffsetPass(g: Grid, maxOffset: u32): (h: Grid)
    requires Wf(g)
    ensures Wf(h)
  {
    OffsetRows(g, |g|, maxOffset)
  }

  lemma {:induction false} OffsetRowEvolves(g: Grid, r: nat, j: nat, maxOffset: u32)
    requires Wf(g) && r < |g| && j < |g[r]|
    ensures OffsetEvolves(g, OffsetRow(g, r, j, maxOffset), maxOffset)
    decreases j
  {
    if j == 0 {
      assert OffsetEvolves(g, g, maxOffset);
    } else {
      var h0 := OffsetRow(g, r, j - 1, maxOffset);
      OffsetRowEvolves(g, r, j - 1, maxOffset);
      OffsetStepSpec(h0, r, j - 1, maxOffset);
      OffsetEvolvesTrans(g, h0, OffsetStep(h0, r, j - 1, maxOffset), maxOffset);
    }
  }

  lemma {:induction false} OffsetRowsEvolves(g: Grid, i: nat, maxOffset: u32)
    requires Wf(g) && i <= |g|
    ensures OffsetEvolves(g, OffsetRows(g, i, maxOffset), maxOffset)
    decreases i
  {
    if i == 0 {
      assert OffsetEvolves(g, g, maxOffset);
    } else {
      var h0 := OffsetRows(g, i - 1, maxOffset);
      OffsetRowsEvolves(g, i - 1, maxOffset);
      OffsetRowEvolves(h0, i - 1, |h0[i - 1]| - 1, maxOffset);
      OffsetEvolvesTrans(g, h0, OffsetRow(h0, i - 1, |h0[i - 1]| - 1, maxOffset), maxOffset);
    }
  }

  /** propagateoffsets only ever lowers hops, by giving a word an offset of
      one word up to `maxOffset`; addresses, values, pointers and
      back-references stay as they are. */
  lemma OffsetPassEvolves(g: Grid, maxOffset: u32)
    requires Wf(g)
    ensures OffsetEvolves(g, OffsetPass(g, maxOffset), maxOffset)
  {
    OffsetRowsEvolves(g, |g|, maxOffset);
  }

  // ---------------------------------------------------------------------
  // propagatepointers
  // ---------------------------------------------------------------------

  /** Preconditions under which propagatepointers relaxes the target of word `p`. */
  predicate PtrRelaxes(g: Grid, p: Ref) {
    && Wf(g) && ValidRef(g, p)
    && Live(Get(g, p)) && Get(g, p).ptr.Some?
    && ValidRef(g, Get(g, p).ptr.value)
    && Get(g, Get(g, p).ptr.value).hops > Get(g, p).hops + 1
  }

  /** The label the target of `p` takes: one hop more, offset 0, back-reference `p`. */
  function PtrLabel(g: Grid, p: Ref): Cell
    requires PtrRelaxes(g, p)
  {
    Get(g, Get(g, p).ptr.value).(hops := Get(g, p).hops + 1, offset := 0, rev := Some(p))
  }

  function PtrRelaxed(g: Grid, p: Ref): Grid
    requires PtrRelaxes(g, p)
  {
    Set(g, Get(g, p).ptr.value, PtrLabel(g, p))
  }

  /** The write `hops = 0xfffffffd` after a goal has been printed. */
  function MarkReported(g: Grid, t: Ref): Grid
    requires ValidRef(g, t)
  {
    Set(g, t, Get(g, t).(hops := GOAL_REPORTED))
  }

  lemma PtrRelaxedMonotone(g: Grid, p: Ref, s: Ref)
    requires PtrRelaxes(g, p) && ValidRef(g, s)
    ensures ValidRef(PtrRelaxed(g, p), s)
    ensures Get(PtrRelaxed(g, p), s).hops <= Get(g, s).hops
    ensures Get(PtrRelaxed(g, p), s).ptr == Get(g, s).ptr
  {
  }

  /** The relaxed target starts a new run of its own. */
  lemma PtrTargetOk(g: Grid, p: Ref)
    requires PtrRelaxes(g, p)
    ensures CellOk(PtrRelaxed(g, p), Get(g, p).ptr.value.region, Get(g, p).ptr.value.index)
  {
    var h: Grid := PtrRelaxed(g, p);
    var t := Get(g, p).ptr.value;
    assert p != t;
    assert CellOk(g, t.region, t.index);
    assert CellOk(g, p.region, p.index);
    assert h[t.region][0].address == g[t.region][0].address;
    assert Get(h, p) == Get(g, p);
    assert LinkOk(h, t.region, t.index);
    assert RunOk(h, t.region, t.index);
  }

  /** Every other word keeps its label; a word whose run starts at the target
      had at least the target's old hops, so still more than the new source's. */
  lemma PtrOtherOk(g: Grid, p: Ref, r': nat, j': nat)
    requires PtrRelaxes(g, p)
    requires r' < |g| && j' < |g[r']| && Ref(r', j') != Get(g, p).ptr.value
    ensures CellOk(PtrRelaxed(g, p), r', j')
  {
    var h: Grid := PtrRelaxed(g, p);
    var t := Get(g, p).ptr.value;
    assert p != t;
    assert CellOk(g, r', j');
    assert CellOk(g, t.region, t.index);
    assert h[r'][0].address == g[r'][0].address;
    var x: Cell := h[r'][j'];
    assert x == Get(h, Ref(r', j')) == g[r'][j'];
    if x.rev.Some? {
      PtrRelaxedMonotone(g, p, x.rev.value);
    }
    assert LinkOk(h, r', j');
    if Live(x) {
      var oi := j' - x.offset / WORD;
      var o := h[r'][oi];
      if Ref(r', oi) == t {
        assert Get(h, p) == Get(g, p);
      } else {
        assert o == Get(h, Ref(r', oi)) == g[r'][oi];
        if o.hops != 0 {
          PtrRelaxedMonotone(g, p, o.rev.value);
        }
      }
    }
    assert RunOk(h, r', j');
  }

  lemma PtrRelaxKeepsWf(g: Grid, p: Ref)
    requires PtrRelaxes(g, p)
    ensures Wf(PtrRelaxed(g, p))
  {
    var h := PtrRelaxed(g, p);
    var t := Get(g, p).ptr.value;
    forall r', j' | 0 <= r' < |h| && 0 <= j' < |h[r']| ensures CellOk(h, r', j') {
      if Ref(r', j') == t {
        PtrTargetOk(g, p);
      } else {
        PtrOtherOk(g, p, r', j');
      }
    }
  }

  /** A word other than a just-reached goal neither starts its run at the goal
      nor has it as back-reference: before the relaxation the goal was
      pending, and no constraint of the invariant can mention a pending word. */
  lemma ReportOtherOk(g: Grid, p: Ref, r': nat, j': nat)
    requires PtrRelaxes(g, p) && Get(g, Get(g, p).ptr.value).hops == GOAL_PENDING
    requires r' < |g| && j' < |g[r']| && Ref(r', j') != Get(g, p).ptr.value
    ensures Wf(PtrRelaxed(g, p))
    ensures CellOk(MarkReported(PtrRelaxed(g, p), Get(g, p).ptr.value), r', j')
  {
    PtrRelaxKeepsWf(g, p);
    var t := Get(g, p).ptr.value;
    var h: Grid := MarkReported(PtrRelaxed(g, p), t);
    assert CellOk(g, r', j');
    assert h[r'][0].address == g[r'][0].address;
    var x: Cell := h[r'][j'];
    assert x == Get(h, Ref(r', j')) == g[r'][j'];
    if x.rev.Some? {
      assert x.rev.value != t;
      assert Get(h, x.rev.value) == Get(g, x.rev.value);
    }
    assert LinkOk(h, r', j');
    if Live(x) {
      var oi := j' - x.offset / WORD;
      assert Ref(r', oi) != t;
      var o := h[r'][oi];
      assert o == Get(h, Ref(r', oi)) == g[r'][oi];
      if o.hops != 0 {
        assert o.rev.value != t;
        assert Get(h, o.rev.value) == Get(g, o.rev.value);
      }
    }
    assert RunOk(h, r', j');
  }

  lemma ReportKeepsWf(g: Grid, p: Ref)
    requires PtrRelaxes(g, p) && Get(g, Get(g, p).ptr.value).hops == GOAL_PENDING
    ensures Wf(PtrRelaxed(g, p))
    ensures Wf(MarkReported(PtrRelaxed(g, p), Get(g, p).ptr.value))
  {
    PtrRelaxKeepsWf(g, p);
    var t := Get(g, p).ptr.value;
    var h := MarkReported(PtrRelaxed(g, p), t);
    forall r', j' | 0 <= r' < |h| && 0 <= j' < |h[r']| ensures CellOk(h, r', j') {
      if Ref(r', j') == t {
        assert p != t;
        assert CellOk(g, p.region, p.index);
        assert CellOk(g, t.region, t.index);
        assert h[t.region][0].address == g[t.region][0].address;
        assert Get(h, p) == Get(g, p);
        assert LinkOk(h, r', j');
      } else {
        ReportOtherOk(g, p, r', j');
      }
    }
  }

  /** A report of a goal word that was pending in `g` and is no longer pending
      in `h`, with a well-formed chain ending at that word. */
  predicate ReportOk(g: Grid, h: Grid, rep: Report) {
    && ValidRef(g, rep.goal) && ValidRef(h, rep.goal)
    && Get(g, rep.goal).hops == GOAL_PENDING
    && Get(h, rep.goal).hops != GOAL_PENDING
    && PathOk(rep.path)
    && rep.path[|rep.path| - 1].address2 == Get(g, rep.goal).address
  }

  /** Reports of the change from `g` to `h`: each one sound, no goal twice. */
  predicate ReportsOk(g: Grid, h: Grid, reps: seq<Report>) {
    && (forall i | 0 <= i < |reps| :: ReportOk(g, h, reps[i]))
    && (forall i, k | 0 <= i < k < |reps| :: reps[i].goal != reps[k].goal)
  }

  /** Reports of consecutive stretches of a search never repeat a goal: a
      goal reported in the first is no longer pending in the second. */
  lemma ReportsOkTrans(g: Grid, h: Grid, k: Grid, a: seq<Report>, b: seq<Report>)
    requires Evolves(g, h) && Evolves(h, k)
    requires ReportsOk(g, h, a) && ReportsOk(h, k, b)
    ensures ReportsOk(g, k, a + b)
  {
    var ab := a + b;
    forall i | 0 <= i < |ab| ensures ReportOk(g, k, ab[i]) {
      if i < |a| {
        var t := a[i].goal;
        assert ReportOk(g, h, a[i]);
        assert Follows(Get(h, t), Get(k, t));
      } else {
        var t := b[i - |a|].goal;
        assert ReportOk(h, k, b[i - |a|]);
        assert Follows(Get(g, t), Get(h, t));
      }
    }
    forall i, m | 0 <= i < m < |ab| ensures ab[i].goal != ab[m].goal {
      if i < |a| && |a| <= m {
        assert ReportOk(g, h, a[i]) && ReportOk(h, k, b[m - |a|]);
      }
    }
  }

  /** A stretch of a search that took the labelling `g` to `s.grid`: labels
      only improved, and the reports are sound and name distinct goals. */
  predicate ScanOk(g: Grid, s: Scan) {
    var ok := Evolves(g, s.grid) && ReportsOk(g, s.grid, s.reports);
    ok
  }

  lemma ScanOkNone(g: Grid)
    ensures ScanOk(g, Scan(g, []))
  {
    assert Evolves(g, g);
  }

  /** Two consecutive stretches of a search make one. */
  lemma ScanOkTrans(g: Grid, s0: Scan, s1: Scan)
    requires ScanOk(g, s0) && ScanOk(s0.grid, s1)
    ensures ScanOk(g, Scan(s1.grid, s0.reports + s1.reports))
  {
    EvolvesTrans(g, s0.grid, s1.grid);
    ReportsOkTrans(g, s0.grid, s1.grid, s0.reports, s1.reports);
  }

  /** One iteration of the inner loop of propagatepointers, for source word `p`. */
  function PtrStep(g: Grid, p: Ref): (s: Scan)
    requires Wf(g) && ValidRef(g, p)
    ensures Wf(s.grid) && |s.grid| == |g| && |s.grid[p.region]| == |g[p.region]|
    ensures |s.reports| <= 1
  {
    var c := Get(g, p);
    if c.ptr.None? || c.hops >= FROZEN then Scan(g, [])
    else
      assert CellOk(g, p.region, p.index);
      var t := c.ptr.value;
      if Get(g, t).hops > c.hops + 1 then
        PtrRelaxKeepsWf(g, p);
        var h := PtrRelaxed(g, p);
        if Get(g, t).hops == GOAL_PENDING then
          ReportKeepsWf(g, p);
          Scan(MarkReported(h, t), [Report(t, Walk(h, t, true))])
        else Scan(h, [])
      else Scan(g, [])
  }

  /** The inner loop of propagatepointers over region `r` after `j` iterations;
      the reports are those emitted by these iterations. */
  function PtrRow(g: Grid, r: nat, j: nat): (s: Scan)
    requires Wf(g) && r < |g| && j <= |g[r]|
    ensures Wf(s.grid) && |s.grid| == |g| && |s.grid[r]| == |g[r]|
    decreases j
  {
    if j == 0 then Scan(g, [])
    else
      var s0 := PtrRow(g, r, j - 1);
      var st := PtrStep(s0.grid, Ref(r, j - 1));
      Scan(st.grid, s0.reports + st.reports)
  }

  /** propagatepointers after its first `i` regions. */
  function PtrRows(g: Grid, i: nat): (s: Scan)
    requires Wf(g) && i <= |g|
    ensures Wf(s.grid) && |s.grid| == |g|
    decreases i
  {
    if i == 0 then Scan(g, [])
    else
      var s0 := PtrRows(g, i - 1);
      var s1 := PtrRow(s0.grid, i - 1, |s0.grid[i - 1]|);
      Scan(s1.grid, s0.reports + s1.reports)
  }

  /** propagatepointers. */
  function PtrPass(g: Grid): (s: Scan)
    requires Wf(g)
    ensures Wf(s.grid) && |s.grid| == |g|
  {
    PtrRows(g, |g|)
  }

  /** One iteration of propagatepointers only lowers hops (or turns a pending
      goal into a reported one), and what it reports is a sound chain to a
      goal that was pending. */
  lemma PtrStepOk(g: Grid, p: Ref)
    requires Wf(g) && ValidRef(g, p)
    ensures ScanOk(g, PtrStep(g, p))
  {
    var c := Get(g, p);
    if c.ptr.None? || c.hops >= FROZEN {
      ScanOkNone(g);
    } else {
      assert CellOk(g, p.region, p.index);
      var t := c.ptr.value;
      if Get(g, t).hops > c.hops + 1 {
        if Get(g, t).hops == GOAL_PENDING {
          PtrReportOk(g, p);
        } else {
          PtrRelaxOk(g, p);
        }
      } else {
        ScanOkNone(g);
      }
    }
  }

  /** A relaxation that reaches no goal lowers one word's hops. */
  lemma PtrRelaxOk(g: Grid, p: Ref)
    requires PtrRelaxes(g, p)
    ensures ScanOk(g, Scan(PtrRelaxed(g, p), []))
  {
    var t := Get(g, p).ptr.value;
    var h := PtrRelaxed(g, p);
    assert Follows(Get(g, t), Get(h, t));
    assert Evolves(g, h);
  }

  /** A relaxation that reaches a pending goal reports a sound chain to it. */
  lemma PtrReportOk(g: Grid, p: Ref)
    requires PtrRelaxes(g, p) && Get(g, Get(g, p).ptr.value).hops == GOAL_PENDING
    ensures Wf(PtrRelaxed(g, p))
    ensures var t := Get(g, p).ptr.value;
      ScanOk(g, Scan(MarkReported(PtrRelaxed(g, p), t), [Report(t, Walk(PtrRelaxed(g, p), t, true))]))
  {
    ReportKeepsWf(g, p);
    var t := Get(g, p).ptr.value;
    var h := PtrRelaxed(g, p);
    var path := Walk(h, t, true);
    WalkSound(h, t, true);
    var h2 := MarkReported(h, t);
    assert Follows(Get(g, t), Get(h2, t));
    assert Evolves(g, h2);
    assert ReportOk(g, h2, Report(t, path));
  }

  lemma {:induction false} PtrRowOk(g: Grid, r: nat, j: nat)
    requires Wf(g) && r < |g| && j <= |g[r]|
    ensures ScanOk(g, PtrRow(g, r, j))
    decreases j
  {
    if j == 0 {
      ScanOkNone(g);
    } else {
      PtrRowOk(g, r, j - 1);
      PtrStepAfter(g, PtrRow(g, r, j - 1), Ref(r, j - 1));
    }
  }

  lemma PtrStepAfter(g: Grid, s0: Scan, p: Ref)
    requires Wf(s0.grid) && ValidRef(s0.grid, p) && ScanOk(g, s0)
    ensures ScanOk(g, Scan(PtrStep(s0.grid, p).grid, s0.reports + PtrStep(s0.grid, p).reports))
  {
    PtrStepOk(s0.grid, p);
    ScanOkTrans(g, s0, PtrStep(s0.grid, p));
  }

  lemma {:induction false} PtrRowsOk(g: Grid, i: nat)
    requires Wf(g) && i <= |g|
    ensures ScanOk(g, PtrRows(g, i))
    decreases i
  {
    if i == 0 {
      ScanOkNone(g);
    } else {
      PtrRowsOk(g, i - 1);
      PtrRowsStep(g, i);
    }
  }

  /** The outer loop of propagatepointers keeps ScanOk across region `i - 1`. */
  lemma PtrRowsStep(g: Grid, i: nat)
    requires Wf(g) && 0 < i <= |g|
    ensures ScanOk(g, PtrRows(g, i - 1)) ==> ScanOk(g, PtrRows(g, i))
  {
    var s0 := PtrRows(g, i - 1);
    var s1 := PtrRow(s0.grid, i - 1, |s0.grid[i - 1]|);
    assert PtrRows(g, i) == Scan(s1.grid, s0.reports + s1.reports);
    if ScanOk(g, s0) {
      PtrRowOk(s0.grid, i - 1, |s0.grid[i - 1]|);
      ScanOkTrans(g, s0, s1);
    }
  }

  /** propagatepointers only lowers hops (or turns pending goals into
      reported ones); every chain it prints ends at a goal word that was
      pending before the pass, and no goal is printed twice. */
  lemma PtrPassOk(g: Grid)
    requires Wf(g)
    ensures ScanOk(g, PtrPass(g))
  {
    PtrRowsOk(g, |g|);
  }

  /** What one iteration of propagatepointers does: a pointer word that is
      live relaxes its target when that improves the target's hops, and the
      iteration reports exactly when the target was a pending goal; no other
      word changes. */
  lemma PtrStepSpec(g: Grid, p: Ref)
    requires Wf(g) && ValidRef(g, p)
    requires Get(g, p).ptr.Some? ==> ValidRef(g, Get(g, p).ptr.value)
    ensures var c := Get(g, p); var s := PtrStep(g, p);
      && (c.ptr.None? || !Live(c) || Get(g, c.ptr.value).hops <= c.hops + 1 ==> s == Scan(g, []))
      && (|s.reports| == 1 <==> Live(c) && c.ptr.Some? && Get(g, c.ptr.value).hops == GOAL_PENDING)
      && (Live(c) && c.ptr.Some? && Get(g, c.ptr.value).hops > c.hops + 1 ==>
            var t := c.ptr.value;
            && (forall q | ValidRef(g, q) && q != t :: Get(s.grid, q) == Get(g, q))
            && Get(s.grid, t).rev == Some(p) && Get(s.grid, t).offset == 0
            && Get(s.grid, t).hops == (if Get(g, t).hops == GOAL_PENDING then GOAL_REPORTED else c.hops + 1))
  {
    var c := Get(g, p);
    if Live(c) && c.ptr.Some? {
      assert CellOk(g, p.region, p.index);
      var t := c.ptr.value;
      if Get(g, t).hops > c.hops + 1 {
        var h := PtrRelaxed(g, p);
        if Get(g, t).hops == GOAL_PENDING {
          var h2 := MarkReported(h, t);
          assert forall q | ValidRef(g, q) && q != t :: Get(h2, q) == Get(h, q) == Get(g, q);
        }
      }
    }
  }

  /** A goal that has been reported (0xfffffffd) can still be reached again
      by a shorter chain: its label is then overwritten like any other word's
      and nothing is reported for it a second time. */
  lemma ReportedGoalRelaxedSilently(g: Grid, p: Ref)
    requires Wf(g) && ValidRef(g, p) && Live(Get(g, p)) && Get(g, p).ptr.Some?
    requires ValidRef(g, Get(g, p).ptr.value)
    requires Get(g, Get(g, p).ptr.value).hops == GOAL_REPORTED
    ensures PtrStep(g, p).reports == []
    ensures Get(PtrStep(g, p).grid, Get(g, p).ptr.value).hops == Get(g, p).hops + 1
  {
    PtrStepSpec(g, p);
  }

  /** One round of the main loop: propagateoffsets, then propagatepointers. */
  function Round(g: Grid, maxOffset: u32): (s: Scan)
    requires Wf(g)
    ensures Wf(s.grid) && |s.grid| == |g|
  {
    PtrPass(OffsetPass(g, maxOffset))
  }

  /** `n` rounds of the main loop, with all reports in order. */
  function Rounds(g: Grid, n: nat, maxOffset: u32): (s: Scan)
    requires Wf(g)
    ensures Wf(s.grid)
    decreases n
  {
    if n == 0 then Scan(g, [])
    else
      var s0 := Rounds(g, n - 1, maxOffset);
      var s1 := Round(s0.grid, maxOffset);
      Scan(s1.grid, s0.reports + s1.reports)
  }

  lemma RoundOk(g: Grid, maxOffset: u32)
    requires Wf(g)
    ensures ScanOk(g, Round(g, maxOffset))
  {
    var h := OffsetPass(g, maxOffset);
    OffsetPassEvolves(g, maxOffset);
    OffsetEvolvesIsEvolves(g, h, maxOffset);
    var s := PtrPass(h);
    PtrPassOk(h);
    EvolvesTrans(g, h, s.grid);
    forall i | 0 <= i < |s.reports| ensures ReportOk(g, s.grid, s.reports[i]) {
      var t := s.reports[i].goal;
      assert ReportOk(h, s.grid, s.reports[i]);
      assert OffsetFollows(Get(g, t), Get(h, t), maxOffset);
    }
  }

  /** The searches of `n` rounds: labels only ever improve, every printed
      chain is sound and ends at a goal that was pending, and no goal is
      printed twice. */
  lemma {:induction false} RoundsOk(g: Grid, n: nat, maxOffset: u32)
    requires Wf(g)
    ensures ScanOk(g, Rounds(g, n, maxOffset))
    decreases n
  {
    if n == 0 {
      ScanOkNone(g);
    } else {
      RoundsOk(g, n - 1, maxOffset);
      RoundAfter(g, Rounds(g, n - 1, maxOffset), maxOffset);
    }
  }

  lemma RoundAfter(g: Grid, s0: Scan, maxOffset: u32)
    requires Wf(s0.grid) && ScanOk(g, s0)
    ensures ScanOk(g, Scan(Round(s0.grid, maxOffset).grid, s0.reports + Round(s0.grid, maxOffset).reports))
  {
    RoundOk(s0.grid, maxOffset);
    ScanOkTrans(g, s0, Round(s0.grid, maxOffset));
  }

  /** The number of rounds of `for (unsigned i = 1; i < maxhops; i++)`. */
  function RoundCount(maxHops: u32): nat {
    if maxHops == 0 then 0 else maxHops - 1
  }

  // ---------------------------------------------------------------------
  // markaddressrange
  // ---------------------------------------------------------------------

  /** The loop of markaddressrange visits the addresses `lo + 8t` below `hi`
      and labels the word whose slot holds each one. Of the addresses
      congruent to `lo` modulo 8, this is the one in the slot starting at `s`. */
  function SlotHit(s: nat, lo: nat): (a: nat)
    ensures s <= a < s + WORD
    ensures (a - lo) % WORD == 0
  {
    s + (lo - s) % WORD
  }

  /** `a` is one of the addresses `lo + 8t` that the loop of markaddressrange
      steps through. */
  predicate Visited(lo: nat, a: int) {
    lo <= a && (a - lo) % WORD == 0
  }

  /** markaddressrange(lo, hi, ...) returns: the range is empty, or the
      `size_t` addresses `lo + 8t` reach `hi` before they would wrap past
      `2^64 - 8 + lo % 8`, the last of them below `2^64`. */
  predicate MarkEnds(lo: nat, hi: nat) {
    lo >= hi || hi <= TWO_64 - WORD + lo % WORD
  }

  /** On a range that returns, no address the loop reaches wraps: each one
      below `hi`, and the one after it, is below `2^64`. */
  lemma MarkNoWrap(lo: nat, hi: nat, a: nat)
    requires lo < TWO_64 && MarkEnds(lo, hi) && Visited(lo, a) && a < hi + WORD
    ensures a < TWO_64
  {
    var r := lo % WORD;
    var m := lo / WORD;
    var k := (a - lo) / WORD;
    assert lo == WORD * m + r && a == WORD * (m + k) + r;
    assert WORD * (m + k) < TWO_64;
    assert m + k < TWO_64 / WORD;
  }

  /** The address the C loop holds after `t` steps of `address += 8` on a
      64-bit `size_t`. */
  function WrappedAddress(lo: nat, t: nat): (a: nat)
    ensures a < TWO_64
  {
    (lo + WORD * t) % TWO_64
  }

  /** On a non-empty range that does not satisfy MarkEnds, every address the
      C loop ever holds is below `hi`: neither the outer test `address <
      maxaddress` nor the inner `address >= maxaddress` ever ends the loop,
      and after the last address below `2^64` it wraps around to `lo % 8`
      and passes over every region again. */
  lemma MarkRangeHangs(lo: nat, hi: nat, t: nat)
    requires lo < hi && !MarkEnds(lo, hi)
    ensures WrappedAddress(lo, t) < hi
  {
    var x := WrappedAddress(lo, t);
    var q := (lo + WORD * t) / TWO_64;
    assert lo + WORD * t == TWO_64 * q + x;
    assert x == lo + WORD * (t - q * (TWO_64 / WORD));
    SameResidue(lo, t - q * (TWO_64 / WORD));
    assert x % WORD == lo % WORD;
    assert x == WORD * (x / WORD) + lo % WORD;
    assert x / WORD < TWO_64 / WORD;
  }

  /** Adding a multiple of 8 keeps the residue modulo 8. */
  lemma SameResidue(a: int, z: int)
    ensures (a + WORD * z) % WORD == a % WORD
  {
    var r := a % WORD;
    assert a == WORD * (a / WORD) + r;
    assert a + WORD * z == WORD * (a / WORD + z) + r;
  }

  /** The start range `0xffffffffffffff00` to `0xffffffffffffffff`: its end
      lies above `0xfffffffffffffff8`, the last address below `2^64` that the
      loop steps through, so markaddressrange never returns. */
  lemma TopRangeHangs(t: nat)
    ensures !MarkEnds(0xffff_ffff_ffff_ff00, 0xffff_ffff_ffff_ffff)
    ensures WrappedAddress(0xffff_ffff_ffff_ff00, t) < 0xffff_ffff_ffff_ffff
  {
    MarkRangeHangs(0xffff_ffff_ffff_ff00, 0xffff_ffff_ffff_ffff, t);
  }

  /** The word at address `s` is labelled by `markaddressrange(lo, hi, ...)`. */
  predicate Hit(s: nat, lo: nat, hi: nat) {
    lo <= SlotHit(s, lo) < hi
  }

  function MarkCell(c: Cell, lo: nat, hi: nat, hopsValue: u32, offsetValue: u32): Cell {
    if Hit(c.address, lo, hi) then c.(hops := hopsValue, offset := offsetValue) else c
  }

  /** The labelling after `markaddressrange(lo, hi, hopsValue, offsetValue)`. */
  function Mark(g: Grid, lo: nat, hi: nat, hopsValue: u32, offsetValue: u32): (h: Grid)
    ensures SameShape(g, h)
  {
    seq(|g|, r requires 0 <= r < |g| =>
      seq(|g[r]|, j requires 0 <= j < |g[r]| => MarkCell(g[r][j], lo, hi, hopsValue, offsetValue)))
  }

  /** Marking labels exactly the words whose slot holds a visited address,
      and changes nothing in them but hops and offset. */
  lemma MarkGet(g: Grid, lo: nat, hi: nat, hopsValue: u32, offsetValue: u32)
    ensures forall q | ValidRef(g, q) ::
              Get(Mark(g, lo, hi, hopsValue, offsetValue), q) == MarkCell(Get(g, q), lo, hi, hopsValue, offsetValue)
  {
  }

  /** The result of markaddressrange: whether any word was labelled. */
  predicate Touched(g: Grid, lo: nat, hi: nat) {
    exists r, j | 0 <= r < |g| && 0 <= j < |g[r]| :: Hit(g[r][j].address, lo, hi)
  }

  /** A word is labelled exactly when one of the visited addresses lies in
      its slot; nothing but hops and offset changes. */
  lemma HitSpec(s: nat, lo: nat, hi: nat)
    ensures Hit(s, lo, hi) <==> exists t: nat :: lo + WORD * t < hi && s <= lo + WORD * t < s + WORD
  {
    if Hit(s, lo, hi) {
      var t := (SlotHit(s, lo) - lo) / WORD;
      assert lo + WORD * t == SlotHit(s, lo);
    }
    if exists t: nat :: lo + WORD * t < hi && s <= lo + WORD * t < s + WORD {
      var t: nat :| lo + WORD * t < hi && s <= lo + WORD * t < s + WORD;
      var a := lo + WORD * t;
      assert (a - lo) % WORD == 0;
      assert a == SlotHit(s, lo) by {
        var b := SlotHit(s, lo);
        assert (a - b) % WORD == 0;
        assert -(WORD as int) < a - b < WORD;
      }
    }
  }

  /** The visited address in the slot starting at `s`, if any, is `a`. */
  lemma SlotHitAt(s: nat, lo: nat, a: nat)
    requires s <= a < s + WORD && Visited(lo, a)
    ensures SlotHit(s, lo) == a
  {
    var b := SlotHit(s, lo);
    assert (a - b) % WORD == 0 by {
      var k := (a - lo) / WORD;
      var m := (b - lo) / WORD;
      assert a - b == WORD * (k - m);
    }
    assert -(WORD as int) < a - b < WORD;
  }

  /** In a snapshot laid out as `spans`, at most one word's slot holds `a`. */
  lemma SlotOwner(spans: seq<Span>, g: Grid, q: Ref, q': Ref, a: int)
    requires WfSpans(spans) && Shaped(spans, g) && ValidRef(g, q) && ValidRef(g, q')
    requires Get(g, q).address <= a < Get(g, q).address + WORD
    requires Get(g, q').address <= a < Get(g, q').address + WORD
    ensures q == q'
  {
  }

  /** The word whose slot holds `a` lies in a region that contains `a`. */
  lemma SlotInRegion(spans: seq<Span>, g: Grid, q: Ref, a: int)
    requires WfSpans(spans) && Shaped(spans, g) && ValidRef(g, q)
    requires Get(g, q).address <= a < Get(g, q).address + WORD
    ensures InSpan(spans[q.region], a)
  {
  }

  /** In a snapshot laid out as `spans`, findregion and findlocation on the
      address of a word give back that word's region and the word itself, so
      finding a record by its reference or by its address is the same. */
  lemma LocateWord(spans: seq<Span>, g: Grid, q: Ref)
    requires WfSpans(spans) && Shaped(spans, g) && ValidRef(g, q)
    ensures RegionContaining(spans, Get(g, q).address) == Some(q.region)
    ensures LocationOf(spans, Get(g, q).address) == Some(q)
  {
    var a := Get(g, q).address;
    SlotInRegion(spans, g, q, a);
    RegionContainingSpec(spans, a);
    assert (a - spans[q.region].base) / WORD == q.index;
  }

  /** One visit of the marking loop, at an address `a` inside word `q`:
      labelling `q` extends the marking up to the next visited address. */
  lemma MarkStep(spans: seq<Span>, g: Grid, lo: nat, a: nat, b: nat, hopsValue: u32, offsetValue: u32, q: Ref)
    requires WfSpans(spans) && Shaped(spans, g)
    requires Visited(lo, a) && a < b <= a + WORD
    requires ValidRef(g, q) && Get(g, q).address <= a < Get(g, q).address + WORD
    ensures Mark(g, lo, b, hopsValue, offsetValue) ==
              Set(Mark(g, lo, a, hopsValue, offsetValue), q, Get(g, q).(hops := hopsValue, offset := offsetValue))
    ensures Get(Mark(g, lo, a, hopsValue, offsetValue), q) == Get(g, q)
    ensures Touched(g, lo, b)
  {
    var hb := Mark(g, lo, b, hopsValue, offsetValue);
    var ha := Set(Mark(g, lo, a, hopsValue, offsetValue), q, Get(g, q).(hops := hopsValue, offset := offsetValue));
    MarkGet(g, lo, a, hopsValue, offsetValue);
    MarkGet(g, lo, b, hopsValue, offsetValue);
    SlotHitAt(Get(g, q).address, lo, a);
    forall q' | ValidRef(g, q') ensures Get(hb, q') == Get(ha, q') {
      if q' != q {
        var sh := SlotHit(Get(g, q').address, lo);
        if sh == a {
          SlotOwner(spans, g, q, q', a);
        }
      }
    }
    GridExt(hb, ha);
    assert g[q.region][q.index] == Get(g, q);
  }

  /** A visited address that no region holds labels nothing. */
  lemma MarkSkip(spans: seq<Span>, g: Grid, lo: nat, a: nat, b: nat, hopsValue: u32, offsetValue: u32)
    requires WfSpans(spans) && Shaped(spans, g)
    requires Visited(lo, a) && a < b <= a + WORD
    requires RegionContaining(spans, a).None?
    ensures Mark(g, lo, b, hopsValue, offsetValue) == Mark(g, lo, a, hopsValue, offsetValue)
    ensures Touched(g, lo, b) == Touched(g, lo, a)
  {
    var hb := Mark(g, lo, b, hopsValue, offsetValue);
    var ha := Mark(g, lo, a, hopsValue, offsetValue);
    MarkGet(g, lo, a, hopsValue, offsetValue);
    MarkGet(g, lo, b, hopsValue, offsetValue);
    forall q' | ValidRef(g, q') ensures Hit(Get(g, q').address, lo, b) == Hit(Get(g, q').address, lo, a) {
      var sh := SlotHit(Get(g, q').address, lo);
      if sh == a {
        SlotInRegion(spans, g, q', a);
      }
    }
    GridExt(hb, ha);
    forall r, j | 0 <= r < |g| && 0 <= j < |g[r]|
      ensures Hit(g[r][j].address, lo, b) == Hit(g[r][j].address, lo, a)
    {
      assert g[r][j] == Get(g, Ref(r, j));
    }
  }

  /** The visited addresses are closed under steps of whole words. */
  lemma NextVisited(lo: nat, a: nat, n: nat, b: nat)
    requires Visited(lo, a) && b == a + WORD * n
    ensures Visited(lo, b)
  {
    assert b - lo == (a - lo) + WORD * n;
  }

  /** A labelled word witnesses that the range was mapped. */
  lemma TouchedBy(g: Grid, lo: nat, a: nat, hi: nat, q: Ref)
    requires ValidRef(g, q) && Hit(Get(g, q).address, lo, a) && a <= hi
    ensures Touched(g, lo, hi)
  {
    assert Hit(g[q.region][q.index].address, lo, hi);
  }

  /** Marking an empty range does nothing. */
  lemma MarkEmpty(g: Grid, lo: nat, hi: nat, hopsValue: u32, offsetValue: u32)
    requires hi <= lo
    ensures Mark(g, lo, hi, hopsValue, offsetValue) == g
    ensures !Touched(g, lo, hi)
  {
    MarkGet(g, lo, hi, hopsValue, offsetValue);
    GridExt(Mark(g, lo, hi, hopsValue, offsetValue), g);
  }

  // ---------------------------------------------------------------------
  // The preparation loop of main
  // ---------------------------------------------------------------------

  /** cfgtool.cpp:301-315 for one word: no label, no back-reference, and a
      pointer edge when the word's value lies inside the snapshot. */
  function PrepareCell(spans: seq<Span>, c: Cell): Cell
    requires WfSpans(spans)
  {
    c.(hops := UNVISITED, offset := UNVISITED, rev := None, ptr := PtrTarget(spans, c.value))
  }

  function Prepare(spans: seq<Span>, g: Grid): (h: Grid)
    requires WfSpans(spans)
    ensures SameShape(g, h)
    ensures forall q | ValidRef(g, q) :: Get(h, q) == PrepareCell(spans, Get(g, q))
  {
    seq(|g|, r requires 0 <= r < |g| =>
      seq(|g[r]|, j requires 0 <= j < |g[r]| => PrepareCell(spans, g[r][j])))
  }

  /** A labelling before any propagation: pointers name existing words, there
      are no back-references, and every live word is a start word. */
  predicate Seeded(g: Grid) {
    && (forall r | 0 <= r < |g| :: |g[r]| > 0)
    && forall r, j | 0 <= r < |g| && 0 <= j < |g[r]| ::
         && g[r][j].address == g[r][0].address + WORD * j
         && (g[r][j].ptr.Some? ==> ValidRef(g, g[r][j].ptr.value))
         && g[r][j].rev.None?
         && (Live(g[r][j]) ==> g[r][j].hops == 0 && g[r][j].offset == 0)
  }

  lemma SeededWf(g: Grid)
    requires Seeded(g)
    ensures Wf(g)
  {
    forall r, j | 0 <= r < |g| && 0 <= j < |g[r]| ensures CellOk(g, r, j) {
      assert LinkOk(g, r, j);
      assert RunOk(g, r, j);
    }
  }

  /** After preparation of a snapshot laid out as `spans`, every word is
      unlabelled, and a word has a pointer edge exactly when its value lies in
      some region, to the word holding that value. */
  lemma PrepareSeeded(spans: seq<Span>, g: Grid)
    requires WfSpans(spans) && Shaped(spans, g)
    ensures Shaped(spans, Prepare(spans, g)) && Seeded(Prepare(spans, g))
    ensures forall q | ValidRef(g, q) ::
              && !Live(Get(Prepare(spans, g), q))
              && (Get(Prepare(spans, g), q).ptr.Some? <==>
                    exists k :: 0 <= k < |spans| && InSpan(spans[k], Get(g, q).value))
  {
    var h: Grid := Prepare(spans, g);
    forall r, j | 0 <= r < |h| && 0 <= j < |h[r]|
      ensures h[r][j].ptr.Some? ==> ValidRef(h, h[r][j].ptr.value)
      ensures h[r][j].address == h[r][0].address + WORD * j
    {
      assert h[r][j] == Get(h, Ref(r, j)) == PrepareCell(spans, g[r][j]);
      assert h[r][0] == Get(h, Ref(r, 0)) == PrepareCell(spans, g[r][0]);
      PtrTargetSpec(spans, g[r][j].value);
    }
    forall q | ValidRef(g, q)
      ensures Get(h, q).ptr.Some? <==> exists k :: 0 <= k < |spans| && InSpan(spans[k], Get(g, q).value)
    {
      PtrTargetSpec(spans, Get(g, q).value);
    }
  }

  /** Marking the start words (hops 0, offset 0) or the goal words (a frozen
      label) keeps a labelling seeded. */
  lemma MarkSeeded(g: Grid, lo: nat, hi: nat, hopsValue: u32, offsetValue: u32)
    requires Seeded(g)
    requires (hopsValue == 0 && offsetValue == 0) || hopsValue >= FROZEN
    ensures Seeded(Mark(g, lo, hi, hopsValue, offsetValue))
  {
    var h: Grid := Mark(g, lo, hi, hopsValue, offsetValue);
    MarkGet(g, lo, hi, hopsValue, offsetValue);
    forall r, j | 0 <= r < |h| && 0 <= j < |h[r]|
      ensures h[r][j].address == h[r][0].address + WORD * j
      ensures h[r][j].ptr.Some? ==> ValidRef(h, h[r][j].ptr.value)
      ensures h[r][j].rev.None?
      ensures Live(h[r][j]) ==> h[r][j].hops == 0 && h[r][j].offset == 0
    {
      assert h[r][j] == Get(h, Ref(r, j));
      assert h[r][0] == Get(h, Ref(r, 0));
    }
  }

  lemma MarkShaped(spans: seq<Span>, g: Grid, lo: nat, hi: nat, hopsValue: u32, offsetValue: u32)
    requires Shaped(spans, g)
    ensures Shaped(spans, Mark(g, lo, hi, hopsValue, offsetValue))
  {
    var h: Grid := Mark(g, lo, hi, hopsValue, offsetValue);
    MarkGet(g, lo, hi, hopsValue, offsetValue);
    forall r, j | 0 <= r < |h| && 0 <= j < |h[r]| ensures h[r][j].address == spans[r].base + WORD * j {
      assert h[r][j] == Get(h, Ref(r, j));
    }
  }

  /** A word's slot lies inside its region, so an address that the marking
      loop labels a word for is mapped; conversely every mapped visited
      address labels the word holding it. */
  lemma TouchedSpec(spans: seq<Span>, g: Grid, lo: nat, hi: nat)
    requires WfSpans(spans) && Shaped(spans, g)
    ensures Touched(g, lo, hi) <==>
              exists t: nat :: lo + WORD * t < hi && RegionContaining(spans, lo + WORD * t).Some?
  {
    if Touched(g, lo, hi) {
      TouchedHasAddress(spans, g, lo, hi);
    }
    if exists t: nat :: lo + WORD * t < hi && RegionContaining(spans, lo + WORD * t).Some? {
      var t: nat :| lo + WORD * t < hi && RegionContaining(spans, lo + WORD * t).Some?;
      AddressTouches(spans, g, lo, hi, t);
    }
  }

  lemma TouchedHasAddress(spans: seq<Span>, g: Grid, lo: nat, hi: nat)
    requires WfSpans(spans) && Shaped(spans, g) && Touched(g, lo, hi)
    ensures exists t: nat :: lo + WORD * t < hi && RegionContaining(spans, lo + WORD * t).Some?
  {
    var r, j :| 0 <= r < |g| && 0 <= j < |g[r]| && Hit(g[r][j].address, lo, hi);
    var a := SlotHit(g[r][j].address, lo);
    var t := (a - lo) / WORD;
    assert lo + WORD * t == a;
    assert InSpan(spans[r], a);
    RegionContainingSpec(spans, a);
  }

  lemma AddressTouches(spans: seq<Span>, g: Grid, lo: nat, hi: nat, t: nat)
    requires WfSpans(spans) && Shaped(spans, g)
    requires lo + WORD * t < hi && RegionContaining(spans, lo + WORD * t).Some?
    ensures Touched(g, lo, hi)
  {
    var a := lo + WORD * t;
    var k := RegionContaining(spans, a).value;
    var j := (a - spans[k].base) / WORD;
    assert j < |g[k]|;
    HitSpec(g[k][j].address, lo, hi);
    assert Hit(g[k][j].address, lo, hi);
  }

  /** Marking keeps addresses, so which words a range labels does not depend
      on earlier labels. */
  lemma TouchedAddresses(g: Grid, h: Grid, lo: nat, hi: nat)
    requires SameShape(g, h)
    requires forall q | ValidRef(g, q) :: Get(h, q).address == Get(g, q).address
    ensures Touched(g, lo, hi) == Touched(h, lo, hi)
  {
    assert forall r, j | 0 <= r < |g| && 0 <= j < |g[r]| :: g[r][j] == Get(g, Ref(r, j));
    assert forall r, j | 0 <= r < |h| && 0 <= j < |h[r]| :: h[r][j] == Get(h, Ref(r, j));
  }

  /** The labelling the rounds start from: prepared, start words marked
      with (0, 0), then goal words marked pending (cfgtool.cpp:299-331). */
  function Seed(spans: seq<Span>, g: Grid, startLo: nat, startHi: nat, goalLo: nat, goalHi: nat): (h: Grid)
    requires WfSpans(spans) && Shaped(spans, g)
    ensures Seeded(h) && SameShape(g, h)
  {
    PrepareSeeded(spans, g);
    var g0: Grid := Prepare(spans, g);
    MarkSeeded(g0, startLo, startHi, 0, 0);
    var g1 := Mark(g0, startLo, startHi, 0, 0);
    MarkSeeded(g1, goalLo, goalHi, GOAL_PENDING, GOAL_PENDING);
    Mark(g1, goalLo, goalHi, GOAL_PENDING, GOAL_PENDING)
  }

  /** After seeding, the pending goals are exactly the words of the goal
      range, and addresses are those of the snapshot. */
  lemma SeedSpec(spans: seq<Span>, g: Grid, startLo: nat, startHi: nat, goalLo: nat, goalHi: nat)
    requires WfSpans(spans) && Shaped(spans, g)
    ensures var h := Seed(spans, g, startLo, startHi, goalLo, goalHi);
      forall q | ValidRef(g, q) ::
        && Get(h, q).address == Get(g, q).address
        && (Get(h, q).hops == GOAL_PENDING <==> Hit(Get(g, q).address, goalLo, goalHi))
  {
  }

  /** How a search ends (the three `return 0` of main after the snapshot). */
  datatype Outcome =
    | StartNotMapped
    | GoalNotMapped
    | Finished(grid: Grid, reports: seq<Report>)

  /** main from the preliminary analysis on: prepare the snapshot `g`, mark
      the start words and check that one was mapped, mark the goal words and
      check likewise, then run the rounds. */
  function Search(spans: seq<Span>, g: Grid, startLo: nat, startHi: nat, goalLo: nat, goalHi: nat,
                  maxHops: u32, maxOffset: u32): (o: Outcome)
    requires WfSpans(spans) && Shaped(spans, g)
    ensures o.Finished? ==> Wf(o.grid)
  {
    var g0: Grid := Prepare(spans, g);
    if !Touched(g0, startLo, startHi) then StartNotMapped
    else if !Touched(Mark(g0, startLo, startHi, 0, 0), goalLo, goalHi) then GoalNotMapped
    else
      var h := Seed(spans, g, startLo, startHi, goalLo, goalHi);
      SeededWf(h);
      var s := Rounds(h, RoundCount(maxHops), maxOffset);
      Finished(s.grid, s.reports)
  }

  /** A search fails exactly when no start word, or no goal word, is mapped. */
  lemma SearchErrors(spans: seq<Span>, g: Grid, startLo: nat, startHi: nat, goalLo: nat, goalHi: nat,
                     maxHops: u32, maxOffset: u32)
    requires WfSpans(spans) && Shaped(spans, g)
    ensures var o := Search(spans, g, startLo, startHi, goalLo, goalHi, maxHops, maxOffset);
      && (o.StartNotMapped? <==> !Touched(g, startLo, startHi))
      && (o.GoalNotMapped? <==> Touched(g, startLo, startHi) && !Touched(g, goalLo, goalHi))
  {
    var g0: Grid := Prepare(spans, g);
    var g1 := Mark(g0, startLo, startHi, 0, 0);
    TouchedAddresses(g, g0, startLo, startHi);
    TouchedAddresses(g, g1, goalLo, goalHi);
  }

  /** The reports of a finished search over snapshot `g`: distinct words of
      the goal range, no longer pending, each with a well-formed chain ending
      at that word, whose first base is a word of the start range, whose
      offsets are at most `maxOffset`, and each of whose lines but the last
      follows a pointer stored in the snapshot. */
  ghost predicate GoalReports(g: Grid, startLo: nat, startHi: nat, goalLo: nat, goalHi: nat, maxOffset: u32,
                              h: Grid, reps: seq<Report>) {
    && (forall i, k | 0 <= i < k < |reps| :: reps[i].goal != reps[k].goal)
    && (forall i | 0 <= i < |reps| ::
          && ValidRef(g, reps[i].goal) && ValidRef(h, reps[i].goal)
          && Hit(Get(g, reps[i].goal).address, goalLo, goalHi)
          && PathOk(reps[i].path)
          && reps[i].path[|reps[i].path| - 1].address2 == Get(g, reps[i].goal).address
          && Get(h, reps[i].goal).hops != GOAL_PENDING)
    && ReportsTracked(g, reps, startLo, startHi, maxOffset)
  }

  lemma SeedReports(spans: seq<Span>, g: Grid, startLo: nat, startHi: nat, goalLo: nat, goalHi: nat,
                    maxOffset: u32, h: Grid, reps: seq<Report>)
    requires WfSpans(spans) && Shaped(spans, g)
    requires ReportsOk(Seed(spans, g, startLo, startHi, goalLo, goalHi), h, reps)
    requires ReportsTracked(Seed(spans, g, startLo, startHi, goalLo, goalHi), reps, startLo, startHi, maxOffset)
    ensures GoalReports(g, startLo, startHi, goalLo, goalHi, maxOffset, h, reps)
  {
    SeedGoals(spans, g, startLo, startHi, goalLo, goalHi, h, reps);
    SeedChains(spans, g, startLo, startHi, goalLo, goalHi, maxOffset, reps);
  }

  /** A goal reported from the seeded labelling is a word of the goal range. */
  lemma SeedGoals(spans: seq<Span>, g: Grid, startLo: nat, startHi: nat, goalLo: nat, goalHi: nat,
                  h: Grid, reps: seq<Report>)
    requires WfSpans(spans) && Shaped(spans, g)
    requires ReportsOk(Seed(spans, g, startLo, startHi, goalLo, goalHi), h, reps)
    ensures forall i | 0 <= i < |reps| ::
      && ValidRef(g, reps[i].goal)
      && Hit(Get(g, reps[i].goal).address, goalLo, goalHi)
      && reps[i].path[|reps[i].path| - 1].address2 == Get(g, reps[i].goal).address
  {
    var h0 := Seed(spans, g, startLo, startHi, goalLo, goalHi);
    SeedSpec(spans, g, startLo, startHi, goalLo, goalHi);
    forall i | 0 <= i < |reps|
      ensures ValidRef(g, reps[i].goal)
      ensures Hit(Get(g, reps[i].goal).address, goalLo, goalHi)
      ensures reps[i].path[|reps[i].path| - 1].address2 == Get(g, reps[i].goal).address
    {
      assert ReportOk(h0, h, reps[i]);
    }
  }

  /** What the chains say about the seeded labelling they say about the snapshot. */
  lemma SeedChains(spans: seq<Span>, g: Grid, startLo: nat, startHi: nat, goalLo: nat, goalHi: nat,
                   maxOffset: u32, reps: seq<Report>)
    requires WfSpans(spans) && Shaped(spans, g)
    requires ReportsTracked(Seed(spans, g, startLo, startHi, goalLo, goalHi), reps, startLo, startHi, maxOffset)
    ensures ReportsTracked(g, reps, startLo, startHi, maxOffset)
  {
    var h0 := Seed(spans, g, startLo, startHi, goalLo, goalHi);
    SeedTracked(spans, g, startLo, startHi, goalLo, goalHi, maxOffset);
    forall i | 0 <= i < |reps| ensures ChainFacts(g, reps[i].path, startLo, startHi, maxOffset) {
      ChainFactsTransport(g, h0, reps[i].path, startLo, startHi, maxOffset);
    }
  }

  /** What a finished search promises. */
  lemma SearchSound(spans: seq<Span>, g: Grid, startLo: nat, startHi: nat, goalLo: nat, goalHi: nat,
                    maxHops: u32, maxOffset: u32)
    requires WfSpans(spans) && Shaped(spans, g)
    ensures var o := Search(spans, g, startLo, startHi, goalLo, goalHi, maxHops, maxOffset);
      o.Finished? ==>
        && SameShape(g, o.grid)
        && GoalReports(g, startLo, startHi, goalLo, goalHi, maxOffset, o.grid, o.reports)
  {
    var o := Search(spans, g, startLo, startHi, goalLo, goalHi, maxHops, maxOffset);
    if o.Finished? {
      var h := Seed(spans, g, startLo, startHi, goalLo, goalHi);
      SeededWf(h);
      var s := Rounds(h, RoundCount(maxHops), maxOffset);
      assert o.reports == s.reports && o.grid == s.grid;
      RoundsOk(h, RoundCount(maxHops), maxOffset);
      SeedTracked(spans, g, startLo, startHi, goalLo, goalHi, maxOffset);
      RoundsTracked(h, RoundCount(maxHops), startLo, startHi, maxOffset);
      SeedReports(spans, g, startLo, startHi, goalLo, goalHi, maxOffset, s.grid, s.reports);
    }
  }

  // ---------------------------------------------------------------------
  // What the printed chains say about the snapshot
  // ---------------------------------------------------------------------

  /** Two labellings of the same words: same shape, addresses and values. */
  ghost predicate SameWords(g: Grid, h: Grid) {
    && SameShape(g, h)
    && forall q | ValidRef(g, q) ::
         ValidRef(h, q) && Get(h, q).address == Get(g, q).address && Get(h, q).value == Get(g, q).value
  }

  lemma SameWordsTrans(g: Grid, h: Grid, k: Grid)
    requires SameWords(g, h) && SameWords(h, k)
    ensures SameWords(g, k)
  {
  }

  lemma EvolvesSameWords(g: Grid, h: Grid)
    requires Evolves(g, h)
    ensures SameWords(g, h)
  {
    forall q | ValidRef(g, q)
      ensures ValidRef(h, q) && Get(h, q).address == Get(g, q).address && Get(h, q).value == Get(g, q).value
    {
      assert Follows(g[q.region][q.index], h[q.region][q.index]);
    }
  }

  /** A line that dereferences the snapshot `g`: the word at `address2`
      holds a value inside the 8-byte slot of the word at `dest`. */
  ghost predicate Derefs(g: Grid, s: Step) {
    && (exists q | ValidRef(g, q) ::
          Get(g, q).address == s.address2 && s.dest <= Get(g, q).value < s.dest + WORD)
    && (exists q | ValidRef(g, q) :: Get(g, q).address == s.dest)
  }

  /** A chain read against the snapshot `g`: its first base is a word of the
      start range, no line's offset exceeds `maxOffset`, and every line but
      the goal line dereferences the snapshot. */
  ghost predicate ChainFacts(g: Grid, path: seq<Step>, startLo: nat, startHi: nat, maxOffset: u32) {
    && |path| > 0
    && Hit(path[0].address, startLo, startHi)
    && forall i | 0 <= i < |path| :: path[i].offset <= maxOffset && (!path[i].goal ==> Derefs(g, path[i]))
  }

  ghost predicate ReportsTracked(g: Grid, reps: seq<Report>, startLo: nat, startHi: nat, maxOffset: u32) {
    forall i | 0 <= i < |reps| :: ChainFacts(g, reps[i].path, startLo, startHi, maxOffset)
  }

  /** What a chain says about a snapshot depends only on addresses and values. */
  lemma ChainFactsTransport(g: Grid, h: Grid, path: seq<Step>, startLo: nat, startHi: nat, maxOffset: u32)
    requires SameWords(g, h) && ChainFacts(h, path, startLo, startHi, maxOffset)
    ensures ChainFacts(g, path, startLo, startHi, maxOffset)
  {
    forall i | 0 <= i < |path| && !path[i].goal ensures Derefs(g, path[i]) {
      var s := path[i];
      assert Derefs(h, s);
      var q :| ValidRef(h, q) && Get(h, q).address == s.address2 && s.dest <= Get(h, q).value < s.dest + WORD;
      assert ValidRef(g, q);
      var q' :| ValidRef(h, q') && Get(h, q').address == s.dest;
      assert ValidRef(g, q');
    }
  }

  lemma ReportsTrackedAppend(g: Grid, h: Grid, a: seq<Report>, b: seq<Report>,
                             startLo: nat, startHi: nat, maxOffset: u32)
    requires SameWords(g, h)
    requires ReportsTracked(g, a, startLo, startHi, maxOffset) && ReportsTracked(h, b, startLo, startHi, maxOffset)
    ensures ReportsTracked(g, a + b, startLo, startHi, maxOffset)
  {
    forall i | |a| <= i < |a + b| ensures ChainFacts(g, (a + b)[i].path, startLo, startHi, maxOffset) {
      ChainFactsTransport(g, h, b[i - |a|].path, startLo, startHi, maxOffset);
    }
  }

  /** What the labels of word `(r, j)` say about the start range and the
      snapshot: its pointer edge names the word whose slot holds its value;
      if it is live, its offset is at most `maxOffset`, and a run-origin with
      zero hops is a word of the start range. */
  predicate TrackOk(g: Grid, r: nat, j: nat, startLo: nat, startHi: nat, maxOffset: u32)
    requires r < |g| && j < |g[r]|
  {
    var c := g[r][j];
    && (c.ptr.Some? ==>
          ValidRef(g, c.ptr.value) && Get(g, c.ptr.value).address <= c.value < Get(g, c.ptr.value).address + WORD)
    && (Live(c) ==>
          && c.offset <= maxOffset
          && (c.offset / WORD <= j && g[r][j - c.offset / WORD].hops == 0 ==>
                Hit(g[r][j - c.offset / WORD].address, startLo, startHi)))
  }

  predicate Tracked(g: Grid, startLo: nat, startHi: nat, maxOffset: u32) {
    forall r, j | 0 <= r < |g| && 0 <= j < |g[r]| :: TrackOk(g, r, j, startLo, startHi, maxOffset)
  }

  /** Before any pointer has been followed, every live word has zero hops. */
  predicate AllZero(g: Grid) {
    forall r, j | 0 <= r < |g| && 0 <= j < |g[r]| :: Live(g[r][j]) ==> g[r][j].hops == 0
  }

  /** A zero-hop word whose offset can still grow by a word has a zero-hop
      right neighbour: what a finished offset pass leaves behind. */
  predicate Closed(g: Grid, maxOffset: u32) {
    forall r, j | 0 <= r < |g| && 0 <= j && j + 1 < |g[r]| ::
      g[r][j].hops == 0 && g[r][j].offset as int + WORD <= maxOffset as int ==> g[r][j + 1].hops == 0
  }

  /** What printresult prints, read against the labelling it walks: the
      first base is a start word, no offset exceeds `maxOffset`, and every
      line but the goal line follows a pointer stored in the snapshot. */
  lemma {:induction false} WalkTracked(g: Grid, w: Ref, goal: bool, startLo: nat, startHi: nat, maxOffset: u32)
    requires Wf(g) && ValidRef(g, w) && Tracked(g, startLo, startHi, maxOffset)
    requires Live(Get(g, w)) || (Get(g, w).offset == 0 && Get(g, w).rev.Some?)
    requires !goal ==> Get(g, w).ptr.Some?
    ensures ChainFacts(g, Walk(g, w, goal), startLo, startHi, maxOffset)
    decreases Get(g, w).hops
  {
    WalkSplit(g, w, goal);
    var c := Get(g, w);
    var oi := w.index - c.offset / WORD;
    var o := g[w.region][oi];
    var path := Walk(g, w, goal);
    var step := path[|path| - 1];
    assert TrackOk(g, w.region, w.index, startLo, startHi, maxOffset);
    if !goal {
      assert Get(g, w).address == step.address2 && step.dest == Get(g, c.ptr.value).address;
      assert Derefs(g, step);
    }
    if o.hops == 0 {
      assert Live(c);
      assert path == [step];
    } else {
      WalkTracked(g, o.rev.value, false, startLo, startHi, maxOffset);
      var rest := Walk(g, o.rev.value, false);
      assert path == rest + [step];
      assert forall i | 0 <= i < |rest| :: path[i] == rest[i];
    }
  }

  /** One word of an offset relaxation: the relaxed word inherits the
      run-origin of its left neighbour; a word whose run-origin is the
      relaxed word saw it lose hops, but never down to zero, because that
      origin already had zero hops (AllZero) or its left neighbour would have
      passed zero hops on already (Closed). */
  lemma OffsetTrackCell(g: Grid, r: nat, j: nat, startLo: nat, startHi: nat, maxOffset: u32, r': nat, j': nat)
    requires OffsetRelaxes(g, r, j, maxOffset) && Tracked(g, startLo, startHi, maxOffset)
    requires AllZero(g) || Closed(g, maxOffset)
    requires r' < |g| && j' < |g[r']|
    ensures TrackOk(OffsetRelaxed(g, r, j), r', j', startLo, startHi, maxOffset)
  {
    var h: Grid := OffsetRelaxed(g, r, j);
    var c := g[r][j];
    assert CellOk(g, r, j) && CellOk(g, r', j');
    assert TrackOk(g, r, j, startLo, startHi, maxOffset) && TrackOk(g, r', j', startLo, startHi, maxOffset);
    var x: Cell := h[r'][j'];
    assert x == Get(h, Ref(r', j'));
    if x.ptr.Some? {
      assert Get(h, x.ptr.value).address == Get(g, x.ptr.value).address;
    }
    if Live(x) && x.offset / WORD <= j' {
      var oi := j' - x.offset / WORD;
      if (r', j') == (r, j + 1) {
        assert oi == j - c.offset / WORD;
        assert h[r][oi] == Get(h, Ref(r, oi)) == g[r][oi];
      } else if (r', oi) == (r, j + 1) {
        assert g[r][j + 1].hops <= x.hops;
        assert c.hops != 0;
      } else {
        assert h[r'][oi] == Get(h, Ref(r', oi)) == g[r'][oi];
      }
    }
  }

  lemma OffsetRelaxTracked(g: Grid, r: nat, j: nat, startLo: nat, startHi: nat, maxOffset: u32)
    requires OffsetRelaxes(g, r, j, maxOffset) && Tracked(g, startLo, startHi, maxOffset)
    requires AllZero(g) || Closed(g, maxOffset)
    ensures var h := OffsetRelaxed(g, r, j);
      && Tracked(h, startLo, startHi, maxOffset)
      && (AllZero(g) ==> AllZero(h))
      && (Closed(g, maxOffset) ==> Closed(h, maxOffset))
  {
    var h: Grid := OffsetRelaxed(g, r, j);
    var c := g[r][j];
    forall r', j' | 0 <= r' < |h| && 0 <= j' < |h[r']|
      ensures TrackOk(h, r', j', startLo, startHi, maxOffset)
    {
      OffsetTrackCell(g, r, j, startLo, startHi, maxOffset, r', j');
    }
    if AllZero(g) {
      forall r', j' | 0 <= r' < |h| && 0 <= j' < |h[r']| && Live(h[r'][j']) ensures h[r'][j'].hops == 0 {
        assert h[r'][j'] == Get(h, Ref(r', j'));
      }
    }
    if Closed(g, maxOffset) {
      assert c.hops != 0;
      forall r', j' | 0 <= r' < |h| && 0 <= j' && j' + 1 < |h[r']|
        ensures h[r'][j'].hops == 0 && h[r'][j'].offset as int + WORD <= maxOffset as int ==> h[r'][j' + 1].hops == 0
      {
        assert h[r'][j'] == Get(h, Ref(r', j'));
        assert h[r'][j' + 1] == Get(h, Ref(r', j' + 1));
      }
    }
  }

  /** What an offset step keeps: Tracked, and whichever of AllZero and
      Closed held before. */
  predicate OffsetKeeps(g: Grid, h: Grid, startLo: nat, startHi: nat, maxOffset: u32) {
    && Tracked(h, startLo, startHi, maxOffset)
    && (AllZero(g) ==> AllZero(h))
    && (Closed(g, maxOffset) ==> Closed(h, maxOffset))
  }

  lemma OffsetStepTracked(g: Grid, r: nat, j: nat, startLo: nat, startHi: nat, maxOffset: u32)
    requires Wf(g) && r < |g| && j + 1 < |g[r]| && Tracked(g, startLo, startHi, maxOffset)
    requires AllZero(g) || Closed(g, maxOffset)
    ensures OffsetKeeps(g, OffsetStep(g, r, j, maxOffset), startLo, startHi, maxOffset)
  {
    OffsetStepSpec(g, r, j, maxOffset);
    if OffsetRelaxes(g, r, j, maxOffset) {
      OffsetRelaxTracked(g, r, j, startLo, startHi, maxOffset);
    }
  }

  lemma {:induction false} OffsetRowTracked(g: Grid, r: nat, j: nat, startLo: nat, startHi: nat, maxOffset: u32)
    requires Wf(g) && r < |g| && j < |g[r]| && Tracked(g, startLo, startHi, maxOffset)
    requires AllZero(g) || Closed(g, maxOffset)
    ensures OffsetKeeps(g, OffsetRow(g, r, j, maxOffset), startLo, startHi, maxOffset)
    decreases j
  {
    if j > 0 {
      var h0 := OffsetRow(g, r, j - 1, maxOffset);
      OffsetRowTracked(g, r, j - 1, startLo, startHi, maxOffset);
      OffsetStepTracked(h0, r, j - 1, startLo, startHi, maxOffset);
    }
  }

  lemma {:induction false} OffsetRowsTracked(g: Grid, i: nat, startLo: nat, startHi: nat, maxOffset: u32)
    requires Wf(g) && i <= |g| && Tracked(g, startLo, startHi, maxOffset)
    requires AllZero(g) || Closed(g, maxOffset)
    ensures OffsetKeeps(g, OffsetRows(g, i, maxOffset), startLo, startHi, maxOffset)
    decreases i
  {
    if i > 0 {
      OffsetRowsTracked(g, i - 1, startLo, startHi, maxOffset);
      var h0 := OffsetRows(g, i - 1, maxOffset);
      OffsetRowTracked(h0, i - 1, |h0[i - 1]| - 1, startLo, startHi, maxOffset);
    }
  }

  /** The pairs `(j, j + 1)` of region `r` with `j < k` are as Closed requires. */
  predicate RowClosed(g: Grid, r: nat, k: nat, maxOffset: u32)
    requires r < |g|
  {
    forall j | 0 <= j < k && j + 1 < |g[r]| ::
      g[r][j].hops == 0 && g[r][j].offset as int + WORD <= maxOffset as int ==> g[r][j + 1].hops == 0
  }

  /** After `j` iterations of the inner loop of propagateoffsets, the first
      `j` pairs of the region are closed: each iteration closes its own pair
      and touches no earlier word. */
  lemma {:induction false} OffsetRowClosed(g: Grid, r: nat, j: nat, maxOffset: u32)
    requires Wf(g) && r < |g| && j < |g[r]|
    ensures RowClosed(OffsetRow(g, r, j, maxOffset), r, j, maxOffset)
    decreases j
  {
    if j > 0 {
      var h0 := OffsetRow(g, r, j - 1, maxOffset);
      OffsetRowClosed(g, r, j - 1, maxOffset);
      OffsetStepSpec(h0, r, j - 1, maxOffset);
      var h := OffsetStep(h0, r, j - 1, maxOffset);
      assert h[r][j - 1] == Get(h, Ref(r, j - 1)) == h0[r][j - 1];
      forall j' | 0 <= j' < j ensures h[r][j'] == h0[r][j'] {
        assert h[r][j'] == Get(h, Ref(r, j'));
      }
    }
  }

  /** The inner loop of propagateoffsets over region `r` leaves the other
      regions alone. */
  lemma {:induction false} OffsetRowOther(g: Grid, r: nat, j: nat, maxOffset: u32, k: nat)
    requires Wf(g) && r < |g| && j < |g[r]| && k < |g| && k != r
    ensures OffsetRow(g, r, j, maxOffset)[k] == g[k]
    decreases j
  {
    if j > 0 {
      OffsetRowOther(g, r, j - 1, maxOffset, k);
      var h0 := OffsetRow(g, r, j - 1, maxOffset);
      OffsetStepSpec(h0, r, j - 1, maxOffset);
      var h := OffsetStep(h0, r, j - 1, maxOffset);
      assert forall i | 0 <= i < |h[k]| :: h[k][i] == Get(h, Ref(k, i)) == h0[k][i];
    }
  }

  /** After propagateoffsets has scanned region `r`, later regions leave it alone. */
  lemma {:induction false} OffsetRowsClosed(g: Grid, i: nat, maxOffset: u32, r: nat)
    requires Wf(g) && r < i <= |g|
    ensures RowClosed(OffsetRows(g, i, maxOffset), r, |OffsetRows(g, i, maxOffset)[r]| - 1, maxOffset)
    decreases i
  {
    var h0 := OffsetRows(g, i - 1, maxOffset);
    var h := OffsetRow(h0, i - 1, |h0[i - 1]| - 1, maxOffset);
    assert OffsetRows(g, i, maxOffset) == h;
    if r == i - 1 {
      OffsetRowClosed(h0, r, |h0[r]| - 1, maxOffset);
    } else {
      OffsetRowsClosed(g, i - 1, maxOffset, r);
      OffsetRowOther(h0, i - 1, |h0[i - 1]| - 1, maxOffset, r);
      assert RowClosed(h0, r, |h0[r]| - 1, maxOffset);
    }
  }

  /** propagateoffsets keeps Tracked and always leaves the labelling Closed. */
  lemma OffsetPassTracked(g: Grid, startLo: nat, startHi: nat, maxOffset: u32)
    requires Wf(g) && Tracked(g, startLo, startHi, maxOffset)
    requires AllZero(g) || Closed(g, maxOffset)
    ensures var h := OffsetPass(g, maxOffset);
      Tracked(h, startLo, startHi, maxOffset) && Closed(h, maxOffset) && SameWords(g, h)
  {
    var h := OffsetPass(g, maxOffset);
    OffsetRowsTracked(g, |g|, startLo, startHi, maxOffset);
    OffsetPassEvolves(g, maxOffset);
    forall r | 0 <= r < |h| ensures RowClosed(h, r, |h[r]| - 1, maxOffset) {
      OffsetRowsClosed(g, |g|, maxOffset, r);
    }
    OffsetEvolvesIsEvolves(g, h, maxOffset);
    EvolvesSameWords(g, h);
  }

  /** Relabelling word `t` with nonzero hops and offset 0, keeping its
      address, value and pointer: t starts a run of its own that is not a
      start run, and a word whose run starts at t is not a start run either. */
  lemma RelabelTracked(g: Grid, t: Ref, x: Cell, startLo: nat, startHi: nat, maxOffset: u32)
    requires ValidRef(g, t) && Tracked(g, startLo, startHi, maxOffset)
    requires x.address == Get(g, t).address && x.value == Get(g, t).value && x.ptr == Get(g, t).ptr
    requires x.offset == 0 && x.hops != 0
    ensures Tracked(Set(g, t, x), startLo, startHi, maxOffset) && SameWords(g, Set(g, t, x))
    ensures Closed(g, maxOffset) && Get(g, t).hops != 0 ==> Closed(Set(g, t, x), maxOffset)
  {
    var h: Grid := Set(g, t, x);
    forall r, j | 0 <= r < |h| && 0 <= j < |h[r]| ensures TrackOk(h, r, j, startLo, startHi, maxOffset) {
      assert TrackOk(g, r, j, startLo, startHi, maxOffset);
      var y: Cell := h[r][j];
      assert y == Get(h, Ref(r, j));
      if y.ptr.Some? {
        assert Get(h, y.ptr.value).address == Get(g, y.ptr.value).address;
      }
      if Live(y) && y.offset / WORD <= j {
        var oi := j - y.offset / WORD;
        assert h[r][oi] == Get(h, Ref(r, oi));
        if Ref(r, oi) != t {
          assert h[r][oi] == g[r][oi];
        }
      }
    }
    if Closed(g, maxOffset) && Get(g, t).hops != 0 {
      forall r, j | 0 <= r < |h| && 0 <= j && j + 1 < |h[r]|
        ensures h[r][j].hops == 0 && h[r][j].offset as int + WORD <= maxOffset as int ==> h[r][j + 1].hops == 0
      {
        assert h[r][j] == Get(h, Ref(r, j));
        assert h[r][j + 1] == Get(h, Ref(r, j + 1));
      }
    }
  }

  /** A stretch of a search from `g` to `s.grid` that keeps Tracked, the
      words, and Closed, and whose chains say what ChainFacts says about `g`. */
  ghost predicate ScanTracked(g: Grid, s: Scan, startLo: nat, startHi: nat, maxOffset: u32) {
    var ok :=
      && Tracked(s.grid, startLo, startHi, maxOffset) && SameWords(g, s.grid)
      && ReportsTracked(g, s.reports, startLo, startHi, maxOffset)
      && (Closed(g, maxOffset) ==> Closed(s.grid, maxOffset));
    ok
  }

  lemma ScanTrackedTrans(g: Grid, s0: Scan, s1: Scan, startLo: nat, startHi: nat, maxOffset: u32)
    requires ScanTracked(g, s0, startLo, startHi, maxOffset) && ScanTracked(s0.grid, s1, startLo, startHi, maxOffset)
    ensures ScanTracked(g, Scan(s1.grid, s0.reports + s1.reports), startLo, startHi, maxOffset)
  {
    SameWordsTrans(g, s0.grid, s1.grid);
    ReportsTrackedAppend(g, s0.grid, s0.reports, s1.reports, startLo, startHi, maxOffset);
  }

  /** One iteration of propagatepointers keeps Tracked and Closed, and the
      chain it prints, if any, says what ChainFacts says about `g`. */
  lemma PtrStepTracked(g: Grid, p: Ref, startLo: nat, startHi: nat, maxOffset: u32)
    requires Wf(g) && ValidRef(g, p) && Tracked(g, startLo, startHi, maxOffset)
    ensures ScanTracked(g, PtrStep(g, p), startLo, startHi, maxOffset)
  {
    var c := Get(g, p);
    if c.ptr.Some? && Live(c) {
      assert CellOk(g, p.region, p.index);
      var t := c.ptr.value;
      if Get(g, t).hops > c.hops + 1 {
        var h := PtrRelaxed(g, p);
        RelabelTracked(g, t, PtrLabel(g, p), startLo, startHi, maxOffset);
        PtrRelaxKeepsWf(g, p);
        RelabelTracked(h, t, Get(h, t).(hops := GOAL_REPORTED), startLo, startHi, maxOffset);
        SameWordsTrans(g, h, MarkReported(h, t));
        if Get(g, t).hops == GOAL_PENDING {
          WalkTracked(h, t, true, startLo, startHi, maxOffset);
          ChainFactsTransport(g, h, Walk(h, t, true), startLo, startHi, maxOffset);
        }
      }
    }
  }

  lemma PtrStepTrackedAfter(g: Grid, s0: Scan, p: Ref, startLo: nat, startHi: nat, maxOffset: u32)
    requires Wf(s0.grid) && ValidRef(s0.grid, p) && ScanTracked(g, s0, startLo, startHi, maxOffset)
    ensures ScanTracked(g, Scan(PtrStep(s0.grid, p).grid, s0.reports + PtrStep(s0.grid, p).reports),
                        startLo, startHi, maxOffset)
  {
    PtrStepTracked(s0.grid, p, startLo, startHi, maxOffset);
    ScanTrackedTrans(g, s0, PtrStep(s0.grid, p), startLo, startHi, maxOffset);
  }

  lemma ScanTrackedNone(g: Grid, startLo: nat, startHi: nat, maxOffset: u32)
    requires Tracked(g, startLo, startHi, maxOffset)
    ensures ScanTracked(g, Scan(g, []), startLo, startHi, maxOffset)
  {
  }

  lemma {:induction false} PtrRowTracked(g: Grid, r: nat, j: nat, startLo: nat, startHi: nat, maxOffset: u32)
    requires Wf(g) && r < |g| && j <= |g[r]| && Tracked(g, startLo, startHi, maxOffset)
    ensures ScanTracked(g, PtrRow(g, r, j), startLo, startHi, maxOffset)
    decreases j
  {
    if j == 0 {
      ScanTrackedNone(g, startLo, startHi, maxOffset);
    } else {
      PtrRowTracked(g, r, j - 1, startLo, startHi, maxOffset);
      PtrStepTrackedAfter(g, PtrRow(g, r, j - 1), Ref(r, j - 1), startLo, startHi, maxOffset);
    }
  }

  lemma {:induction false} PtrRowsTracked(g: Grid, i: nat, startLo: nat, startHi: nat, maxOffset: u32)
    requires Wf(g) && i <= |g| && Tracked(g, startLo, startHi, maxOffset)
    ensures ScanTracked(g, PtrRows(g, i), startLo, startHi, maxOffset)
    decreases i
  {
    if i == 0 {
      ScanTrackedNone(g, startLo, startHi, maxOffset);
    } else {
      var k: nat := i - 1;
      PtrRowsTracked(g, k, startLo, startHi, maxOffset);
      PtrRowsTrackedStep(g, k, startLo, startHi, maxOffset);
    }
  }

  lemma PtrRowsTrackedStep(g: Grid, k: nat, startLo: nat, startHi: nat, maxOffset: u32)
    requires Wf(g) && k < |g|
    requires ScanTracked(g, PtrRows(g, k), startLo, startHi, maxOffset)
    ensures ScanTracked(g, PtrRows(g, k + 1), startLo, startHi, maxOffset)
  {
    var s0 := PtrRows(g, k);
    var s1 := PtrRow(s0.grid, k, |s0.grid[k]|);
    assert PtrRows(g, k + 1) == Scan(s1.grid, s0.reports + s1.reports);
    PtrRowTracked(s0.grid, k, |s0.grid[k]|, startLo, startHi, maxOffset);
    ScanTrackedTrans(g, s0, s1, startLo, startHi, maxOffset);
  }

  /** One round keeps Tracked, leaves the labelling Closed, and every chain
      it prints starts at a start word, stays within `maxOffset` and follows
      pointers stored in the snapshot. */
  lemma RoundTracked(g: Grid, startLo: nat, startHi: nat, maxOffset: u32)
    requires Wf(g) && Tracked(g, startLo, startHi, maxOffset)
    requires AllZero(g) || Closed(g, maxOffset)
    ensures ScanTracked(g, Round(g, maxOffset), startLo, startHi, maxOffset)
    ensures Closed(Round(g, maxOffset).grid, maxOffset)
  {
    var h := OffsetPass(g, maxOffset);
    OffsetPassTracked(g, startLo, startHi, maxOffset);
    PtrRowsTracked(h, |h|, startLo, startHi, maxOffset);
    assert Round(g, maxOffset) == PtrRows(h, |h|);
    ScanTrackedBefore(g, h, PtrRows(h, |h|), startLo, startHi, maxOffset);
  }

  /** A stretch that starts from a Closed labelling with the same words as
      `g` says about `g` what it says about its own start. */
  lemma ScanTrackedBefore(g: Grid, h: Grid, s: Scan, startLo: nat, startHi: nat, maxOffset: u32)
    requires SameWords(g, h) && Closed(h, maxOffset) && ScanTracked(h, s, startLo, startHi, maxOffset)
    ensures ScanTracked(g, s, startLo, startHi, maxOffset) && Closed(s.grid, maxOffset)
  {
    SameWordsTrans(g, h, s.grid);
    ReportsTrackedAppend(g, h, [], s.reports, startLo, startHi, maxOffset);
    assert [] + s.reports == s.reports;
  }

  /** The rounds of a search keep Tracked, and every chain they print starts
      at a start word, stays within `maxOffset` and follows pointers stored in
      the snapshot. */
  lemma {:induction false} RoundsTracked(g: Grid, n: nat, startLo: nat, startHi: nat, maxOffset: u32)
    requires Wf(g) && Tracked(g, startLo, startHi, maxOffset) && AllZero(g)
    ensures ScanTracked(g, Rounds(g, n, maxOffset), startLo, startHi, maxOffset)
    ensures 0 < n ==> Closed(Rounds(g, n, maxOffset).grid, maxOffset)
    decreases n
  {
    if n == 0 {
      assert Rounds(g, n, maxOffset) == Scan(g, []);
      ScanTrackedNone(g, startLo, startHi, maxOffset);
    } else {
      RoundsTracked(g, n - 1, startLo, startHi, maxOffset);
      RoundsTrackedStep(g, n, startLo, startHi, maxOffset);
    }
  }

  lemma RoundsTrackedStep(g: Grid, n: nat, startLo: nat, startHi: nat, maxOffset: u32)
    requires Wf(g) && AllZero(g) && 0 < n
    requires ScanTracked(g, Rounds(g, n - 1, maxOffset), startLo, startHi, maxOffset)
    requires 1 < n ==> Closed(Rounds(g, n - 1, maxOffset).grid, maxOffset)
    ensures ScanTracked(g, Rounds(g, n, maxOffset), startLo, startHi, maxOffset)
    ensures Closed(Rounds(g, n, maxOffset).grid, maxOffset)
  {
    var s0 := Rounds(g, n - 1, maxOffset);
    var s1 := Round(s0.grid, maxOffset);
    assert Rounds(g, n, maxOffset) == Scan(s1.grid, s0.reports + s1.reports);
    if n == 1 {
      assert s0.grid == g;
    }
    RoundTracked(s0.grid, startLo, startHi, maxOffset);
    ScanTrackedTrans(g, s0, s1, startLo, startHi, maxOffset);
  }

  /** A seeded word keeps its address and value, points at the word whose
      slot holds its value, and is live only if it is a start word. */
  lemma SeedCell(spans: seq<Span>, g: Grid, startLo: nat, startHi: nat, goalLo: nat, goalHi: nat, q: Ref)
    requires WfSpans(spans) && Shaped(spans, g) && ValidRef(g, q)
    ensures var h := Seed(spans, g, startLo, startHi, goalLo, goalHi); var c := Get(g, q);
      && ValidRef(h, q)
      && Get(h, q).address == c.address && Get(h, q).value == c.value
      && Get(h, q).ptr == LocationOf(spans, c.value)
      && (Live(Get(h, q)) ==> Hit(c.address, startLo, startHi))
  {
    var g0 := Prepare(spans, g);
    MarkGet(g0, startLo, startHi, 0, 0);
    MarkGet(Mark(g0, startLo, startHi, 0, 0), goalLo, goalHi, GOAL_PENDING, GOAL_PENDING);
    PtrTargetSpec(spans, Get(g, q).value);
  }

  lemma SeedTrackOk(spans: seq<Span>, g: Grid, startLo: nat, startHi: nat, goalLo: nat, goalHi: nat,
                    maxOffset: u32, r: nat, j: nat)
    requires WfSpans(spans) && Shaped(spans, g) && r < |g| && j < |g[r]|
    requires Shaped(spans, Seed(spans, g, startLo, startHi, goalLo, goalHi))
    ensures TrackOk(Seed(spans, g, startLo, startHi, goalLo, goalHi), r, j, startLo, startHi, maxOffset)
  {
    var h := Seed(spans, g, startLo, startHi, goalLo, goalHi);
    SeedCell(spans, g, startLo, startHi, goalLo, goalHi, Ref(r, j));
    var c := h[r][j];
    assert c == Get(h, Ref(r, j));
    if c.ptr.Some? {
      var t := c.ptr.value;
      assert ValidRef(h, t);
      assert Get(h, t).address == spans[t.region].base + WORD * t.index;
    }
  }

  /** The labelling the rounds start from is Tracked and AllZero. */
  lemma SeedTracked(spans: seq<Span>, g: Grid, startLo: nat, startHi: nat, goalLo: nat, goalHi: nat,
                    maxOffset: u32)
    requires WfSpans(spans) && Shaped(spans, g)
    ensures var h := Seed(spans, g, startLo, startHi, goalLo, goalHi);
      Tracked(h, startLo, startHi, maxOffset) && AllZero(h) && SameWords(g, h)
  {
    var h := Seed(spans, g, startLo, startHi, goalLo, goalHi);
    var g0 := Prepare(spans, g);
    PrepareSeeded(spans, g);
    MarkShaped(spans, g0, startLo, startHi, 0, 0);
    MarkShaped(spans, Mark(g0, startLo, startHi, 0, 0), goalLo, goalHi, GOAL_PENDING, GOAL_PENDING);
    forall r, j | 0 <= r < |h| && 0 <= j < |h[r]| ensures TrackOk(h, r, j, startLo, startHi, maxOffset) {
      SeedTrackOk(spans, g, startLo, startHi, goalLo, goalHi, maxOffset, r, j);
    }
    forall q | ValidRef(g, q)
      ensures ValidRef(h, q) && Get(h, q).address == Get(g, q).address && Get(h, q).value == Get(g, q).value
    {
      SeedCell(spans, g, startLo, startHi, goalLo, goalHi, q);
    }
  }

  // ---------------------------------------------------------------------
  // Helpers for the imperative model
  // ---------------------------------------------------------------------

  /** Two labellings of the same shape that agree on every word are equal. */
  lemma GridExt(g: Grid, h: Grid)
    requires SameShape(g, h)
    requires forall q | ValidRef(g, q) :: Get(g, q) == Get(h, q)
    ensures g == h
  {
    forall r | 0 <= r < |g| ensures g[r] == h[r] {
      assert forall j | 0 <= j < |g[r]| :: g[r][j] == Get(g, Ref(r, j)) == Get(h, Ref(r, j)) == h[r][j];
    }
  }

  /** The printed chains of a sequence of reports. */
  function Paths(reps: seq<Report>): (ps: seq<seq<Step>>)
    ensures |ps| == |reps|
  {
    if reps == [] then [] else Paths(reps[..|reps| - 1]) + [reps[|reps| - 1].path]
  }

  /** The chains printed are those of the reports, in order. */
  lemma {:induction false} PathsSpec(reps: seq<Report>)
    ensures forall i | 0 <= i < |reps| :: Paths(reps)[i] == reps[i].path
  {
    if reps != [] {
      PathsSpec(reps[..|reps| - 1]);
    }
  }

  lemma {:induction false} PathsAppend(a: seq<Report>, b: seq<Report>)
    ensures Paths(a + b) == Paths(a) + Paths(b)
    decreases |b|
  {
    if b == [] {
      assert a + b == a;
    } else {
      assert (a + b)[..|a + b| - 1] == a + b[..|b| - 1];
      PathsAppend(a, b[..|b| - 1]);
    }
  }

  /** The labelling the snapshot code leaves behind (cfgtool.cpp:268-287):
      addresses and values of every word. The labels, which the C code leaves
      uninitialised, are given the "unvisited" values. */
  function Captured(spans: seq<Span>, memory: seq<seq<u64>>): (g: Grid)
    requires |memory| == |spans|
    requires forall r | 0 <= r < |spans| :: |memory[r]| == spans[r].size / WORD
    ensures Shaped(spans, g)
    ensures forall r, j | 0 <= r < |g| && 0 <= j < |g[r]| :: g[r][j].value == memory[r][j]
  {
    seq(|spans|, r requires 0 <= r < |spans| =>
      seq(|memory[r]|, j requires 0 <= j < |memory[r]| =>
        Cell(spans[r].base + WORD * j, memory[r][j], None, None, UNVISITED, UNVISITED)))
  }

  // ---------------------------------------------------------------------
  // The size of resultbuf
  // ---------------------------------------------------------------------

  /** main allocates resultbuf with `maxoffset` entries (cfgtool.cpp:220), and
      printresult writes one entry per line of the chain. */
  predicate FitsAsAllocated(path: seq<Step>, maxOffset: u32) {
    |path| <= maxOffset as int
  }

  /** One region of two words, the first pointing at the second; the first
      word is the start and the second the goal, with `maxhops` 2 and
      `maxoffset` 0. The one round prints a chain of two lines, which does not
      fit in a buffer of `maxoffset` entries. */
  lemma ResultBufOverflow()
    ensures var spans := [Span(0x1000, 16)];
      var o := Search(spans, Captured(spans, [[0x1008, 0]]), 0x1000, 0x1008, 0x1008, 0x1010, 2, 0);
      && o.Finished? && |o.reports| == 1
      && |o.reports[0].path| == 2 && !FitsAsAllocated(o.reports[0].path, 0)
  {
    var spans: seq<Span> := [Span(0x1000, 16)];
    var g := Captured(spans, [[0x1008, 0]]);
    ExampleSeed();
    var h := Seed(spans, g, 0x1000, 0x1008, 0x1008, 0x1010);
    SeededWf(h);
    ExampleRound();
    assert Rounds(h, 1, 0).reports == Round(h, 0).reports;
  }

  const ExampleStart := Cell(0x1000, 0x1008, Some(Ref(0, 1)), None, 0, 0)
  const ExampleGoal := Cell(0x1008, 0, None, None, GOAL_PENDING, GOAL_PENDING)

  /** The snapshot of the example after the preliminary analysis. */
  lemma ExamplePrepared()
    ensures var spans: seq<Span> := [Span(0x1000, 16)];
      Prepare(spans, Captured(spans, [[0x1008, 0]])) == ExampleUnlabelled
  {
    var spans: seq<Span> := [Span(0x1000, 16)];
    var g := Captured(spans, [[0x1008, 0]]);
    assert g[0][0] == Cell(0x1000, 0x1008, None, None, UNVISITED, UNVISITED);
    assert g[0][1] == Cell(0x1008, 0, None, None, UNVISITED, UNVISITED);
    assert PtrTarget(spans, 0x1008) == Some(Ref(0, 1));
    assert PtrTarget(spans, 0) == None;
    var g0: Grid := Prepare(spans, g);
    assert |g0| == 1 && |g0[0]| == 2;
    assert g0[0][0] == Get(g0, Ref(0, 0)) == PrepareCell(spans, g[0][0]);
    assert g0[0][1] == Get(g0, Ref(0, 1)) == PrepareCell(spans, g[0][1]);
    assert g0[0][0] == ExampleUnlabelled[0][0];
    assert g0[0][1] == ExampleUnlabelled[0][1];
    assert g0[0] == ExampleUnlabelled[0];
  }

  const ExampleUnlabelled: Grid :=
    [[ExampleStart.(hops := UNVISITED, offset := UNVISITED), ExampleGoal.(hops := UNVISITED, offset := UNVISITED)]]

  /** Marking the start word and then the goal word. */
  lemma ExampleMarked()
    ensures Touched(ExampleUnlabelled, 0x1000, 0x1008)
    ensures Touched(Mark(ExampleUnlabelled, 0x1000, 0x1008, 0, 0), 0x1008, 0x1010)
    ensures Mark(Mark(ExampleUnlabelled, 0x1000, 0x1008, 0, 0), 0x1008, 0x1010, GOAL_PENDING, GOAL_PENDING)
              == [[ExampleStart, ExampleGoal]]
  {
    var g0: Grid := ExampleUnlabelled;
    assert Hit(0x1000, 0x1000, 0x1008) && !Hit(0x1008, 0x1000, 0x1008);
    assert Hit(0x1008, 0x1008, 0x1010) && !Hit(0x1000, 0x1008, 0x1010);
    assert Hit(g0[0][0].address, 0x1000, 0x1008);
    var g1: Grid := Mark(g0, 0x1000, 0x1008, 0, 0);
    assert Hit(g1[0][1].address, 0x1008, 0x1010);
    var h: Grid := Mark(g1, 0x1008, 0x1010, GOAL_PENDING, GOAL_PENDING);
    assert |h| == 1 && |h[0]| == 2;
    assert g1[0][0] == ExampleStart;
    assert g1[0][1] == ExampleGoal.(hops := UNVISITED, offset := UNVISITED);
    assert h[0][0] == ExampleStart;
    assert h[0][1] == ExampleGoal;
    assert h[0] == [ExampleStart, ExampleGoal];
  }

  lemma ExampleSeed()
    ensures var spans: seq<Span> := [Span(0x1000, 16)];
      var g := Captured(spans, [[0x1008, 0]]);
      var g0 := Prepare(spans, g);
      && Touched(g0, 0x1000, 0x1008)
      && Touched(Mark(g0, 0x1000, 0x1008, 0, 0), 0x1008, 0x1010)
      && Seed(spans, g, 0x1000, 0x1008, 0x1008, 0x1010) == [[ExampleStart, ExampleGoal]]
  {
    ExamplePrepared();
    ExampleMarked();
  }

  lemma ExampleRound()
    ensures Seeded([[ExampleStart, ExampleGoal]])
    ensures var h := [[ExampleStart, ExampleGoal]];
      Wf(h) && Round(h, 0).reports == [Report(Ref(0, 1), ExamplePath)]
  {
    var h: Grid := [[ExampleStart, ExampleGoal]];
    SeededWf(h);
    assert OffsetPass(h, 0) == h by {
      assert OffsetRows(h, 1, 0) == OffsetRow(h, 0, 1, 0) == OffsetStep(h, 0, 0, 0) == h;
    }
    ExamplePtrPass();
  }

  const ExamplePath := [Step(0x1000, 0, 0x1000, 0x1008, false), Step(0x1008, 0, 0x1008, 0, true)]

  lemma ExamplePtrPass()
    ensures var h := [[ExampleStart, ExampleGoal]];
      Wf(h) && PtrPass(h).reports == [Report(Ref(0, 1), ExamplePath)]
  {
    var h: Grid := [[ExampleStart, ExampleGoal]];
    SeededWf(h);
    var t := Ref(0, 1);
    ExampleWalk();
    var h1 := PtrRelaxed(h, Ref(0, 0));
    var s0 := PtrStep(h, Ref(0, 0));
    assert s0.reports == [Report(t, ExamplePath)];
    assert s0.grid[0][1].ptr == None;
    assert PtrStep(s0.grid, t).reports == [];
    assert PtrRows(h, 1).reports == PtrRow(h, 0, 2).reports;
    assert PtrRow(h, 0, 1) == Scan(s0.grid, [Report(t, ExamplePath)]);
  }

  lemma ExampleWalk()
    ensures var h := [[ExampleStart, ExampleGoal]];
      Wf(h) && PtrRelaxes(h, Ref(0, 0)) && Walk(PtrRelaxed(h, Ref(0, 0)), Ref(0, 1), true) == ExamplePath
  {
    var h: Grid := [[ExampleStart, ExampleGoal]];
    SeededWf(h);
    PtrRelaxKeepsWf(h, Ref(0, 0));
    var h1 := PtrRelaxed(h, Ref(0, 0));
    assert |h1| == 1 && |h1[0]| == 2 && h1[0][0] == ExampleStart;
    assert h1[0][1] == ExampleGoal.(hops := 1, offset := 0, rev := Some(Ref(0, 0)));
    assert Walk(h1, Ref(0, 0), false) == [ExamplePath[0]];
  }
}
