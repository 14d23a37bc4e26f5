/**
 * The imperative model of JITServer/cfgtool.cpp. Each region keeps its
 * `struct location` records in place in an array, and the passes update
 * those records one at a time. A `location *` is written as the `Ref`
 * (region, index) of the record it addresses. A ghost labelling `cells`
 * mirrors the arrays, and every method is proved to move `cells` exactly as
 * the corresponding function of CfgModel does.
 */
module CfgTool {
  import opened Util
  import opened CfgModel

  /** `struct region`. */
  datatype Region = Region(baseAddress: nat, size: nat, data: array<Cell>)

  /** What main leaves on standard output after the snapshot: one of the two
      error messages of lines 323-331, or the chains printresult printed. */
  datatype Printout = NoStart | NoGoal | Chains(paths: seq<seq<Step>>)

  /** The chains a search outcome stands for, as main prints them. */
  function Printed(o: Outcome): (p: Printout)
    ensures o.StartNotMapped? <==> p.NoStart?
    ensures o.GoalNotMapped? <==> p.NoGoal?
    ensures o.Finished? ==> p == Chains(Paths(o.reports))
  {
    match o
    case StartNotMapped => NoStart
    case GoalNotMapped => NoGoal
    case Finished(_, reports) => Chains(Paths(reports))
  }

  /** The globals of cfgtool.cpp after the snapshot has been read. */
  class Snapshot {
    const regions: seq<Region>
    const minAddress: nat
    const maxAddress: int
    ghost const spans: seq<Span>
    ghost const Tables: set<array<Cell>>
    ghost var cells: Grid

    /** The layout: regions, their bounds and their record arrays, one array
        per region; none of it changes after the snapshot is read. */
    ghost predicate Layout() {
      && |regions| == |spans|
      && WfSpans(spans)
      && minAddress == MinAddress(spans) && maxAddress == MaxAddress(spans)
      && (forall r | 0 <= r < |regions| ::
            && regions[r].baseAddress == spans[r].base && regions[r].size == spans[r].size
            && regions[r].data in Tables && regions[r].data.Length == spans[r].size / WORD)
      && (forall r, r' | 0 <= r < r' < |regions| :: regions[r].data != regions[r'].data)
    }

    /** The arrays hold exactly the labelling `cells`. */
    ghost predicate Valid()
      reads this, Tables
    {
      && Layout()
      && |cells| == |regions|
      && forall r {:trigger regions[r].data} | 0 <= r < |regions| :: regions[r].data[..] == cells[r]
    }

    /** The records of one region, as lines 280-284 fill them in. The labels,
        which the C code leaves uninitialised, are "unvisited". */
    static method NewLocations(base: nat, words: seq<u64>) returns (a: array<Cell>)
      ensures fresh(a) && a.Length == |words|
      ensures forall j | 0 <= j < |words| ::
                a[j] == Cell(base + WORD * j, words[j], None, None, UNVISITED, UNVISITED)
    {
      a := new Cell[|words|](_ => Cell(0, 0, None, None, UNVISITED, UNVISITED));
      for j := 0 to |words|
        invariant forall k | 0 <= k < j :: a[k] == Cell(base + WORD * k, words[k], None, None, UNVISITED, UNVISITED)
        invariant forall k | j <= k < |words| :: a[k] == Cell(0, 0, None, None, UNVISITED, UNVISITED)
      {
        a[j] := a[j].(value := words[j], address := base + WORD * j);
      }
    }

    /** The records of every region (cfgtool.cpp:268-287). */
    static method ReadRegions(spans: seq<Span>, memory: seq<seq<u64>>)
      returns (rs: seq<Region>, ghost tables: set<array<Cell>>)
      requires |memory| == |spans|
      requires forall r | 0 <= r < |spans| :: |memory[r]| == spans[r].size / WORD
      ensures fresh(tables) && |rs| == |spans|
      ensures forall r | 0 <= r < |rs| ::
                && rs[r].baseAddress == spans[r].base && rs[r].size == spans[r].size
                && rs[r].data in tables && rs[r].data.Length == spans[r].size / WORD
                && rs[r].data[..] == Captured(spans, memory)[r]
      ensures forall r, r' | 0 <= r < r' < |rs| :: rs[r].data != rs[r'].data
    {
      rs := [];
      tables := {};
      ghost var g := Captured(spans, memory);
      for i := 0 to |spans|
        invariant |rs| == i && fresh(tables)
        invariant forall r | 0 <= r < i ::
                    && rs[r].baseAddress == spans[r].base && rs[r].size == spans[r].size
                    && rs[r].data in tables && rs[r].data.Length == spans[r].size / WORD
                    && rs[r].data[..] == g[r]
        invariant forall r, r' | 0 <= r < r' < i :: rs[r].data != rs[r'].data
      {
        var data := NewLocations(spans[i].base, memory[i]);
        assert data[..] == g[i];
        rs := rs + [Region(spans[i].base, spans[i].size, data)];
        tables := tables + {data};
      }
    }

    /** Reading the snapshot: one record per 8-byte word of every region, and
        the address bounds of lines 290-291. */
    constructor (spans: seq<Span>, memory: seq<seq<u64>>)
      requires WfSpans(spans) && |memory| == |spans|
      requires forall r | 0 <= r < |spans| :: |memory[r]| == spans[r].size / WORD
      ensures Valid() && fresh(Tables)
      ensures this.spans == spans && cells == Captured(spans, memory)
    {
      var rs;
      ghost var tables;
      rs, tables := ReadRegions(spans, memory);
      regions := rs;
      minAddress := rs[0].baseAddress;
      maxAddress := rs[|rs| - 1].baseAddress + rs[|rs| - 1].size - 1;
      this.spans := spans;
      Tables := tables;
      cells := Captured(spans, memory);
    }

    /** findregion: binary search over the sorted regions. */
    method FindRegion(address: int) returns (found: Option<nat>)
      requires Layout()
      ensures found == RegionContaining(spans, address)
      ensures address < minAddress || address > maxAddress ==> found.None?
    {
      RegionContainingSpec(spans, address);
      PtrTargetSpec(spans, address);
      if address < minAddress { return None; }
      if address > maxAddress { return None; }
      var l := 0;
      var r := |regions| - 1;
      while l <= r
        invariant 0 <= l <= |regions| && -1 <= r < |regions| && l <= r + 1
        invariant forall k | 0 <= k < l :: !InSpan(spans[k], address)
        invariant forall k | r < k < |regions| :: !InSpan(spans[k], address)
        invariant forall k | 0 <= k < l :: address > spans[k].base + spans[k].size - 1
        invariant forall k | r < k < |regions| :: address < spans[k].base
        decreases r - l
      {
        var m := (l + r) / 2;
        if address > regions[m].baseAddress + regions[m].size - 1 {
          forall k | 0 <= k <= m ensures address > spans[k].base + spans[k].size - 1 {
            if k < m { assert spans[k].base + spans[k].size <= spans[m].base; }
          }
          l := m + 1;
        } else if address < regions[m].baseAddress {
          forall k | m <= k < |regions| ensures address < spans[k].base {
            if m < k { assert spans[m].base + spans[m].size <= spans[k].base; }
          }
          r := m - 1;
        } else {
          assert InSpan(spans[m], address);
          return Some(m);
        }
      }
      return None;
    }

    /** findlocation: the record of the word whose slot holds `address`. */
    method FindLocation(address: int) returns (loc: Option<Ref>)
      requires Layout()
      ensures loc == LocationOf(spans, address)
    {
      var r := FindRegion(address);
      if r.None? { return None; }
      var k := r.value;
      loc := Some(Ref(k, (address - regions[k].baseAddress) / WORD));
    }

    /** The record at `q`, read through its region's array. */
    method Load(q: Ref) returns (c: Cell)
      requires Valid() && ValidRef(cells, q)
      ensures c == Get(cells, q)
    {
      assert regions[q.region].data[..] == cells[q.region];
      c := regions[q.region].data[q.index];
    }

    /** The field writes a pass makes to the record at `q`, as a unit. */
    method Store(q: Ref, c: Cell)
      requires Valid() && ValidRef(cells, q)
      modifies this, regions[q.region].data
      ensures Valid() && cells == Set(old(cells), q, c)
    {
      var data := regions[q.region].data;
      assert data[..] == cells[q.region];
      data[q.index] := c;
      cells := Set(cells, q, c);
      forall r | 0 <= r < |regions| ensures regions[r].data[..] == cells[r] {
        if r != q.region {
          assert regions[r].data != data;
        }
      }
    }

    /** The preliminary analysis for one record (cfgtool.cpp:302-315). */
    method PrepareLocation(q: Ref)
      requires Valid() && ValidRef(cells, q)
      modifies this, Tables
      ensures Valid()
      ensures cells == Set(old(cells), q, PrepareCell(spans, Get(old(cells), q)))
    {
      var c := Load(q);
      var v := c.value;
      var target: Option<Ref> := None;
      PtrTargetSpec(spans, v);
      if v < minAddress || v > maxAddress {
        target := None;
      } else {
        var k := FindRegion(v);
        if k.Some? {
          target := Some(Ref(k.value, (v - regions[k.value].baseAddress) / WORD));
        }
      }
      Store(q, c.(hops := UNVISITED, offset := UNVISITED, rev := None, ptr := target));
    }

    /** The preliminary analysis of main (cfgtool.cpp:299-318): clear every
        label and back-reference, and give each word whose value lies in a
        region a pointer to the record of that value. */
    method Prepare()
      requires Valid()
      modifies this, Tables
      ensures Valid() && cells == CfgModel.Prepare(spans, old(cells))
    {
      ghost var g0 := cells;
      for i := 0 to |regions|
        invariant Valid() && SameShape(g0, cells)
        invariant forall r, k | 0 <= r < |g0| && 0 <= k < |g0[r]| ::
                    cells[r][k] == if r < i then PrepareCell(spans, g0[r][k]) else g0[r][k]
      {
        for j := 0 to regions[i].size / WORD
          invariant Valid() && SameShape(g0, cells)
          invariant forall r, k | 0 <= r < |g0| && 0 <= k < |g0[r]| ::
                      cells[r][k] == if r < i || (r == i && k < j) then PrepareCell(spans, g0[r][k]) else g0[r][k]
        {
          PrepareLocation(Ref(i, j));
        }
      }
      GridExt(cells, CfgModel.Prepare(spans, g0));
    }

    /** One visit of markaddressrange: label the record at `q`, whose slot
        holds `address`. */
    method MarkAt(ghost g0: Grid, lo: nat, hi: nat, hopsValue: u32, offsetValue: u32, address: nat, q: Ref)
      requires Valid() && Shaped(spans, g0)
      requires Visited(lo, address) && address < hi
      requires cells == Mark(g0, lo, address, hopsValue, offsetValue)
      requires q.region < |spans| && q.index < spans[q.region].size / WORD
      requires spans[q.region].base + WORD * q.index <= address < spans[q.region].base + WORD * q.index + WORD
      modifies this, Tables
      ensures Valid()
      ensures cells == Mark(g0, lo, Min(address + WORD, hi), hopsValue, offsetValue)
    {
      MarkStep(spans, g0, lo, address, Min(address + WORD, hi), hopsValue, offsetValue, q);
      var c := Load(q);
      Store(q, c.(hops := hopsValue, offset := offsetValue));
    }

    /** The inner loop of markaddressrange over region `k`, entered at a
        visited address inside it: label one word per visited address until
        the region or the range ends. */
    method MarkRegion(ghost g0: Grid, lo: nat, hi: nat, hopsValue: u32, offsetValue: u32, k: nat, address0: nat)
      returns (address: nat, ghost n: nat)
      requires Valid() && Shaped(spans, g0) && k < |regions| && InSpan(spans[k], address0)
      requires Visited(lo, address0) && address0 < hi
      requires cells == Mark(g0, lo, address0, hopsValue, offsetValue)
      modifies this, Tables
      ensures Valid()
      ensures 0 < n && address == address0 + WORD * n && address < hi + WORD
      ensures cells == Mark(g0, lo, Min(address, hi), hopsValue, offsetValue)
      ensures Touched(g0, lo, Min(address, hi))
    {
      address := address0;
      var base := regions[k].baseAddress;
      var i := (address - base) / WORD;
      var endIndex := regions[k].size / WORD;
      ghost var first := Ref(k, i);
      ghost var d := address0 - (base + WORD * i);
      assert 0 <= d < WORD && i < endIndex;
      n := 0;
      // The inner loop of the C code, whose `break` on `address >= maxaddress`
      // is folded into the guard: the first test of that guard always passes.
      while i < endIndex && address < hi
        invariant Valid()
        invariant i <= endIndex && address == base + WORD * i + d && address == address0 + WORD * n
        invariant address < hi + WORD
        invariant cells == Mark(g0, lo, Min(address, hi), hopsValue, offsetValue)
        decreases endIndex - i
      {
        NextVisited(lo, address0, n, address);
        MarkAt(g0, lo, hi, hopsValue, offsetValue, address, Ref(k, i));
        address := address + WORD;
        i := i + 1;
        n := n + 1;
      }
      assert Get(g0, first).address == base + WORD * first.index;
      SlotHitAt(Get(g0, first).address, lo, address0);
      TouchedBy(g0, lo, Min(address, hi), Min(address, hi), first);
    }

    /** One iteration of the outer loop of markaddressrange, at visited
        address `address0`: step over an unmapped word, or run the inner loop
        over the region that holds it. */
    method MarkVisit(ghost g0: Grid, lo: nat, hi: nat, hopsValue: u32, offsetValue: u32, address0: nat)
      returns (address: nat, hit: bool)
      requires Valid() && Shaped(spans, g0)
      requires Visited(lo, address0) && address0 < hi
      requires cells == Mark(g0, lo, address0, hopsValue, offsetValue)
      modifies this, Tables
      ensures Valid()
      ensures address0 < address < hi + WORD && Visited(lo, address)
      ensures cells == Mark(g0, lo, Min(address, hi), hopsValue, offsetValue)
      ensures Touched(g0, lo, Min(address, hi)) == (hit || Touched(g0, lo, address0))
    {
      var k := FindRegion(address0);
      if k.None? {
        MarkSkip(spans, g0, lo, address0, Min(address0 + WORD, hi), hopsValue, offsetValue);
        address := address0 + WORD;
        NextVisited(lo, address0, 1, address);
        hit := false;
      } else {
        ghost var n;
        address, n := MarkRegion(g0, lo, hi, hopsValue, offsetValue, k.value, address0);
        NextVisited(lo, address0, n, address);
        hit := true;
      }
    }

    /** markaddressrange: visit the addresses `lo + 8t` below `hi`, give the
        word holding each one the label (`hopsValue`, `offsetValue`), and
        report whether any was labelled. */
    method MarkAddressRange(lo: u64, hi: u64, hopsValue: u32, offsetValue: u32) returns (ret: bool)
      requires Valid() && Shaped(spans, cells)
      requires MarkEnds(lo, hi)
      modifies this, Tables
      ensures Valid()
      ensures cells == Mark(old(cells), lo, hi, hopsValue, offsetValue)
      ensures ret == Touched(old(cells), lo, hi)
    {
      ghost var g0 := cells;
      MarkEmpty(g0, lo, Min(lo, hi), hopsValue, offsetValue);
      ret := false;
      var address: nat := lo;
      while address < hi
        invariant Valid()
        invariant Visited(lo, address) && address < TWO_64
        invariant cells == Mark(g0, lo, Min(address, hi), hopsValue, offsetValue)
        invariant ret == Touched(g0, lo, Min(address, hi))
        decreases hi - address
      {
        var hit;
        address, hit := MarkVisit(g0, lo, hi, hopsValue, offsetValue, address);
        MarkNoWrap(lo, hi, address);
        ret := ret || hit;
      }
    }

    // -------------------------------------------------------------------
    // propagateoffsets
    // -------------------------------------------------------------------

    /** One iteration of the inner loop of propagateoffsets: a live word `j`
        whose offset can grow by one more word passes its label on to word
        `j + 1` when that lowers its hops. */
    method OffsetVisit(maxOffset: u32, i: nat, j: nat)
      requires Valid() && Wf(cells) && i < |cells| && j + 1 < |cells[i]|
      modifies this, Tables
      ensures Valid() && cells == OffsetStep(old(cells), i, j, maxOffset)
    {
      var c := Load(Ref(i, j));
      if c.hops >= FROZEN {
        return;
      }
      if c.offset as int + WORD > maxOffset as int {
        return;
      }
      var next := Load(Ref(i, j + 1));
      if next.hops > c.hops {
        Store(Ref(i, j + 1), next.(offset := c.offset + WORD, hops := c.hops));
      }
    }

    /** The inner loop of propagateoffsets over region `i`. */
    method OffsetRegion(maxOffset: u32, i: nat)
      requires Valid() && Wf(cells) && i < |cells|
      modifies this, Tables
      ensures Valid() && cells == OffsetRow(old(cells), i, |old(cells)[i]| - 1, maxOffset)
    {
      ghost var gi := cells;
      var numlocs := regions[i].size / WORD;
      for j := 0 to numlocs - 1
        invariant Valid() && cells == OffsetRow(gi, i, j, maxOffset)
      {
        OffsetVisit(maxOffset, i, j);
      }
    }

    /** One iteration of the outer loop of propagateoffsets, after the
        regions before `i` produced `OffsetRows(g0, i, maxOffset)`. */
    method OffsetRegions(ghost g0: Grid, maxOffset: u32, i: nat)
      requires Valid() && Wf(g0) && i < |g0| && cells == OffsetRows(g0, i, maxOffset)
      modifies this, Tables
      ensures Valid() && cells == OffsetRows(g0, i + 1, maxOffset)
    {
      OffsetRegion(maxOffset, i);
    }

    /** propagateoffsets: every region, words 0 to numlocs - 2 in order. */
    method PropagateOffsets(maxOffset: u32)
      requires Valid() && Wf(cells)
      modifies this, Tables
      ensures Valid() && cells == OffsetPass(old(cells), maxOffset)
    {
      ghost var g0 := cells;
      for i := 0 to |regions|
        invariant Valid() && cells == OffsetRows(g0, i, maxOffset)
      {
        OffsetRegions(g0, maxOffset, i);
      }
    }

    // -------------------------------------------------------------------
    // printresult and propagatepointers
    // -------------------------------------------------------------------

    /** One iteration of the loop of printresult, at the record `w`: the
        result line for `w`, and the record the walk moves on to unless the
        run-origin of `w` is a start word. */
    method ResultLine(ghost whole: seq<Step>, ghost n: nat, w: Ref, goal: bool) returns (line: Step, next: Option<Ref>)
      requires Valid() && Wf(cells) && ValidRef(cells, w)
      requires Live(Get(cells, w)) || (Get(cells, w).offset == 0 && Get(cells, w).rev.Some?)
      requires !goal ==> Get(cells, w).ptr.Some?
      requires n <= |whole| && Walk(cells, w, goal) == whole[..n]
      ensures 0 < n && line == whole[n - 1]
      ensures next.None? <==> n == 1
      ensures next.Some? ==>
                && ValidRef(cells, next.value) && Live(Get(cells, next.value))
                && Get(cells, next.value).ptr.Some?
                && Get(cells, next.value).hops < Get(cells, w).hops
                && Walk(cells, next.value, false) == whole[..n - 1]
    {
      WalkSplit(cells, w, goal);
      var withOffset := Load(w);
      var index := w.index;
      var offset0 := Load(Ref(w.region, index - withOffset.offset / WORD));
      var dest := 0;
      if !goal {
        var pointee := Load(withOffset.ptr.value);
        dest := pointee.address;
      }
      line := Step(offset0.address, withOffset.offset, withOffset.address, dest, goal);
      if offset0.hops == 0 {
        next := None;
      } else {
        next := offset0.rev;
      }
    }

    /** The walking loop of printresult (lines 98-119): from the goal
        record at `t`, one result line per record of the chain, goal first.
        The buffer has room for `hops + 1` lines, which the walk never
        exceeds. */
    method FillResultBuf(t: Ref) returns (resultBuf: array<Step>, resultSize: nat)
      requires Valid() && Wf(cells) && ValidRef(cells, t)
      requires Live(Get(cells, t)) || (Get(cells, t).offset == 0 && Get(cells, t).rev.Some?)
      ensures fresh(resultBuf) && resultSize < resultBuf.Length
      ensures var whole := Walk(cells, t, true);
        && resultSize + 1 == |whole|
        && forall k | 0 <= k <= resultSize :: resultBuf[k] == whole[|whole| - 1 - k]
    {
      ghost var g := cells;
      ghost var whole := Walk(g, t, true);
      var last := Load(t);
      resultBuf := new Step[last.hops as int + 1](_ => Step(0, 0, 0, 0, false));
      var goal := true;
      resultSize := 0;
      var withOffset := t;
      while true
        invariant ValidRef(g, withOffset)
        invariant Live(Get(g, withOffset)) || (Get(g, withOffset).offset == 0 && Get(g, withOffset).rev.Some?)
        invariant !goal ==> Get(g, withOffset).ptr.Some?
        invariant resultSize < |whole| && Walk(g, withOffset, goal) == whole[..|whole| - resultSize]
        invariant BackFirst(resultBuf[..resultSize], whole)
        decreases Get(g, withOffset).hops
      {
        var line, next := ResultLine(whole, |whole| - resultSize, withOffset, goal);
        ghost var before := resultBuf[..resultSize];
        resultBuf[resultSize] := line;
        assert resultBuf[..resultSize + 1] == before + [line];
        BackFirstStep(before, whole, line);
        goal := false;
        if next.None? {
          break;
        }
        withOffset := next.value;
        resultSize := resultSize + 1;
      }
      assert BackFirst(resultBuf[..resultSize + 1], whole);
      assert cells == g && resultSize + 1 == |whole|;
      forall k | 0 <= k <= resultSize ensures resultBuf[k] == whole[|whole| - 1 - k] {
        assert resultBuf[..resultSize + 1][k] == resultBuf[k];
      }
    }

    /** `buf` holds the last `|buf|` entries of `whole`, last one first. */
    static ghost predicate BackFirst(buf: seq<Step>, whole: seq<Step>) {
      |buf| <= |whole| && forall k | 0 <= k < |buf| :: buf[k] == whole[|whole| - 1 - k]
    }

    /** Writing the next entry from the back extends the buffer. */
    static lemma BackFirstStep(buf: seq<Step>, whole: seq<Step>, x: Step)
      requires BackFirst(buf, whole) && |buf| < |whole| && x == whole[|whole| - 1 - |buf|]
      ensures BackFirst(buf + [x], whole)
    {
    }

    /** The printing loop of printresult (lines 120-126): the buffered lines
        from the last one written back to the first. */
    static method PrintLines(resultBuf: array<Step>, resultSize: nat) returns (lines: seq<Step>)
      requires resultSize < resultBuf.Length
      ensures |lines| == resultSize + 1
      ensures forall m | 0 <= m <= resultSize :: lines[m] == resultBuf[resultSize - m]
    {
      lines := [];
      for i := resultSize + 1 downto 0
        invariant |lines| == resultSize + 1 - i
        invariant forall m | 0 <= m < |lines| :: lines[m] == resultBuf[resultSize - m]
      {
        lines := lines + [resultBuf[i]];
      }
    }

    /** printresult: the chain that reached the goal record at `t`, start
        first. */
    method PrintResult(t: Ref) returns (path: seq<Step>)
      requires Valid() && Wf(cells) && ValidRef(cells, t)
      requires Live(Get(cells, t)) || (Get(cells, t).offset == 0 && Get(cells, t).rev.Some?)
      ensures path == Walk(cells, t, true)
    {
      var resultBuf, resultSize := FillResultBuf(t);
      path := PrintLines(resultBuf, resultSize);
    }

    /** One iteration of the inner loop of propagatepointers, for the record
        at `p`, with the chain printresult printed if a goal was reached. */
    method PointerVisit(p: Ref) returns (printed: seq<seq<Step>>)
      requires Valid() && Wf(cells) && ValidRef(cells, p)
      modifies this, Tables
      ensures Valid() && cells == PtrStep(old(cells), p).grid
      ensures printed == Paths(PtrStep(old(cells), p).reports)
    {
      ghost var g := cells;
      printed := [];
      var c := Load(p);
      if c.ptr.None? {
        return;
      }
      if c.hops >= FROZEN {
        return;
      }
      assert CellOk(g, p.region, p.index);
      var t := c.ptr.value;
      var target := Load(t);
      if target.hops as int > c.hops as int + 1 {
        var goal := target.hops == GOAL_PENDING;
        Store(t, target.(hops := c.hops + 1, offset := 0, rev := Some(p)));
        if goal {
          PtrRelaxKeepsWf(g, p);
          var path := PrintResult(t);
          printed := [path];
          var reached := Load(t);
          Store(t, reached.(hops := GOAL_REPORTED));
        }
      }
    }

    /** The inner loop of propagatepointers over region `i`. */
    method PointerRow(i: nat) returns (printed: seq<seq<Step>>)
      requires Valid() && Wf(cells) && i < |cells|
      modifies this, Tables
      ensures Valid() && cells == PtrRow(old(cells), i, |old(cells)[i]|).grid
      ensures printed == Paths(PtrRow(old(cells), i, |old(cells)[i]|).reports)
    {
      ghost var gi := cells;
      printed := [];
      var numlocs := regions[i].size / WORD;
      for j := 0 to numlocs
        invariant Valid() && cells == PtrRow(gi, i, j).grid
        invariant printed == Paths(PtrRow(gi, i, j).reports)
      {
        ghost var s0 := PtrRow(gi, i, j);
        var more := PointerVisit(Ref(i, j));
        PathsAppend(s0.reports, PtrStep(s0.grid, Ref(i, j)).reports);
        printed := printed + more;
      }
    }

    /** One iteration of the outer loop of propagatepointers, after the
        regions before `i` produced `PtrRows(g0, i)` and printed `before`. */
    method PointerRegion(ghost g0: Grid, i: nat, before: seq<seq<Step>>) returns (printed: seq<seq<Step>>)
      requires Valid() && Wf(g0) && i < |g0|
      requires cells == PtrRows(g0, i).grid && before == Paths(PtrRows(g0, i).reports)
      modifies this, Tables
      ensures Valid() && cells == PtrRows(g0, i + 1).grid
      ensures printed == Paths(PtrRows(g0, i + 1).reports)
    {
      ghost var s0 := PtrRows(g0, i);
      var more := PointerRow(i);
      PathsAppend(s0.reports, PtrRow(s0.grid, i, |s0.grid[i]|).reports);
      printed := before + more;
    }

    /** propagatepointers: every record of every region, in order. */
    method PropagatePointers() returns (printed: seq<seq<Step>>)
      requires Valid() && Wf(cells)
      modifies this, Tables
      ensures Valid() && cells == PtrPass(old(cells)).grid
      ensures printed == Paths(PtrPass(old(cells)).reports)
    {
      ghost var g0 := cells;
      printed := [];
      for i := 0 to |regions|
        invariant Valid() && cells == PtrRows(g0, i).grid
        invariant printed == Paths(PtrRows(g0, i).reports)
      {
        printed := PointerRegion(g0, i, printed);
      }
    }

    // -------------------------------------------------------------------
    // main
    // -------------------------------------------------------------------

    /** The state after `n` rounds from `g0`, with the chains printed so far. */
    ghost predicate RoundsRun(g0: Grid, n: nat, maxOffset: u32, printed: seq<seq<Step>>)
      reads this, Tables
    {
      && Wf(g0) && Valid()
      && cells == Rounds(g0, n, maxOffset).grid && printed == Paths(Rounds(g0, n, maxOffset).reports)
    }

    /** The loop body of main: propagateoffsets, then propagatepointers. */
    method RunRound(ghost g0: Grid, ghost n: nat, maxOffset: u32, before: seq<seq<Step>>)
      returns (printed: seq<seq<Step>>)
      requires RoundsRun(g0, n, maxOffset, before)
      modifies this, Tables
      ensures RoundsRun(g0, n + 1, maxOffset, printed)
    {
      ghost var s0 := Rounds(g0, n, maxOffset);
      PropagateOffsets(maxOffset);
      var more := PropagatePointers();
      PathsAppend(s0.reports, Round(s0.grid, maxOffset).reports);
      printed := before + more;
    }

    /** The loop counter `i` of main after `r` rounds: another round is due
        while `i < maxhops`, and once the test fails `RoundCount(maxhops)`
        rounds have run. */
    static lemma CountStep(i: int, r: nat, maxHops: u32)
      requires i == r + 1 && r <= RoundCount(maxHops)
      ensures i < maxHops as int ==> r + 1 <= RoundCount(maxHops)
      ensures !(i < maxHops as int) ==> r == RoundCount(maxHops)
    {
    }

    /** The loop of main, `for (i = 1; i < maxhops; i++)`: one round of
        offset propagation and pointer propagation for each `i`, so that
        `maxhops - 1` rounds run, and none when `maxhops` is 0 or 1. */
    method RunRounds(maxHops: u32, maxOffset: u32) returns (printed: seq<seq<Step>>)
      requires Valid() && Wf(cells)
      modifies this, Tables
      ensures Valid() && cells == Rounds(old(cells), RoundCount(maxHops), maxOffset).grid
      ensures printed == Paths(Rounds(old(cells), RoundCount(maxHops), maxOffset).reports)
    {
      ghost var g0 := cells;
      printed := [];
      var i := 1;
      ghost var r: nat := 0;
      CountStep(i, r, maxHops);
      while i < maxHops as int
        invariant i == r + 1 && r <= RoundCount(maxHops)
        invariant RoundsRun(g0, r, maxOffset, printed)
        invariant i < maxHops as int ==> r + 1 <= RoundCount(maxHops)
        invariant !(i < maxHops as int) ==> r == RoundCount(maxHops)
        decreases RoundCount(maxHops) - r
      {
        printed := RunRound(g0, r, maxOffset, printed);
        i := i + 1;
        r := r + 1;
        CountStep(i, r, maxHops);
      }
    }

    /** main after the snapshot is read: the preliminary analysis, the two
        markings with their error exits, and the rounds. */
    method Run(startLo: u64, startHi: u64, goalLo: u64, goalHi: u64, maxHops: u32, maxOffset: u32)
      returns (out: Printout)
      requires Valid() && Shaped(spans, cells)
      requires MarkEnds(startLo, startHi) && MarkEnds(goalLo, goalHi)
      modifies this, Tables
      ensures out == Printed(Search(spans, old(cells), startLo, startHi, goalLo, goalHi, maxHops, maxOffset))
      ensures Search(spans, old(cells), startLo, startHi, goalLo, goalHi, maxHops, maxOffset).Finished? ==>
                cells == Search(spans, old(cells), startLo, startHi, goalLo, goalHi, maxHops, maxOffset).grid
    {
      ghost var g := cells;
      Prepare();
      PrepareSeeded(spans, g);
      var mapped := MarkAddressRange(startLo, startHi, 0, 0);
      if !mapped {
        return NoStart;
      }
      MarkShaped(spans, CfgModel.Prepare(spans, g), startLo, startHi, 0, 0);
      mapped := MarkAddressRange(goalLo, goalHi, GOAL_PENDING, GOAL_PENDING);
      if !mapped {
        return NoGoal;
      }
      assert cells == Seed(spans, g, startLo, startHi, goalLo, goalHi);
      SeededWf(cells);
      var printed := RunRounds(maxHops, maxOffset);
      return Chains(printed);
    }
  }

  /** cfgtool.cpp from the snapshot on: read the regions `spans` with
      contents `memory`, then search from the start range for the goal
      range. */
  method Analyse(spans: seq<Span>, memory: seq<seq<u64>>, startLo: u64, startHi: u64, goalLo: u64, goalHi: u64,
                 maxHops: u32, maxOffset: u32) returns (out: Printout)
    requires WfSpans(spans) && |memory| == |spans|
    requires forall r | 0 <= r < |spans| :: |memory[r]| == spans[r].size / WORD
    requires MarkEnds(startLo, startHi) && MarkEnds(goalLo, goalHi)
    ensures out == Printed(Search(spans, Captured(spans, memory), startLo, startHi, goalLo, goalHi, maxHops, maxOffset))
  {
    var snapshot := new Snapshot(spans, memory);
    out := snapshot.Run(startLo, startHi, goalLo, goalHi, maxHops, maxOffset);
  }
}
