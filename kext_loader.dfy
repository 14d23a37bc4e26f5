/**
 * The user-space kernel-extension loader: page rounding, the translation of
 * exported segment permissions into Mach VM protections, and the parsers for
 * the segment header and the symbol table of an exported image file.
 *
 * Image file layout, all integers 8-byte little-endian:
 *   numsegments, then numsegments × (start, end, permissions),
 *   then the segment contents,
 *   then nsymbols, symbols_size and symbols_size bytes of
 *   nsymbols × (address, name bytes, 0x00).
 */
module KextLoader {
  import opened Util

  // ---------------------------------------------------------------------------
  // Page rounding (the page size is a parameter instead of `getpagesize()`)
  // ---------------------------------------------------------------------------

  /** Euclidean division has one quotient and one remainder. */
  lemma DivModUnique(x: int, d: int, q: int, m: int)
    requires d > 0 && 0 <= m < d && x == q * d + m
    ensures x / d == q && x % d == m
  {
    var k := q - x / d;
    assert k * d == x % d - m;
    assert k >= 1 ==> k * d >= d;
    assert k <= -1 ==> k * d <= -d;
  }

  /** `round_to_page_lower`: the page boundary at or below `n`. */
  function RoundToPageLower(n: u64, pageSize: u64): (r: u64)
    requires pageSize > 0
    ensures r % pageSize == 0
    ensures r <= n && n - r < pageSize
    ensures r == n <==> n % pageSize == 0
  {
    LowerFacts(n, pageSize);
    n - n % pageSize
  }

  lemma LowerFacts(n: nat, pageSize: nat)
    requires pageSize > 0
    ensures (n - n % pageSize) % pageSize == 0 && n % pageSize <= n
  {
    DivModUnique(n - n % pageSize, pageSize, n / pageSize, 0);
  }

  /** `round_to_page_upper`: the page boundary at or above `n`. The C sum is a
    * `uint64_t` and wraps when `n` lies in the last, partial page. */
  function RoundToPageUpper(n: u64, pageSize: u64): (r: u64)
    requires pageSize > 0
    ensures r == n <==> n % pageSize == 0
    ensures n % pageSize == 0 || n + (pageSize - n % pageSize) < TWO_64 ==>
              r % pageSize == 0 && n <= r && r - n < pageSize
    ensures n % pageSize != 0 && n + (pageSize - n % pageSize) >= TWO_64 ==> r < n
  {
    var m := n % pageSize;
    if m == 0 then n
    else
      UpperFacts(n, pageSize);
      (n + (pageSize - m)) % TWO_64
  }

  lemma UpperFacts(n: nat, pageSize: nat)
    requires pageSize > 0 && n % pageSize != 0
    ensures (n + (pageSize - n % pageSize)) % pageSize == 0
  {
    DivModUnique(n + (pageSize - n % pageSize), pageSize, n / pageSize + 1, 0);
  }

  /** The two roundings bracket `n`, and meet exactly when `n` is aligned. */
  lemma RoundingBrackets(n: u64, pageSize: u64)
    requires pageSize > 0 && n + pageSize <= TWO_64
    ensures RoundToPageLower(n, pageSize) <= n <= RoundToPageUpper(n, pageSize)
    ensures RoundToPageLower(n, pageSize) == RoundToPageUpper(n, pageSize) <==> n % pageSize == 0
    ensures RoundToPageUpper(n, pageSize) - RoundToPageLower(n, pageSize)
            == (if n % pageSize == 0 then 0 else pageSize)
  {
  }

  // ---------------------------------------------------------------------------
  // Protection flags
  // ---------------------------------------------------------------------------

  /** Permission bits of the exported segment table. */
  const SEGMENT_READ: bv64 := 4
  const SEGMENT_WRITE: bv64 := 2
  const SEGMENT_EXEC: bv64 := 1

  /** `vm_prot_t` bits of the Mach VM interface. */
  const VM_PROT_READ: bv32 := 1
  const VM_PROT_WRITE: bv32 := 2
  const VM_PROT_EXECUTE: bv32 := 4

  /** `mach_protection_flags`. */
  function MachProtectionFlags(segmentProtection: bv64): (r: bv32)
    ensures (r & VM_PROT_READ != 0) <==> (segmentProtection & SEGMENT_READ != 0)
    ensures (r & VM_PROT_WRITE != 0) <==> (segmentProtection & SEGMENT_WRITE != 0)
    ensures (r & VM_PROT_EXECUTE != 0) <==> (segmentProtection & SEGMENT_EXEC != 0)
    ensures r & !7 == 0
  {
    var read := if segmentProtection & SEGMENT_READ != 0 then VM_PROT_READ else 0;
    var write := if segmentProtection & SEGMENT_WRITE != 0 then VM_PROT_WRITE else 0;
    var exec := if segmentProtection & SEGMENT_EXEC != 0 then VM_PROT_EXECUTE else 0;
    read | write | exec
  }

  /** Only the three permission bits matter. */
  lemma ProtectionIgnoresOtherBits(segmentProtection: bv64)
    ensures MachProtectionFlags(segmentProtection) == MachProtectionFlags(segmentProtection & 7)
  {
    assert (segmentProtection & 7) & SEGMENT_READ == segmentProtection & SEGMENT_READ;
    assert (segmentProtection & 7) & SEGMENT_WRITE == segmentProtection & SEGMENT_WRITE;
    assert (segmentProtection & 7) & SEGMENT_EXEC == segmentProtection & SEGMENT_EXEC;
  }

  // ---------------------------------------------------------------------------
  // Little-endian integers
  // ---------------------------------------------------------------------------

  /** Bytes in a `uint64_t`. */
  const WIDTH: nat := 8

  function Pow256(n: nat): (r: nat)
    ensures r > 0
  {
    if n == 0 then 1 else 256 * Pow256(n - 1)
  }

  lemma Pow256Eight()
    ensures Pow256(WIDTH) == TWO_64
  {
    assert Pow256(2) == 0x1_0000;
    assert Pow256(4) == 0x1_0000_0000 by { assert Pow256(3) == 0x100_0000; }
    assert Pow256(6) == 0x1_0000_0000_0000 by { assert Pow256(5) == 0x100_0000_0000; }
    assert Pow256(7) == 0x100_0000_0000_0000;
  }

  /** The value of some bytes read least significant first. */
  function LittleEndian(b: seq<byte>): (r: nat)
    ensures r < Pow256(|b|)
  {
    if b == [] then 0 else b[0] + 256 * LittleEndian(b[1..])
  }

  /** The `n` bytes of `x`, least significant first (`to_bytes(n, 'little')`). */
  function LittleEndianBytes(x: nat, n: nat): (r: seq<byte>)
    ensures |r| == n
  {
    if n == 0 then [] else [x % 256] + LittleEndianBytes(x / 256, n - 1)
  }

  lemma {:induction false} LittleEndianOfBytes(x: nat, n: nat)
    requires x < Pow256(n)
    ensures LittleEndian(LittleEndianBytes(x, n)) == x
    decreases n
  {
    if n > 0 {
      var b := LittleEndianBytes(x, n);
      assert b[1..] == LittleEndianBytes(x / 256, n - 1);
      LittleEndianOfBytes(x / 256, n - 1);
    }
  }

  lemma {:induction false} BytesOfLittleEndian(b: seq<byte>)
    ensures LittleEndianBytes(LittleEndian(b), |b|) == b
    decreases |b|
  {
    if b != [] {
      BytesOfLittleEndian(b[1..]);
      assert LittleEndian(b) % 256 == b[0];
      assert LittleEndian(b) / 256 == LittleEndian(b[1..]);
    }
  }

  /** A `uint64_t` read in place from `b` at offset `p`. */
  function Read64(b: seq<byte>, p: nat): u64
    requires p + 8 <= |b|
  {
    Pow256Eight();
    LittleEndian(b[p..p + 8])
  }

  /** `x.to_bytes(8, byteorder='little')`. */
  function Bytes64(x: u64): (r: seq<byte>)
    ensures |r| == 8
  {
    LittleEndianBytes(x, WIDTH)
  }

  /** Reading eight bytes back gives the integer they were written from. */
  lemma ReadBack(b: seq<byte>, p: nat, x: u64)
    requires p + 8 <= |b| && b[p..p + 8] == Bytes64(x)
    ensures Read64(b, p) == x
  {
    Pow256Eight();
    LittleEndianOfBytes(x, WIDTH);
  }

  /** Eight bytes are the written form of the integer read from them. */
  lemma WrittenBack(b: seq<byte>, p: nat)
    requires p + 8 <= |b|
    ensures Bytes64(Read64(b, p)) == b[p..p + 8]
  {
    BytesOfLittleEndian(b[p..p + 8]);
  }

  // ---------------------------------------------------------------------------
  // Results
  // ---------------------------------------------------------------------------

  datatype LoadError =
    | NoSegments   // `load` prints "No segments" and returns NULL
    | Truncated    // the C code would read past the data it has

  datatype Result<T> = Success(value: T) | Failure(error: LoadError)

  // ---------------------------------------------------------------------------
  // Segment header
  // ---------------------------------------------------------------------------

  datatype Segment = Segment(start: u64, end: u64, permissions: u64)

  /** One 24-byte (start, end, permissions) record at byte `o`. */
  function RecordAt(file: seq<byte>, o: nat): Segment
    requires o + 24 <= |file|
  {
    Segment(Read64(file, o), Read64(file, o + 8), Read64(file, o + 16))
  }

  /** The segment table at the head of an image file. When fewer than eight
    * bytes can be read the count keeps its initial zero. */
  function SegmentsSpec(file: seq<byte>): Result<seq<Segment>> {
    if |file| < 8 then Failure(NoSegments)
    else
      var n := Read64(file, 0);
      if n == 0 then Failure(NoSegments)
      else if |file| < 8 + 24 * n then Failure(Truncated)
      else Success(seq(n, i requires 0 <= i < n => RecordAt(file, 8 + 24 * i)))
  }

  function EncodeSegment(s: Segment): (r: seq<byte>)
    ensures |r| == 24
  {
    Bytes64(s.start) + Bytes64(s.end) + Bytes64(s.permissions)
  }

  lemma RecordOfEncoded(file: seq<byte>, o: nat, s: Segment)
    requires o + 24 <= |file| && file[o..o + 24] == EncodeSegment(s)
    ensures RecordAt(file, o) == s
  {
    Concat3(Bytes64(s.start), Bytes64(s.end), Bytes64(s.permissions));
    SliceOfSlice(file, o, 24, 0, 8);
    SliceOfSlice(file, o, 24, 8, 16);
    SliceOfSlice(file, o, 24, 16, 24);
    ReadBack(file, o, s.start);
    ReadBack(file, o + 8, s.end);
    ReadBack(file, o + 16, s.permissions);
  }

  /** The header as the exporter writes it. */
  function EncodeSegments(segments: seq<Segment>): (r: seq<byte>)
    requires |segments| < TWO_64
    ensures |r| == 8 + 24 * |segments|
  {
    Bytes64(|segments|) + EncodeSegmentRecords(segments)
  }

  function EncodeSegmentRecords(segments: seq<Segment>): (r: seq<byte>)
    ensures |r| == 24 * |segments|
  {
    if segments == [] then [] else EncodeSegment(segments[0]) + EncodeSegmentRecords(segments[1..])
  }

  /** Record `i` of the written table sits at byte `24 * i`. */
  lemma {:induction false} SegmentRecordAt(segments: seq<Segment>, i: nat)
    requires i < |segments|
    ensures EncodeSegmentRecords(segments)[24 * i..24 * i + 24] == EncodeSegment(segments[i])
    decreases i
  {
    if i > 0 {
      SegmentRecordAt(segments[1..], i - 1);
      var tail := EncodeSegmentRecords(segments[1..]);
      assert EncodeSegmentRecords(segments)[24 * i..24 * i + 24] == tail[24 * (i - 1)..24 * (i - 1) + 24];
    }
  }

  /** Reading back a written header, whatever follows it, gives the same
    * segments; an empty table is refused. */
  lemma SegmentsRoundTrip(segments: seq<Segment>, rest: seq<byte>)
    requires |segments| < TWO_64
    ensures segments != [] ==> SegmentsSpec(EncodeSegments(segments) + rest) == Success(segments)
    ensures segments == [] ==> SegmentsSpec(EncodeSegments(segments) + rest) == Failure(NoSegments)
  {
    var file := EncodeSegments(segments) + rest;
    assert file[0..8] == Bytes64(|segments|);
    ReadBack(file, 0, |segments|);
    if segments != [] {
      var parsed := SegmentsSpec(file).value;
      assert |parsed| == |segments|;
      forall i | 0 <= i < |segments|
        ensures parsed[i] == segments[i]
      {
        SegmentTableRecord(segments, rest, i);
        assert parsed[i] == RecordAt(file, 8 + 24 * i);
      }
      assert parsed == segments;
    }
  }

  lemma SegmentTableRecord(segments: seq<Segment>, rest: seq<byte>, i: nat)
    requires |segments| < TWO_64 && i < |segments|
    ensures var file := EncodeSegments(segments) + rest;
            8 + 24 * i + 24 <= |file| && RecordAt(file, 8 + 24 * i) == segments[i]
  {
    var file := EncodeSegments(segments) + rest;
    var e := EncodeSegmentRecords(segments);
    SegmentRecordAt(segments, i);
    assert file[8 + 24 * i..8 + 24 * i + 24] == e[24 * i..24 * i + 24];
    RecordOfEncoded(file, 8 + 24 * i, segments[i]);
  }

  /** Lines 93-106 of `load`: read the count, refuse zero segments, then fill
    * the segment array one record at a time. */
  method ReadSegments(file: seq<byte>) returns (r: Result<seq<Segment>>)
    ensures r == SegmentsSpec(file)
  {
    if |file| < 8 {
      return Failure(NoSegments);
    }
    var numSegments: nat := Read64(file, 0);
    if numSegments == 0 {
      return Failure(NoSegments);
    }
    if |file| < 8 + 24 * numSegments {
      return Failure(Truncated);
    }
    var segments := new Segment[numSegments];
    for i := 0 to numSegments
      invariant forall k | 0 <= k < i :: segments[k] == RecordAt(file, 8 + 24 * k)
    {
      var start := Read64(file, 8 + 24 * i);
      var end := Read64(file, 16 + 24 * i);
      var permissions := Read64(file, 24 + 24 * i);
      segments[i] := Segment(start, end, permissions);
    }
    assert segments[..] == SegmentsSpec(file).value;
    r := Success(segments[..]);
  }

  // ---------------------------------------------------------------------------
  // Symbol table
  // ---------------------------------------------------------------------------

  datatype Symbol = Symbol(address: u64, name: seq<byte>)

  /** `strlen` from `p`: the first NUL at or after `p`, if the data holds one. */
  function NulFrom(b: seq<byte>, p: nat): (r: Option<nat>)
    ensures r.Some? ==> p <= r.value < |b| && b[r.value] == 0
    decreases |b| - p
  {
    if p >= |b| then None
    else if b[p] == 0 then Some(p)
    else NulFrom(b, p + 1)
  }

  /** The NUL found is the first one, and none is found only when there is
    * none. */
  lemma {:induction false} NulFromFirst(b: seq<byte>, p: nat)
    ensures NulFrom(b, p).Some? ==> forall k | p <= k < NulFrom(b, p).value :: b[k] != 0
    ensures NulFrom(b, p).None? ==> forall k | p <= k < |b| :: b[k] != 0
    decreases |b| - p
  {
    if p < |b| && b[p] != 0 {
      NulFromFirst(b, p + 1);
    }
  }

  /** Prefix the entries already read to the result of reading the rest. */
  function AfterEntries(done: seq<Symbol>, rest: Result<seq<Symbol>>): Result<seq<Symbol>> {
    match rest
    case Success(more) => Success(done + more)
    case Failure(e) => Failure(e)
  }

  lemma AfterEntriesAssoc(a: seq<Symbol>, b: seq<Symbol>, rest: Result<seq<Symbol>>)
    ensures AfterEntries(a, AfterEntries(b, rest)) == AfterEntries(a + b, rest)
  {
    if rest.Success? {
      assert a + (b + rest.value) == (a + b) + rest.value;
    }
  }

  /** The `n` entries of the symbol blob starting at byte `p`. */
  function ParseEntries(blob: seq<byte>, p: nat, n: nat): Result<seq<Symbol>>
    decreases n
  {
    if n == 0 then Success([])
    else if |blob| < p + 8 then Failure(Truncated)
    else match NulFrom(blob, p + 8)
      case None => Failure(Truncated)
      case Some(e) => AfterEntries([Symbol(Read64(blob, p), blob[p + 8..e])], ParseEntries(blob, e + 1, n - 1))
  }

  /** One step of the parse, once the name's NUL is known. */
  lemma ParseEntriesStep(blob: seq<byte>, p: nat, n: nat, e: nat, s: Symbol)
    requires n > 0 && p + 8 <= |blob| && NulFrom(blob, p + 8) == Some(e)
    requires s == Symbol(Read64(blob, p), blob[p + 8..e])
    ensures ParseEntries(blob, p, n) == AfterEntries([s], ParseEntries(blob, e + 1, n - 1))
  {
  }

  /** The symbol section: count, byte size, then the blob. */
  function SymbolsSpec(section: seq<byte>): Result<seq<Symbol>> {
    if |section| < 16 then Failure(Truncated)
    else
      var n := Read64(section, 0);
      var size := Read64(section, 8);
      if |section| < 16 + size then Failure(Truncated)
      else ParseEntries(section[16..16 + size], 0, n)
  }

  /** `symbol_table[name] = addr` over the entries in order: a repeated name
    * keeps its last address. */
  function TableOf(symbols: seq<Symbol>): map<seq<byte>, u64> {
    if symbols == [] then map[]
    else
      var last := symbols[|symbols| - 1];
      TableOf(symbols[..|symbols| - 1])[last.name := last.address]
  }

  function TableResult(parsed: Result<seq<Symbol>>): Result<map<seq<byte>, u64>> {
    match parsed
    case Success(symbols) => Success(TableOf(symbols))
    case Failure(e) => Failure(e)
  }

  /** A name is in the table exactly when some entry carries it, and then it
    * maps to the address of the last such entry. */
  lemma {:induction false} TableOfLastWins(symbols: seq<Symbol>, name: seq<byte>)
    ensures name in TableOf(symbols) <==> exists i | 0 <= i < |symbols| :: symbols[i].name == name
    ensures forall i | 0 <= i < |symbols| && symbols[i].name == name
                       && (forall j | i < j < |symbols| :: symbols[j].name != name) ::
              name in TableOf(symbols) && TableOf(symbols)[name] == symbols[i].address
    decreases |symbols|
  {
    if symbols != [] {
      var init := symbols[..|symbols| - 1];
      TableOfLastWins(init, name);
      assert forall i | 0 <= i < |init| :: init[i] == symbols[i];
    }
  }

  /** `get_symbol_address`: the stored address, or `None` where the C code
    * prints an error and exits. */
  function GetSymbolAddress(table: map<seq<byte>, u64>, name: seq<byte>): (r: Option<u64>)
    ensures r.Some? <==> name in table
    ensures r.Some? ==> table[name] == r.value
  {
    if name in table then Some(table[name]) else None
  }

  /** What a lookup in a parsed table finds: the address of the last entry of
    * that name, or nothing when no entry has it. */
  lemma LookupFindsLastEntry(symbols: seq<Symbol>, name: seq<byte>, i: nat)
    requires i < |symbols| && symbols[i].name == name
    requires forall j | i < j < |symbols| :: symbols[j].name != name
    ensures GetSymbolAddress(TableOf(symbols), name) == Some(symbols[i].address)
  {
    TableOfLastWins(symbols, name);
  }

  lemma LookupMissing(symbols: seq<Symbol>, name: seq<byte>)
    requires forall j | 0 <= j < |symbols| :: symbols[j].name != name
    ensures GetSymbolAddress(TableOf(symbols), name) == None
  {
    TableOfLastWins(symbols, name);
  }

  /** One entry as the exporter writes it. */
  function EncodeSymbol(s: Symbol): (r: seq<byte>)
    ensures |r| == 9 + |s.name|
  {
    Bytes64(s.address) + s.name + [0]
  }

  function EncodeSymbols(symbols: seq<Symbol>): seq<byte> {
    if symbols == [] then [] else EncodeSymbol(symbols[0]) + EncodeSymbols(symbols[1..])
  }

  /** The whole symbol section as the exporter writes it. */
  function EncodeSymbolSection(symbols: seq<Symbol>): (r: seq<byte>)
    requires |symbols| < TWO_64 && |EncodeSymbols(symbols)| < TWO_64
    ensures |r| == 16 + |EncodeSymbols(symbols)| && r[16..] == EncodeSymbols(symbols)
  {
    Bytes64(|symbols|) + Bytes64(|EncodeSymbols(symbols)|) + EncodeSymbols(symbols)
  }

  predicate NulFree(name: seq<byte>) {
    forall k | 0 <= k < |name| :: name[k] != 0
  }

  lemma Concat3(a: seq<byte>, b: seq<byte>, c: seq<byte>)
    ensures (a + b + c)[..|a|] == a
    ensures (a + b + c)[|a|..|a| + |b|] == b
    ensures (a + b + c)[|a| + |b|..] == c
  {
  }

  lemma SliceOfSlice(s: seq<byte>, o: nat, len: nat, i: nat, j: nat)
    requires o + len <= |s| && i <= j <= len
    ensures s[o..o + len][i..j] == s[o + i..o + j]
  {
    assert forall k | o + i <= k < o + j :: s[o..o + len][i..j][k - o - i] == s[k];
  }

  /** One written entry, found at `p`, parses back to that entry. */
  lemma EntryAt(blob: seq<byte>, p: nat, s: Symbol)
    requires NulFree(s.name)
    requires p + 9 + |s.name| <= |blob| && blob[p..p + 9 + |s.name|] == EncodeSymbol(s)
    ensures Read64(blob, p) == s.address
    ensures NulFrom(blob, p + 8) == Some(p + 8 + |s.name|)
    ensures blob[p + 8..p + 8 + |s.name|] == s.name
  {
    var len := 9 + |s.name|;
    var e := p + 8 + |s.name|;
    Concat3(Bytes64(s.address), s.name, [0]);
    SliceOfSlice(blob, p, len, 0, 8);
    SliceOfSlice(blob, p, len, 8, 8 + |s.name|);
    ReadBack(blob, p, s.address);
    assert blob[e] == EncodeSymbol(s)[8 + |s.name|];
    assert forall k | p + 8 <= k < e :: blob[k] == s.name[k - p - 8];
    NulFromIs(blob, p + 8, e);
  }

  /** Entry parsing undoes entry writing, wherever the entries sit. */
  lemma {:induction false} ParseEncodedEntries(blob: seq<byte>, p: nat, symbols: seq<Symbol>)
    requires NamesNulFree(symbols)
    requires p + |EncodeSymbols(symbols)| <= |blob|
    requires blob[p..p + |EncodeSymbols(symbols)|] == EncodeSymbols(symbols)
    ensures ParseEntries(blob, p, |symbols|) == Success(symbols)
    decreases |symbols|
  {
    if symbols != [] {
      var s := symbols[0];
      var more := EncodeSymbols(symbols[1..]);
      assert EncodeSymbols(symbols) == EncodeSymbol(s) + more;
      assert NamesNulFree(symbols[1..]) && NulFree(s.name) by {
        assert forall i | 1 <= i < |symbols| :: symbols[1..][i - 1] == symbols[i];
      }
      var q := EncodedHead(blob, p, s, more, |symbols|);
      ParseEncodedEntries(blob, q, symbols[1..]);
      assert symbols == [s] + symbols[1..];
    }
  }

  /** An entry written at `p` and followed by `more` parses back, and `more`
    * starts at the returned offset. */
  lemma EncodedHead(blob: seq<byte>, p: nat, s: Symbol, more: seq<byte>, n: nat) returns (q: nat)
    requires n > 0 && NulFree(s.name)
    requires p + |EncodeSymbol(s) + more| <= |blob|
    requires blob[p..p + |EncodeSymbol(s) + more|] == EncodeSymbol(s) + more
    ensures q + |more| <= |blob| && blob[q..q + |more|] == more
    ensures ParseEntries(blob, p, n) == AfterEntries([s], ParseEntries(blob, q, n - 1))
  {
    var e := EncodedEntry(blob, p, s, more);
    ParseEntriesStep(blob, p, n, e, s);
    q := e + 1;
  }

  /** The fields of an entry written at `p`, and where the bytes after it start. */
  lemma EncodedEntry(blob: seq<byte>, p: nat, s: Symbol, more: seq<byte>) returns (e: nat)
    requires NulFree(s.name)
    requires p + |EncodeSymbol(s) + more| <= |blob|
    requires blob[p..p + |EncodeSymbol(s) + more|] == EncodeSymbol(s) + more
    ensures p + 8 <= |blob| && NulFrom(blob, p + 8) == Some(e)
    ensures s == Symbol(Read64(blob, p), blob[p + 8..e])
    ensures e + 1 + |more| <= |blob| && blob[e + 1..e + 1 + |more|] == more
  {
    WrittenPair(blob, p, EncodeSymbol(s), more);
    EntryAt(blob, p, s);
    e := p + 8 + |s.name|;
  }

  /** Where `w + more` is written, `w` and then `more` are. */
  lemma WrittenPair(blob: seq<byte>, p: nat, w: seq<byte>, more: seq<byte>)
    requires p + |w + more| <= |blob| && blob[p..p + |w + more|] == w + more
    ensures blob[p..p + |w|] == w
    ensures blob[p + |w|..p + |w| + |more|] == more
  {
    SliceOfSlice(blob, p, |w + more|, 0, |w|);
    SliceOfSlice(blob, p, |w + more|, |w|, |w + more|);
    assert (w + more)[..|w|] == w;
    assert (w + more)[|w|..] == more;
  }

  lemma {:induction false} NulFromIs(b: seq<byte>, p: nat, e: nat)
    requires p <= e < |b| && b[e] == 0 && forall k | p <= k < e :: b[k] != 0
    ensures NulFrom(b, p) == Some(e)
    decreases e - p
  {
    if p < e {
      NulFromIs(b, p + 1, e);
    }
  }

  /** Round trip: the loader reads back exactly the entries the exporter
    * wrote, in order, as long as no name holds a NUL byte. */
  lemma SymbolsRoundTrip(symbols: seq<Symbol>, rest: seq<byte>)
    requires |symbols| < TWO_64 && |EncodeSymbols(symbols)| < TWO_64
    requires NamesNulFree(symbols)
    ensures SymbolsSpec(EncodeSymbolSection(symbols) + rest) == Success(symbols)
  {
    var body := EncodeSymbols(symbols);
    SectionCounts(symbols, rest);
    assert body[0..|body|] == body;
    ParseEncodedEntries(body, 0, symbols);
  }

  /** The two counts of a written section read back, and the blob follows. */
  lemma SectionCounts(symbols: seq<Symbol>, rest: seq<byte>)
    requires |symbols| < TWO_64 && |EncodeSymbols(symbols)| < TWO_64
    ensures var section := EncodeSymbolSection(symbols) + rest;
            var size := |EncodeSymbols(symbols)|;
            && 16 + size <= |section|
            && Read64(section, 0) == |symbols| && Read64(section, 8) == size
            && section[16..16 + size] == EncodeSymbols(symbols)
  {
    var body := EncodeSymbols(symbols);
    var section := EncodeSymbolSection(symbols) + rest;
    assert section == Bytes64(|symbols|) + Bytes64(|body|) + (body + rest);
    Concat3(Bytes64(|symbols|), Bytes64(|body|), body + rest);
    ReadBack(section, 0, |symbols|);
    ReadBack(section, 8, |body|);
  }

  /** Conversely, whatever parses is exactly the written form of its entries:
    * every entry consumes its eight address bytes, its name and one NUL. */
  lemma {:induction false} ParsedIsEncoded(blob: seq<byte>, p: nat, n: nat, symbols: seq<Symbol>)
    requires p <= |blob| && ParseEntries(blob, p, n) == Success(symbols)
    ensures |symbols| == n && NamesNulFree(symbols)
    ensures p + |EncodeSymbols(symbols)| <= |blob|
    ensures blob[p..p + |EncodeSymbols(symbols)|] == EncodeSymbols(symbols)
    decreases n
  {
    if n > 0 {
      var e := NulFrom(blob, p + 8).value;
      var s := Symbol(Read64(blob, p), blob[p + 8..e]);
      ParseEntriesStep(blob, p, n, e, s);
      var rest := ParseEntries(blob, e + 1, n - 1).value;
      ParsedIsEncoded(blob, e + 1, n - 1, rest);
      assert symbols == [s] + rest;
      EntryWritten(blob, p, e);
      ConsWritten(blob, p, s, rest);
    }
  }

  predicate NamesNulFree(symbols: seq<Symbol>) {
    forall i | 0 <= i < |symbols| :: NulFree(symbols[i].name)
  }

  /** An entry written before the written rest is the written whole. */
  lemma ConsWritten(blob: seq<byte>, p: nat, s: Symbol, rest: seq<Symbol>)
    requires NulFree(s.name) && NamesNulFree(rest)
    requires p + |EncodeSymbol(s)| + |EncodeSymbols(rest)| <= |blob|
    requires blob[p..p + |EncodeSymbol(s)|] == EncodeSymbol(s)
    requires blob[p + |EncodeSymbol(s)|..p + |EncodeSymbol(s)| + |EncodeSymbols(rest)|] == EncodeSymbols(rest)
    ensures NamesNulFree([s] + rest)
    ensures EncodeSymbols([s] + rest) == EncodeSymbol(s) + EncodeSymbols(rest)
    ensures blob[p..p + |EncodeSymbols([s] + rest)|] == EncodeSymbols([s] + rest)
  {
    var symbols := [s] + rest;
    assert symbols[0] == s && symbols[1..] == rest;
    var a := |EncodeSymbol(s)|;
    var b := |EncodeSymbols(rest)|;
    assert blob[p..p + a + b] == blob[p..p + a] + blob[p + a..p + a + b];
    assert forall i | 1 <= i < |symbols| :: symbols[i] == rest[i - 1];
  }

  /** The bytes an entry was read from are its written form. */
  lemma EntryWritten(blob: seq<byte>, p: nat, e: nat)
    requires p + 8 <= e < |blob| && NulFrom(blob, p + 8) == Some(e)
    ensures NulFree(blob[p + 8..e])
    ensures blob[p..e + 1] == EncodeSymbol(Symbol(Read64(blob, p), blob[p + 8..e]))
  {
    WrittenBack(blob, p);
    NulFromFirst(blob, p + 8);
    assert blob[p..e + 1] == blob[p..p + 8] + blob[p + 8..e] + [blob[e]];
  }

  /** The loop state of `ReadSymbols`: the entries read so far, followed by
    * the parse of the `unread` entries at `p`, make up the whole parse. */
  predicate ReadSoFar(blob: seq<byte>, done: seq<Symbol>, p: nat, unread: nat, whole: Result<seq<Symbol>>) {
    AfterEntries(done, ParseEntries(blob, p, unread)) == whole
  }

  /** Reading one more entry moves it from the unread rest to the entries
    * already read. */
  lemma ParseProgress(blob: seq<byte>, done: seq<Symbol>, p: nat, k: nat, e: nat, whole: Result<seq<Symbol>>)
    requires k > 0 && p + 8 <= |blob| && NulFrom(blob, p + 8) == Some(e)
    requires ReadSoFar(blob, done, p, k, whole)
    ensures ReadSoFar(blob, done + [Symbol(Read64(blob, p), blob[p + 8..e])], e + 1, k - 1, whole)
  {
    ParseEntriesStep(blob, p, k, e, Symbol(Read64(blob, p), blob[p + 8..e]));
    AfterEntriesAssoc(done, [Symbol(Read64(blob, p), blob[p + 8..e])], ParseEntries(blob, e + 1, k - 1));
  }

  /** Storing one more entry is one more map update. */
  lemma TableAppend(done: seq<Symbol>, s: Symbol)
    ensures TableOf(done + [s]) == TableOf(done)[s.name := s.address]
  {
    assert (done + [s])[..|done|] == done;
  }

  /** An entry whose address or name runs past the blob makes the whole
    * parse fail as truncated. */
  lemma ParseStops(blob: seq<byte>, done: seq<Symbol>, p: nat, k: nat, whole: Result<seq<Symbol>>)
    requires k > 0 && (|blob| < p + 8 || NulFrom(blob, p + 8).None?)
    requires ReadSoFar(blob, done, p, k, whole)
    ensures whole == Failure(Truncated)
  {
  }

  /** Lines 157-174 of `load`: read the count and byte size, then walk the blob
    * with a cursor, storing each address under its name. */
  method ReadSymbols(section: seq<byte>) returns (r: Result<map<seq<byte>, u64>>)
    ensures r == TableResult(SymbolsSpec(section))
  {
    if |section| < 16 {
      return Failure(Truncated);
    }
    var nsymbols: nat := Read64(section, 0);
    var symbolsSize: nat := Read64(section, 8);
    if |section| < 16 + symbolsSize {
      return Failure(Truncated);
    }
    var blob := section[16..16 + symbolsSize];
    var p: nat := 0;
    var table := map[];
    ghost var done: seq<Symbol> := [];
    ghost var whole := ParseEntries(blob, 0, nsymbols);
    assert whole == SymbolsSpec(section);
    ghost var unread := nsymbols;
    assert ReadSoFar(blob, [], 0, nsymbols, whole) by {
      if whole.Success? {
        assert [] + whole.value == whole.value;
      }
    }
    for i := 0 to nsymbols
      invariant unread == nsymbols - i
      invariant ReadSoFar(blob, done, p, unread, whole)
      invariant table == TableOf(done)
    {
      if |blob| < p + 8 {
        ParseStops(blob, done, p, unread, whole);
        return Failure(Truncated);
      }
      var address := Read64(blob, p);
      var nameEnd := NulFrom(blob, p + 8);
      if nameEnd.None? {
        ParseStops(blob, done, p, unread, whole);
        return Failure(Truncated);
      }
      var e := nameEnd.value;
      var name := blob[p + 8..e];
      ParseProgress(blob, done, p, unread, e, whole);
      TableAppend(done, Symbol(address, name));
      p := e + 1;
      unread := unread - 1;
      table := table[name := address];
      done := done + [Symbol(address, name)];
    }
    assert done + [] == done;
    assert ReadSoFar(blob, done, p, 0, whole);
    r := Success(table);
  }
}
