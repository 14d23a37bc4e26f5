/**
 * The rtpdump replayer: it splits a capture into its text header and the
 * payloads of its packet records, in file order.
 *
 * Capture layout: a text line ending in a newline, a 16-byte binary file
 * header, then records of an 8-byte header (2-byte record length, 2-byte
 * big-endian payload length, 4-byte time offset) followed by the payload.
 *
 * The script is written in Python, so its slices clamp and accept a negative
 * end, and an index past the end raises `IndexError` and ends the run.
 */
module RtpReplay {
  import opened Util

  type u16 = x: int | 0 <= x < 0x1_0000

  const NEWLINE: byte := 10

  /** Bytes from the newline to the first record: the newline and the file header. */
  const FILE_HEADER: nat := 4 * 4

  // ---------------------------------------------------------------------------
  // Python byte-string primitives
  // ---------------------------------------------------------------------------

  /** `bytes.find(b"\n")`: the first newline's index, or -1. */
  function FindNewline(dump: seq<byte>): (r: int)
    ensures -1 <= r < |dump|
    ensures r == -1 <==> NEWLINE !in dump
    ensures r >= 0 ==> dump[r] == NEWLINE && NEWLINE !in dump[..r]
  {
    FindNewlineFrom(dump, 0)
  }

  function FindNewlineFrom(dump: seq<byte>, i: nat): (r: int)
    requires i <= |dump|
    requires NEWLINE !in dump[..i]
    ensures -1 <= r < |dump|
    ensures r == -1 <==> NEWLINE !in dump
    ensures r >= 0 ==> i <= r && dump[r] == NEWLINE && NEWLINE !in dump[..r]
    decreases |dump| - i
  {
    if i == |dump| then
      assert dump[..i] == dump;
      -1
    else if dump[i] == NEWLINE then i
    else
      assert dump[..i + 1] == dump[..i] + [dump[i]];
      FindNewlineFrom(dump, i + 1)
  }

  /** A Python slice bound: a negative one counts from the end, then it is clamped. */
  function SliceBound(len: nat, x: int): (r: nat)
    ensures r <= len
    ensures 0 <= x <= len ==> r == x
    ensures x < 0 && -x <= len ==> r == len + x
  {
    if x < 0 then (if len + x < 0 then 0 else len + x)
    else if x > len then len
    else x
  }

  /** `s[lo:hi]`. */
  function PySlice(s: seq<byte>, lo: int, hi: int): (r: seq<byte>)
    ensures |r| <= |s|
    ensures 0 <= lo <= hi <= |s| ==> r == s[lo..hi]
    ensures 0 <= lo <= |s| <= hi ==> r == s[lo..]
    ensures |s| <= lo ==> r == []
    ensures lo == 0 && hi == -1 && |s| > 0 ==> r == s[..|s| - 1]
  {
    var a := SliceBound(|s|, lo);
    var b := SliceBound(|s|, hi);
    if a < b then s[a..b] else []
  }

  // ---------------------------------------------------------------------------
  // What one run of the script emits
  // ---------------------------------------------------------------------------

  /** The payloads sent, in order, and whether the loop ran to its end
    * (`false` when a record header reaches past the end and the read raises). */
  datatype Trace = Trace(packets: seq<seq<byte>>, complete: bool)

  datatype Replay = Replay(header: seq<byte>, trace: Trace)

  /** The big-endian payload length in the record header at `r`. */
  function PacketLength(dump: seq<byte>, r: nat): (n: u16)
    requires r + 3 < |dump|
  {
    (dump[r + 2] as int) * 256 + dump[r + 3]
  }

  /** Where the record after the one at `r` starts. */
  function NextRecord(dump: seq<byte>, r: nat): (n: nat)
    requires r + 3 < |dump|
    ensures n >= r + 8 && n - r - 8 < 0x1_0000
  {
    r + 8 + PacketLength(dump, r)
  }

  /** The payload of the record at `r`, cut short by the end of the capture. */
  function PacketAt(dump: seq<byte>, r: nat): seq<byte>
    requires r + 3 < |dump|
  {
    PySlice(dump, r + 8, NextRecord(dump, r))
  }

  /** The records from offset `r` to the end of the capture. */
  function RecordsFrom(dump: seq<byte>, r: nat): Trace
    decreases |dump| - r
  {
    if r >= |dump| then Trace([], true)
    else if r + 3 >= |dump| then Trace([], false)
    else After([PacketAt(dump, r)], RecordsFrom(dump, NextRecord(dump, r)))
  }

  /** `done` sent first, then `t`. */
  function After(done: seq<seq<byte>>, t: Trace): Trace {
    Trace(done + t.packets, t.complete)
  }

  /** The script's first record offset: the newline index plus 17. */
  function FirstRecord(dump: seq<byte>): (r: nat)
    ensures NEWLINE in dump ==> r == FindNewline(dump) + 1 + FILE_HEADER
    ensures NEWLINE !in dump ==> r == FILE_HEADER
  {
    FindNewline(dump) + FILE_HEADER + 1
  }

  /** Lines 16-31 of the script as a value. */
  function ReplaySpec(dump: seq<byte>): Replay {
    Replay(PySlice(dump, 0, FindNewline(dump)), RecordsFrom(dump, FirstRecord(dump)))
  }

  /** The script's loop. */
  method ReplayDump(dump: seq<byte>) returns (r: Replay)
    ensures r == ReplaySpec(dump)
  {
    var ind := FindNewline(dump);
    var header := PySlice(dump, 0, ind);
    ind := ind + 4 * 4 + 1;
    var packets: seq<seq<byte>> := [];
    ghost var first: nat := ind;
    while ind < |dump|
      invariant ind >= 0 && SentSoFar(dump, packets, ind, first)
      decreases |dump| - ind
    {
      ghost var record: nat := ind;
      ind := ind + 2;
      if ind + 1 >= |dump| {
        CutRecordHeader(dump, record);
        return Replay(header, Trace(packets, false));
      }
      var plen := (dump[ind] as int) * 256 + dump[ind + 1];
      ind := ind + 6;
      var packet := PySlice(dump, ind, ind + plen);
      SendProgress(dump, packets, record, first);
      packets := packets + [packet];
      ind := ind + plen;
    }
    return Replay(header, Trace(packets, true));
  }

  /** The loop invariant: `packets` sent, then the records from `ind`, make up
    * the records from `first`. */
  predicate SentSoFar(dump: seq<byte>, packets: seq<seq<byte>>, ind: nat, first: nat) {
    After(packets, RecordsFrom(dump, ind)) == RecordsFrom(dump, first)
  }

  lemma SendProgress(dump: seq<byte>, packets: seq<seq<byte>>, r: nat, first: nat)
    requires r + 3 < |dump| && SentSoFar(dump, packets, r, first)
    ensures SentSoFar(dump, packets + [PacketAt(dump, r)], NextRecord(dump, r), first)
  {
    var t := RecordsFrom(dump, NextRecord(dump, r));
    RecordStep(dump, r);
    assert packets + ([PacketAt(dump, r)] + t.packets) == (packets + [PacketAt(dump, r)]) + t.packets;
  }

  lemma RecordStep(dump: seq<byte>, r: nat)
    requires r + 3 < |dump|
    ensures RecordsFrom(dump, r) == After([PacketAt(dump, r)], RecordsFrom(dump, NextRecord(dump, r)))
  {
  }

  // ---------------------------------------------------------------------------
  // Properties
  // ---------------------------------------------------------------------------

  /** Records advance by at least 8 bytes and start inside the capture, so the
    * number of packets is bounded by the bytes left after `r`. */
  lemma {:induction false} PacketCount(dump: seq<byte>, r: nat)
    ensures |RecordsFrom(dump, r).packets| == 0 || 8 * (|RecordsFrom(dump, r).packets| - 1) < |dump| - r
    decreases |dump| - r
  {
    if r < |dump| && r + 3 < |dump| {
      PacketCount(dump, NextRecord(dump, r));
    }
  }

  /** A record whose header is cut after fewer than 4 bytes ends the run early,
    * after everything before it has been sent. */
  lemma CutRecordHeader(dump: seq<byte>, r: nat)
    requires r < |dump| <= r + 3
    ensures RecordsFrom(dump, r) == Trace([], false)
  {
  }

  /** A capture without a newline: the header shown is all but its last byte
    * (`find` returns -1), and the records are read from offset 16. */
  lemma MissingNewline(dump: seq<byte>)
    requires NEWLINE !in dump && |dump| > 0
    ensures ReplaySpec(dump).header == dump[..|dump| - 1]
    ensures ReplaySpec(dump).trace == RecordsFrom(dump, FILE_HEADER)
  {
  }

  /** A record of an rtpdump file. The replayer reads only the payload length
    * and the payload. */
  datatype Record = Record(length: u16, offset: u32, payload: seq<byte>)

  predicate Encodable(recs: seq<Record>) {
    forall i | 0 <= i < |recs| :: |recs[i].payload| < 0x1_0000
  }

  function BigEndian16(x: u16): (r: seq<byte>)
    ensures |r| == 2 && (r[0] as int) * 256 + r[1] == x
  {
    [x / 256, x % 256]
  }

  function BigEndian32(x: u32): (r: seq<byte>)
    ensures |r| == 4
  {
    BigEndian16(x / 0x1_0000) + BigEndian16(x % 0x1_0000)
  }

  function EncodeRecord(rec: Record): (r: seq<byte>)
    requires |rec.payload| < 0x1_0000
    ensures |r| == 8 + |rec.payload| && r[8..] == rec.payload
    ensures (r[2] as int) * 256 + r[3] == |rec.payload|
  {
    BigEndian16(rec.length) + BigEndian16(|rec.payload|) + BigEndian32(rec.offset) + rec.payload
  }

  function EncodeRecords(recs: seq<Record>): seq<byte>
    requires Encodable(recs)
  {
    if recs == [] then [] else EncodeRecord(recs[0]) + EncodeRecords(recs[1..])
  }

  function Payloads(recs: seq<Record>): (r: seq<seq<byte>>)
    ensures |r| == |recs| && forall i | 0 <= i < |recs| :: r[i] == recs[i].payload
  {
    if recs == [] then [] else [recs[0].payload] + Payloads(recs[1..])
  }

  /** A capture: the text line, its newline, the 16-byte file header, the records. */
  function EncodeDump(header: seq<byte>, fileHeader: seq<byte>, recs: seq<Record>): (r: seq<byte>)
    requires Encodable(recs)
  {
    header + [NEWLINE] + fileHeader + EncodeRecords(recs)
  }

  /** Every record of a well-formed capture is emitted, in file order, and the
    * run reaches the end of the file. */
  lemma ReplayRoundTrip(header: seq<byte>, fileHeader: seq<byte>, recs: seq<Record>)
    requires NEWLINE !in header && |fileHeader| == FILE_HEADER && Encodable(recs)
    ensures ReplaySpec(EncodeDump(header, fileHeader, recs)) == Replay(header, Trace(Payloads(recs), true))
  {
    var dump := EncodeDump(header, fileHeader, recs);
    var w := header + [NEWLINE] + fileHeader;
    assert dump[..|header|] == header;
    assert dump[|header|] == NEWLINE;
    assert NEWLINE !in dump[..|header|];
    assert FindNewline(dump) == |header|;
    assert dump[|w|..] == EncodeRecords(recs);
    RecordsOfEncoded(dump, |w|, recs);
  }

  lemma {:induction false} RecordsOfEncoded(dump: seq<byte>, p: nat, recs: seq<Record>)
    requires Encodable(recs) && p <= |dump| && dump[p..] == EncodeRecords(recs)
    ensures RecordsFrom(dump, p) == Trace(Payloads(recs), true)
    decreases recs
  {
    if recs == [] {
      assert p == |dump|;
    } else {
      var head := EncodeRecord(recs[0]);
      SplitRecords(recs);
      RecordOfEncoded(dump, p, head, EncodeRecords(recs[1..]), recs[0]);
      RecordStep(dump, p);
      RecordsOfEncoded(dump, p + |head|, recs[1..]);
    }
  }

  /** The first record's encoding and payload, then the rest's. */
  lemma SplitRecords(recs: seq<Record>)
    requires Encodable(recs) && recs != []
    ensures Encodable(recs[1..])
    ensures EncodeRecords(recs) == EncodeRecord(recs[0]) + EncodeRecords(recs[1..])
    ensures Payloads(recs) == [recs[0].payload] + Payloads(recs[1..])
  {
    forall i | 0 <= i < |recs[1..]| ensures |recs[1..][i].payload| < 0x1_0000 {
      assert recs[1..][i] == recs[i + 1];
    }
  }

  /** The record at `p` yields its payload, and the next record starts after it. */
  lemma RecordOfEncoded(dump: seq<byte>, p: nat, head: seq<byte>, more: seq<byte>, rec: Record)
    requires |rec.payload| < 0x1_0000 && head == EncodeRecord(rec)
    requires p <= |dump| && dump[p..] == head + more
    ensures p + 3 < |dump| && NextRecord(dump, p) == p + |head|
    ensures PacketAt(dump, p) == rec.payload
    ensures dump[p + |head|..] == more
  {
    assert dump[p + 2] == head[2] && dump[p + 3] == head[3];
    assert dump[p + 8..p + |head|] == head[8..];
    assert dump[p + |head|..] == (head + more)[|head|..];
  }
}
