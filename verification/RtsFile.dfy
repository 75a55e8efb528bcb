/** The RTS file of slscore/TSFileTimeReader.cpp: a TS file cut into 1316-byte payloads, each behind a 64-bit
    timestamp on the 90 kHz clock. This file is the specification and what holds of it. */
module RtsFile {
  import opened Bytes
  import opened TsParser

  const RTS_PACK_LEN := 1324
  const RTS_BUF_SIZE := 1324 * 100
  const WRITER_QUEUE_SIZE := 1316 * 1000

  datatype Record = Record(rts: int, payload: seq<byte>)

  // ----- the writer

  /** The writer between two packets: the queue of packets not yet written, the clock of the last batch and the
      duration it gave each payload, the parser, and the records written. */
  datatype Writer = Writer(queue: seq<byte>, dts: int, duration: int, ti: TsState, records: seq<Record>)

  predicate SaneWriter(w: Writer) {
    WellSized(w.ti) && w.ti.dts == INVALID_DTS_PTS && |w.queue| % TS_PACK_LEN == 0
  }

  /** The first `k` payloads of the queue, `duration` apart from `rts` on. */
  function Batch(queue: seq<byte>, k: nat, rts: int, duration: int): (records: seq<Record>)
    requires k * TS_UDP_LEN <= |queue|
    ensures |records| == k
  {
    if k == 0 then []
    else [Record(rts, queue[..TS_UDP_LEN])] + Batch(queue[TS_UDP_LEN..], k - 1, rts + duration, duration)
  }

  /** One packet of the input; the first packet with a time stamp only starts the clock, every later one writes
      the whole payloads queued so far. */
  function WritePacket(w: Writer, packet: seq<byte>): (w': Writer)
    requires SaneWriter(w) && |packet| >= TS_PACK_LEN
    ensures SaneWriter(w')
  {
    var ti := ParsePacket(w.ti, packet).1;
    var timed :=
      if ti.dts == INVALID_DTS_PTS then w
      else if w.dts == INVALID_DTS_PTS then w.(dts := ti.dts)
      else Flush(w, ti.dts);
    timed.(queue := Appended(timed.queue, packet), ti := Quiet(ti))
  }

  function Appended(queue: seq<byte>, packet: seq<byte>): (r: seq<byte>)
    requires |queue| % TS_PACK_LEN == 0 && |packet| >= TS_PACK_LEN
    ensures |r| % TS_PACK_LEN == 0
  {
    queue + packet[..TS_PACK_LEN]
  }

  /** The parser once its time stamps have been used. */
  function Quiet(ti: TsState): TsState {
    if ti.dts == INVALID_DTS_PTS then ti else ti.(dts := INVALID_DTS_PTS, pts := INVALID_DTS_PTS)
  }

  /** Writes the whole payloads of the queue, spread evenly up to the time stamp `dts`. */
  function Flush(w: Writer, dts: int): (w': Writer)
    requires SaneWriter(w)
    ensures SaneWriter(w')
  {
    var k := |w.queue| / TS_UDP_LEN;
    if k == 0 then w
    else
      var duration := TruncDiv(dts - w.dts, k);
      Writer(w.queue[k * TS_UDP_LEN..], dts, duration, w.ti, w.records + Batch(w.queue, k, w.dts, duration))
  }

  /** The last payload: what remains of the queue, then a null packet header at each packet boundary, over bytes
      left from the payload before. */
  function Padded(rest: seq<byte>, before: seq<byte>): seq<byte>
    requires |rest| <= |before| == TS_UDP_LEN
  {
    seq(TS_UDP_LEN, i requires 0 <= i < TS_UDP_LEN =>
      if i < |rest| then rest[i]
      else if (i - |rest|) % TS_PACK_LEN == 0 then 0x47
      else if (i - |rest|) % TS_PACK_LEN == 1 then 0x1F
      else if (i - |rest|) % TS_PACK_LEN == 2 then 0xFF
      else before[i])
  }

  /** What is written at the end of the input: the whole payloads and, if there was one, the padded remainder. */
  function Finish(w: Writer): seq<Record> {
    Batch(w.queue, |w.queue| / TS_UDP_LEN, w.dts, w.duration) + Last(w)
  }

  function Last(w: Writer): (last: seq<Record>)
    ensures |last| <= 1
    ensures forall r :: r in last ==> r.rts == After(w.dts, |w.queue| / TS_UDP_LEN, w.duration)
  {
    var k := |w.queue| / TS_UDP_LEN;
    var rest := w.queue[k * TS_UDP_LEN..];
    if k == 0 || rest == [] then []
    else [Record(After(w.dts, k, w.duration), Padded(rest, w.queue[(k - 1) * TS_UDP_LEN..k * TS_UDP_LEN]))]
  }

  /** `rts` after `k` increments. */
  function After(rts: int, k: nat, duration: int): int
    decreases k
  {
    if k == 0 then rts else After(rts + duration, k - 1, duration)
  }

  function Start(ti: TsState): Writer {
    Writer([], INVALID_DTS_PTS, 0, ti, [])
  }

  function WriteAll(w: Writer, packets: seq<seq<byte>>): (w': Writer)
    requires SaneWriter(w) && (forall p :: p in packets ==> |p| >= TS_PACK_LEN)
    ensures SaneWriter(w')
  {
    if packets == [] then w
    else WritePacket(WriteAll(w, packets[..|packets| - 1]), packets[|packets| - 1])
  }

  function Generate(ti: TsState, packets: seq<seq<byte>>): seq<Record>
    requires SaneWriter(Start(ti)) && (forall p :: p in packets ==> |p| >= TS_PACK_LEN)
  {
    var w := WriteAll(Start(ti), packets);
    w.records + Finish(w)
  }

  /** Every state of the writer fits its queue, so that the queue never grows. */
  ghost predicate NeverGrows(ti: TsState, packets: seq<seq<byte>>)
    requires SaneWriter(Start(ti)) && (forall p :: p in packets ==> |p| >= TS_PACK_LEN)
  {
    forall i :: 0 <= i <= |packets| ==> |WriteAll(Start(ti), packets[..i]).queue| <= WRITER_QUEUE_SIZE
  }

  // ----- conservation

  function Payloads(records: seq<Record>): seq<byte> {
    if records == [] then [] else Payloads(records[..|records| - 1]) + records[|records| - 1].payload
  }

  function Input(packets: seq<seq<byte>>): seq<byte>
    requires forall p :: p in packets ==> |p| >= TS_PACK_LEN
  {
    if packets == [] then [] else Input(packets[..|packets| - 1]) + packets[|packets| - 1][..TS_PACK_LEN]
  }

  lemma {:induction false} PayloadsJoin(a: seq<Record>, b: seq<Record>)
    ensures Payloads(a + b) == Payloads(a) + Payloads(b)
  {
    if b == [] {
      assert a + b == a;
    } else {
      assert (a + b)[..|a + b| - 1] == a + b[..|b| - 1];
      PayloadsJoin(a, b[..|b| - 1]);
    }
  }

  lemma {:induction false} BatchPayloads(queue: seq<byte>, k: nat, rts: int, duration: int)
    requires k * TS_UDP_LEN <= |queue|
    ensures Payloads(Batch(queue, k, rts, duration)) == queue[..k * TS_UDP_LEN]
  {
    if k > 0 {
      var first := [Record(rts, queue[..TS_UDP_LEN])];
      BatchPayloads(queue[TS_UDP_LEN..], k - 1, rts + duration, duration);
      PayloadsJoin(first, Batch(queue[TS_UDP_LEN..], k - 1, rts + duration, duration));
      assert Payloads(first) == Payloads(first[..0]) + queue[..TS_UDP_LEN] == queue[..TS_UDP_LEN];
      assert queue[..k * TS_UDP_LEN] == queue[..TS_UDP_LEN] + queue[TS_UDP_LEN..][..(k - 1) * TS_UDP_LEN];
    }
  }

  lemma PacketConserves(w: Writer, packet: seq<byte>)
    requires SaneWriter(w) && |packet| >= TS_PACK_LEN
    ensures
      var w' := WritePacket(w, packet);
      Payloads(w'.records) + w'.queue == Payloads(w.records) + w.queue + packet[..TS_PACK_LEN]
  {
    hide ParsePacket, Payloads;
    var w' := WritePacket(w, packet);
    if w'.records != w.records {
      var k := |w.queue| / TS_UDP_LEN;
      BatchPayloads(w.queue, k, w.dts, w'.duration);
      PayloadsJoin(w.records, Batch(w.queue, k, w.dts, w'.duration));
      assert w.queue == w.queue[..k * TS_UDP_LEN] + w.queue[k * TS_UDP_LEN..];
    }
  }

  /** Before the end, the payloads written and the queue are the packets read, in order. */
  lemma {:induction false} WriterConserves(ti: TsState, packets: seq<seq<byte>>)
    requires SaneWriter(Start(ti)) && (forall p :: p in packets ==> |p| >= TS_PACK_LEN)
    ensures var w := WriteAll(Start(ti), packets); Payloads(w.records) + w.queue == Input(packets)
  {
    if packets != [] {
      var front := packets[..|packets| - 1];
      WriterConserves(ti, front);
      PacketConserves(WriteAll(Start(ti), front), packets[|packets| - 1]);
      var w := WriteAll(Start(ti), front);
      assert Payloads(w.records) + w.queue + packets[|packets| - 1][..TS_PACK_LEN]
        == Input(front) + packets[|packets| - 1][..TS_PACK_LEN];
    }
  }

  predicate WholePayloads(records: seq<Record>) {
    forall i :: 0 <= i < |records| ==> |records[i].payload| == TS_UDP_LEN
  }

  lemma {:induction false} BatchIsWhole(queue: seq<byte>, k: nat, rts: int, duration: int)
    requires k * TS_UDP_LEN <= |queue|
    ensures WholePayloads(Batch(queue, k, rts, duration))
  {
    if k > 0 {
      BatchIsWhole(queue[TS_UDP_LEN..], k - 1, rts + duration, duration);
    }
  }

  lemma {:induction false} WriterIsWhole(ti: TsState, packets: seq<seq<byte>>)
    requires SaneWriter(Start(ti)) && (forall p :: p in packets ==> |p| >= TS_PACK_LEN)
    ensures WholePayloads(WriteAll(Start(ti), packets).records)
  {
    if packets != [] {
      hide ParsePacket;
      var w := WriteAll(Start(ti), packets[..|packets| - 1]);
      var w' := WriteAll(Start(ti), packets);
      WriterIsWhole(ti, packets[..|packets| - 1]);
      BatchIsWhole(w.queue, |w.queue| / TS_UDP_LEN, w.dts, w'.duration);
    }
  }

  /** Null packet headers at every packet boundary. */
  ghost predicate NullHeaders(padding: seq<byte>) {
    forall j :: 0 <= j < |padding| && j % TS_PACK_LEN == 0 ==>
      j + 2 < |padding| && padding[j] == 0x47 && padding[j + 1] == 0x1F && padding[j + 2] == 0xFF
  }

  /** The file holds the packets of the input, in order, in whole payloads. If at least seven packets are queued at
      the end, all of them, then less than one payload of padding, a null packet header at each packet boundary;
      otherwise all but those queued, of which there are at most six. */
  lemma FileConservesInput(ti: TsState, packets: seq<seq<byte>>)
    requires SaneWriter(Start(ti)) && (forall p :: p in packets ==> |p| >= TS_PACK_LEN)
    ensures
      var left := WriteAll(Start(ti), packets).queue;
      var file := Payloads(Generate(ti, packets));
      && WholePayloads(Generate(ti, packets))
      && |Input(packets)| % TS_PACK_LEN == 0
      && if |left| < 7 * TS_PACK_LEN then
           |left| <= 6 * TS_PACK_LEN && file + left == Input(packets)
         else
           && Input(packets) <= file && |file| - |Input(packets)| < TS_UDP_LEN
           && NullHeaders(file[|Input(packets)|..])
  {
    hide Payloads, Finish, WriteAll, Input, NullHeaders;
    WriterConserves(ti, packets);
    WriterIsWhole(ti, packets);
    InputIsPackets(packets);
    var w := WriteAll(Start(ti), packets);
    PayloadsJoin(w.records, Finish(w));
    if |w.queue| < TS_UDP_LEN {
      ShortQueueIsDropped(w);
      assert w.records + Finish(w) == w.records;
    } else {
      FinishPayloads(w);
      var padding := Payloads(Finish(w))[|w.queue|..];
      assert Payloads(Generate(ti, packets)) == Input(packets) + padding by {
        assert Payloads(Finish(w)) == w.queue + padding;
        assert Payloads(w.records) + (w.queue + padding) == (Payloads(w.records) + w.queue) + padding;
      }
    }
  }

  lemma ShortQueueIsDropped(w: Writer)
    requires |w.queue| < TS_UDP_LEN
    ensures Finish(w) == []
  {
  }

  lemma {:induction false} InputIsPackets(packets: seq<seq<byte>>)
    requires forall p :: p in packets ==> |p| >= TS_PACK_LEN
    ensures |Input(packets)| == |packets| * TS_PACK_LEN
  {
    if packets != [] {
      InputIsPackets(packets[..|packets| - 1]);
    }
  }

  lemma PaddingIsNull(rest: seq<byte>, before: seq<byte>)
    requires |rest| < |before| == TS_UDP_LEN && |rest| % TS_PACK_LEN == 0
    ensures |Padded(rest, before)| == TS_UDP_LEN
    ensures Padded(rest, before)[..|rest|] == rest && NullHeaders(Padded(rest, before)[|rest|..])
  {
    var p := Padded(rest, before);
    var padding := p[|rest|..];
    forall j | 0 <= j < |padding| && j % TS_PACK_LEN == 0
      ensures j + 2 < |padding| && padding[j] == 0x47 && padding[j + 1] == 0x1F && padding[j + 2] == 0xFF
    {
      HeaderFits(|rest|, j);
      assert padding[j] == p[|rest| + j] && padding[j + 1] == p[|rest| + j + 1] && padding[j + 2] == p[|rest| + j + 2];
    }
  }

  /** Behind each header, what the payload before had there. */
  lemma PaddingKeepsOldBytes(rest: seq<byte>, before: seq<byte>)
    requires |rest| <= |before| == TS_UDP_LEN
    ensures forall j :: |rest| <= j < TS_UDP_LEN && (j - |rest|) % TS_PACK_LEN > 2 ==>
      Padded(rest, before)[j] == before[j]
  {
  }

  lemma HeaderFits(rest: nat, j: nat)
    requires rest % TS_PACK_LEN == 0 && j % TS_PACK_LEN == 0 && rest + j < TS_UDP_LEN
    ensures rest + j + 2 < TS_UDP_LEN && (j + 1) % TS_PACK_LEN == 1 && (j + 2) % TS_PACK_LEN == 2
  {
  }

  lemma FinishPayloads(w: Writer)
    requires |w.queue| % TS_PACK_LEN == 0 && |w.queue| >= TS_UDP_LEN
    ensures
      var p := Payloads(Finish(w));
      && WholePayloads(Finish(w))
      && w.queue <= p && |p| - |w.queue| < TS_UDP_LEN && NullHeaders(p[|w.queue|..])
  {
    hide Batch, Padded;
    var k := |w.queue| / TS_UDP_LEN;
    var batch, rest := Batch(w.queue, k, w.dts, w.duration), w.queue[k * TS_UDP_LEN..];
    BatchPayloads(w.queue, k, w.dts, w.duration);
    BatchIsWhole(w.queue, k, w.dts, w.duration);
    assert w.queue == w.queue[..k * TS_UDP_LEN] + rest;
    if rest != [] {
      var before := w.queue[(k - 1) * TS_UDP_LEN..k * TS_UDP_LEN];
      var last := Padded(rest, before);
      PaddingIsNull(rest, before);
      LastPayload(batch, After(w.dts, k, w.duration), last);
      assert last == rest + last[|rest|..];
      assert Payloads(Finish(w)) == w.queue + last[|rest|..];
    } else {
      assert Finish(w) == batch;
    }
  }

  lemma LastPayload(batch: seq<Record>, rts: int, payload: seq<byte>)
    ensures Payloads(batch + [Record(rts, payload)]) == Payloads(batch) + payload
  {
    assert (batch + [Record(rts, payload)])[..|batch|] == batch;
  }

  // ----- timestamps

  predicate Sorted(records: seq<Record>) {
    forall i, j :: 0 <= i < j < |records| ==> records[i].rts <= records[j].rts
  }

  /** The latest time stamp parsed, or none yet. */
  function LatestDts(ti: TsState, packets: seq<seq<byte>>): int
    requires SaneWriter(Start(ti)) && (forall p :: p in packets ==> |p| >= TS_PACK_LEN)
  {
    if packets == [] then INVALID_DTS_PTS
    else
      var dts := ParsedDts(ti, packets);
      if dts == INVALID_DTS_PTS then LatestDts(ti, packets[..|packets| - 1]) else dts
  }

  /** The time stamp parsed from the last packet. */
  function ParsedDts(ti: TsState, packets: seq<seq<byte>>): int
    requires SaneWriter(Start(ti)) && (forall p :: p in packets ==> |p| >= TS_PACK_LEN) && packets != []
  {
    ParsePacket(WriteAll(Start(ti), packets[..|packets| - 1]).ti, packets[|packets| - 1]).1.dts
  }

  predicate DtsNeverDecrease(ti: TsState, packets: seq<seq<byte>>)
    requires SaneWriter(Start(ti)) && (forall p :: p in packets ==> |p| >= TS_PACK_LEN)
  {
    packets == [] ||
    var front := packets[..|packets| - 1];
    var latest, dts := LatestDts(ti, front), ParsedDts(ti, packets);
    && DtsNeverDecrease(ti, front)
    && (latest != INVALID_DTS_PTS && dts != INVALID_DTS_PTS ==> latest <= dts)
  }

  lemma {:induction false} BatchIsSorted(queue: seq<byte>, k: nat, rts: int, duration: int)
    requires k * TS_UDP_LEN <= |queue| && duration >= 0
    ensures Sorted(Batch(queue, k, rts, duration)) && rts <= After(rts, k, duration)
    ensures forall r :: r in Batch(queue, k, rts, duration) ==> rts <= r.rts <= After(rts, k, duration)
  {
    if k > 0 {
      BatchIsSorted(queue[TS_UDP_LEN..], k - 1, rts + duration, duration);
    }
  }

  lemma {:induction false} AfterIsLinear(rts: int, k: nat, duration: int)
    ensures After(rts, k, duration) == rts + k * duration
    decreases k
  {
    if k > 0 {
      AfterIsLinear(rts + duration, k - 1, duration);
    }
  }

  /** The truncated duration keeps a batch at or below the time stamp that closes it. */
  lemma BatchEndsInTime(from: int, to: int, k: nat)
    requires from <= to && k > 0
    ensures TruncDiv(to - from, k) >= 0 && After(from, k, TruncDiv(to - from, k)) <= to
  {
    AfterIsLinear(from, k, TruncDiv(to - from, k));
  }

  lemma SortedJoin(a: seq<Record>, b: seq<Record>, middle: int)
    requires Sorted(a) && Sorted(b)
    requires (forall r :: r in a ==> r.rts <= middle) && (forall r :: r in b ==> middle <= r.rts)
    ensures Sorted(a + b)
  {
  }

  ghost predicate InTime(w: Writer, latest: int) {
    && Sorted(w.records) && w.duration >= 0
    && (forall r :: r in w.records ==> r.rts <= w.dts)
    && (w.dts == INVALID_DTS_PTS <==> latest == INVALID_DTS_PTS)
    && (w.dts == INVALID_DTS_PTS ==> w.records == [])
    && w.dts <= latest
  }

  lemma PacketStaysInTime(w: Writer, packet: seq<byte>, latest: int)
    requires SaneWriter(w) && |packet| >= TS_PACK_LEN && InTime(w, latest)
    requires
      var dts := ParsePacket(w.ti, packet).1.dts;
      latest != INVALID_DTS_PTS && dts != INVALID_DTS_PTS ==> latest <= dts
    ensures
      var dts := ParsePacket(w.ti, packet).1.dts;
      InTime(WritePacket(w, packet), if dts == INVALID_DTS_PTS then latest else dts)
  {
    hide ParsePacket, Batch, Sorted;
    var dts := ParsePacket(w.ti, packet).1.dts;
    var k := |w.queue| / TS_UDP_LEN;
    if dts != INVALID_DTS_PTS && w.dts != INVALID_DTS_PTS && k > 0 {
      var duration := TruncDiv(dts - w.dts, k);
      BatchEndsInTime(w.dts, dts, k);
      BatchIsSorted(w.queue, k, w.dts, duration);
      SortedJoin(w.records, Batch(w.queue, k, w.dts, duration), w.dts);
    }
  }

  lemma {:induction false} WriterStaysInTime(ti: TsState, packets: seq<seq<byte>>)
    requires SaneWriter(Start(ti)) && (forall p :: p in packets ==> |p| >= TS_PACK_LEN)
    requires DtsNeverDecrease(ti, packets)
    ensures InTime(WriteAll(Start(ti), packets), LatestDts(ti, packets))
  {
    if packets != [] {
      hide ParsePacket, WritePacket, InTime;
      var front := packets[..|packets| - 1];
      WriterStaysInTime(ti, front);
      PacketStaysInTime(WriteAll(Start(ti), front), packets[|packets| - 1], LatestDts(ti, front));
    } else {
      assert Sorted([]);
    }
  }

  /** If the time stamps of the input never decrease, neither do those of the file. */
  lemma TimestampsNeverDecrease(ti: TsState, packets: seq<seq<byte>>)
    requires SaneWriter(Start(ti)) && (forall p :: p in packets ==> |p| >= TS_PACK_LEN)
    requires DtsNeverDecrease(ti, packets)
    ensures Sorted(Generate(ti, packets))
  {
    hide Batch, Sorted, Padded;
    WriterStaysInTime(ti, packets);
    var w := WriteAll(Start(ti), packets);
    var k := |w.queue| / TS_UDP_LEN;
    var batch, end, last := Batch(w.queue, k, w.dts, w.duration), After(w.dts, k, w.duration), Last(w);
    BatchIsSorted(w.queue, k, w.dts, w.duration);
    SortedJoin(w.records, batch, w.dts);
    OneIsSorted(last);
    SortedJoin(w.records + batch, last, end);
    assert w.records + (batch + last) == (w.records + batch) + last;
  }

  lemma OneIsSorted(records: seq<Record>)
    requires |records| <= 1
    ensures Sorted(records)
  {
  }

  // ----- the file as bytes, and the reader

  /** The low `n` bytes of `v`, least significant first. */
  function LeBytes(v: nat, n: nat): (s: seq<byte>)
    ensures |s| == n
    decreases n
  {
    if n == 0 then [] else [v % 256] + LeBytes(v / 256, n - 1)
  }

  function LeValue(s: seq<byte>): nat {
    if s == [] then 0 else s[0] + 256 * LeValue(s[1..])
  }

  function Range(n: nat): nat {
    if n == 0 then 1 else 256 * Range(n - 1)
  }

  lemma {:induction false} LeReadsBack(v: nat, n: nat)
    requires v < Range(n)
    ensures LeValue(LeBytes(v, n)) == v
    decreases n
  {
    if n > 0 {
      LeReadsBack(v / 256, n - 1);
    }
  }

  predicate Fits64(v: int) {
    -0x8000_0000_0000_0000 <= v < 0x8000_0000_0000_0000
  }

  /** An `int64_t` as it lies in memory. */
  function Encode64(v: int): (s: seq<byte>)
    requires Fits64(v)
    ensures |s| == 8
  {
    LeBytes(if v < 0 then v + 0x1_0000_0000_0000_0000 else v, 8)
  }

  function Decode64(s: seq<byte>): int {
    var u := LeValue(s);
    if u >= 0x8000_0000_0000_0000 then u - 0x1_0000_0000_0000_0000 else u
  }

  lemma Int64ReadsBack(v: int)
    requires Fits64(v)
    ensures Decode64(Encode64(v)) == v
  {
    RangeOfEight();
    LeReadsBack(if v < 0 then v + 0x1_0000_0000_0000_0000 else v, 8);
  }

  lemma RangeOfEight()
    ensures Range(8) == 0x1_0000_0000_0000_0000
  {
    assert Range(1) == 0x100;
    assert Range(2) == 0x1_0000;
    assert Range(4) == 0x1_0000_0000;
    assert Range(6) == 0x1_0000_0000_0000;
  }

  predicate Writable(records: seq<Record>) {
    forall i :: 0 <= i < |records| ==> Fits64(records[i].rts) && |records[i].payload| == TS_UDP_LEN
  }

  function FileOf(records: seq<Record>): (file: seq<byte>)
    requires Writable(records)
    ensures |file| == |records| * RTS_PACK_LEN
  {
    if records == [] then []
    else FileOf(records[..|records| - 1]) + Encode64(records[|records| - 1].rts) + records[|records| - 1].payload
  }

  /** What a client is handed: milliseconds and payload. */
  datatype Played = Played(tmMs: int, payload: seq<byte>)

  function Play(r: Record): Played {
    Played(TruncDiv(r.rts, 90), r.payload)
  }

  function PlayEach(records: seq<Record>): (played: seq<Played>)
    ensures |played| == |records|
    ensures forall i :: 0 <= i < |records| ==> played[i] == Play(records[i])
  {
    if records == [] then [] else PlayEach(records[..|records| - 1]) + [Play(records[|records| - 1])]
  }

  /** The record at the front of the unread part of a file. */
  function FrontRecord(unread: seq<byte>): Record
    requires |unread| >= RTS_PACK_LEN
  {
    Record(Decode64(unread[..8]), unread[8..RTS_PACK_LEN])
  }

  /** All that reading in non-loop mode hands out until it reports the end of the file. */
  function PlayAll(unread: seq<byte>): seq<Played> {
    if |unread| < RTS_PACK_LEN then [] else [Play(FrontRecord(unread))] + PlayAll(unread[RTS_PACK_LEN..])
  }

  lemma {:induction false} PlayJoins(a: seq<byte>, k: nat, b: seq<byte>)
    requires |a| == k * RTS_PACK_LEN
    ensures PlayAll(a + b) == PlayAll(a) + PlayAll(b)
  {
    if k == 0 {
      assert a + b == b;
    } else {
      hide FrontRecord;
      PlayJoins(a[RTS_PACK_LEN..], k - 1, b);
      FrontStays(a, b);
    }
  }

  lemma FrontStays(a: seq<byte>, b: seq<byte>)
    requires |a| >= RTS_PACK_LEN
    ensures FrontRecord(a + b) == FrontRecord(a) && (a + b)[RTS_PACK_LEN..] == a[RTS_PACK_LEN..] + b
  {
    assert (a + b)[..8] == a[..8] && (a + b)[8..RTS_PACK_LEN] == a[8..RTS_PACK_LEN];
  }

  /** A file of one record. */
  lemma OneReadsBack(r: Record)
    requires Fits64(r.rts) && |r.payload| == TS_UDP_LEN
    ensures PlayAll(Encode64(r.rts) + r.payload) == [Play(r)]
  {
    hide Encode64, Decode64;
    var file := Encode64(r.rts) + r.payload;
    Int64ReadsBack(r.rts);
    assert file[..8] == Encode64(r.rts) && file[8..RTS_PACK_LEN] == r.payload;
    assert file[RTS_PACK_LEN..] == [];
  }

  /** Reading a file gives back exactly the records written to it. */
  lemma {:induction false} FileReadsBack(records: seq<Record>)
    requires Writable(records)
    ensures PlayAll(FileOf(records)) == PlayEach(records)
  {
    if records != [] {
      hide Encode64, PlayAll, Play;
      var front, last := records[..|records| - 1], records[|records| - 1];
      FileReadsBack(front);
      var tail := Encode64(last.rts) + last.payload;
      assert FileOf(records) == FileOf(front) + tail;
      PlayJoins(FileOf(front), |front|, tail);
      OneReadsBack(last);
    } else {
      assert PlayAll([]) == [];
    }
  }

  // ----- every file that is written can be read

  /** A parsed time stamp is a 32-bit value. */
  predicate Fits32(v: int) {
    -0x8000_0000 <= v < 0x8000_0000
  }

  lemma PtsFits(b0: int, b1: int, b2: int, b3: int, b4: int)
    requires 0 <= b1 < 256 && 0 <= b2 < 256 && 0 <= b3 < 256 && 0 <= b4 < 256
    ensures Fits32(CombinePts(b0, b1, b2, b3, b4))
  {
  }

  lemma ParsedDtsFits(ti: TsState, packet: seq<byte>)
    requires WellSized(ti) && |packet| >= TS_PACK_LEN && Fits32(ti.dts)
    ensures Fits32(ParsePacket(ti, packet).1.dts)
  {
    hide CombinePts, Scan, Preamble, PmtPidFrom;
    if PayloadAt(packet).Some? {
      var at := PayloadAt(packet).value;
      StampFits(ti, packet, at);
    }
  }

  lemma StampFits(ti: TsState, packet: seq<byte>, at: nat)
    ensures Fits32(Stamp(ti, packet, at).1.dts)
  {
    hide CombinePts;
    forall i: nat
      ensures Fits32(ParsePts(packet, i))
    {
      PtsFits(Octet(packet, i), Octet(packet, i + 1), Octet(packet, i + 2), Octet(packet, i + 3), Octet(packet, i + 4));
    }
  }

  /** The clock is a parsed value, and the duration the difference of two at most. */
  predicate Bounded(w: Writer) {
    && Fits32(w.dts) && -0x1_0000_0000 <= w.duration <= 0x1_0000_0000
    && Writable(w.records)
  }

  /** `k` payloads of a batch that starts at a parsed time stamp. */
  lemma {:induction false} BatchIsWritable(queue: seq<byte>, k: nat, rts: int, duration: int, low: int, high: int)
    requires k * TS_UDP_LEN <= |queue|
    requires low <= rts <= high && low <= rts + k * duration <= high && Fits64(low) && Fits64(high)
    ensures Writable(Batch(queue, k, rts, duration))
  {
    if k > 0 {
      StepsBetween(rts, duration, k, low, high);
      BatchIsWritable(queue[TS_UDP_LEN..], k - 1, rts + duration, duration, low, high);
    }
  }

  lemma StepsBetween(rts: int, duration: int, k: nat, low: int, high: int)
    requires k > 0 && low <= rts <= high && low <= rts + k * duration <= high
    ensures low <= rts + duration <= high && rts + k * duration == (rts + duration) + (k - 1) * duration
  {
    FarFromZero(k, duration);
    assert k * duration == (k - 1) * duration + duration;
  }

  lemma TruncDivBounds(a: int, k: nat)
    requires k > 0
    ensures var q := TruncDiv(a, k);
      if a >= 0 then 0 <= q <= a && 0 <= k * q <= a else a <= q <= 0 && a <= k * q <= 0
  {
    var q := TruncDiv(a, k);
    TruncDivTimes(a, k);
    RoundDown(if a >= 0 then a else -a, k);
    assert k * q == q * k;
    FarFromZero(k, q);
  }

  lemma {:induction false} FarFromZero(k: nat, d: int)
    requires k > 0
    ensures d >= 0 ==> d <= k * d
    ensures d <= 0 ==> k * d <= d
    ensures d > 0 ==> k * d > 0
    ensures d < 0 ==> k * d < 0
  {
    if k > 1 {
      FarFromZero(k - 1, d);
      assert k * d == (k - 1) * d + d;
    }
  }

  lemma WritableJoin(a: seq<Record>, b: seq<Record>)
    requires Writable(a) && Writable(b)
    ensures Writable(a + b)
  {
  }

  lemma FlushIsBounded(w: Writer, dts: int)
    requires SaneWriter(w) && Bounded(w) && Fits32(dts)
    ensures Bounded(Flush(w, dts))
  {
    hide Batch, Writable;
    var k := |w.queue| / TS_UDP_LEN;
    if k > 0 {
      var duration := TruncDiv(dts - w.dts, k);
      TruncDivBounds(dts - w.dts, k);
      BatchIsWritable(w.queue, k, w.dts, duration, -0x8000_0000, 0x8000_0000);
      WritableJoin(w.records, Batch(w.queue, k, w.dts, duration));
    }
  }

  lemma PacketIsBounded(w: Writer, packet: seq<byte>)
    requires SaneWriter(w) && |packet| >= TS_PACK_LEN && Bounded(w)
    ensures Bounded(WritePacket(w, packet))
  {
    hide ParsePacket, Flush, Writable;
    var dts := ParsePacket(w.ti, packet).1.dts;
    ParsedDtsFits(w.ti, packet);
    FlushIsBounded(w, dts);
  }

  lemma {:induction false} WriterIsBounded(ti: TsState, packets: seq<seq<byte>>)
    requires SaneWriter(Start(ti)) && (forall p :: p in packets ==> |p| >= TS_PACK_LEN)
    ensures Bounded(WriteAll(Start(ti), packets))
  {
    if packets != [] {
      hide WritePacket, Bounded;
      WriterIsBounded(ti, packets[..|packets| - 1]);
      PacketIsBounded(WriteAll(Start(ti), packets[..|packets| - 1]), packets[|packets| - 1]);
    }
  }

  /** Whatever is written without the queue growing fits the file format: reading the file gives back exactly the
      records written. */
  lemma GeneratedReadsBack(ti: TsState, packets: seq<seq<byte>>)
    requires SaneWriter(Start(ti)) && (forall p :: p in packets ==> |p| >= TS_PACK_LEN) && NeverGrows(ti, packets)
    ensures Writable(Generate(ti, packets))
    ensures PlayAll(FileOf(Generate(ti, packets))) == PlayEach(Generate(ti, packets))
  {
    hide Batch, Writable, Last, WriteAll, PlayAll, PlayEach, FileOf;
    WriterIsBounded(ti, packets);
    var w := WriteAll(Start(ti), packets);
    assert packets[..|packets|] == packets;
    FinishIsWritable(w);
    WritableJoin(w.records, Finish(w));
    FileReadsBack(Generate(ti, packets));
  }

  lemma FinishIsWritable(w: Writer)
    requires Bounded(w) && |w.queue| <= WRITER_QUEUE_SIZE
    ensures Writable(Finish(w))
  {
    hide Batch, Padded;
    var k := |w.queue| / TS_UDP_LEN;
    var low, high := -0x1_0000_0000 * 1001, 0x1_0000_0000 * 1001;
    assert k <= 1000;
    ProductBounds(k, w.duration);
    BatchIsWritable(w.queue, k, w.dts, w.duration, low, high);
    AfterIsLinear(w.dts, k, w.duration);
    LastIsWhole(w);
    WritableJoin(Batch(w.queue, k, w.dts, w.duration), Last(w));
  }

  lemma LastIsWhole(w: Writer)
    ensures forall r :: r in Last(w) ==> |r.payload| == TS_UDP_LEN
  {
  }

  lemma {:induction false} ProductBounds(k: nat, duration: int)
    requires -0x1_0000_0000 <= duration <= 0x1_0000_0000
    ensures -0x1_0000_0000 * k <= k * duration <= 0x1_0000_0000 * k
  {
    if k > 0 {
      ProductBounds(k - 1, duration);
      assert k * duration == (k - 1) * duration + duration;
    }
  }
}
