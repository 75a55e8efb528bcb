/** When the payloads of an RTS file are due: how slscore/TSFileTimeReader.cpp (`generate_rts_file`) spreads them
    between the time stamps of the input, and what a client makes of them. */
module RtsStamps {
  import opened Bytes
  import opened TsParser
  import opened RtsFile

  // ----- one packet

  /** Payload `i` of the queue. */
  function PayloadAtQueue(queue: seq<byte>, i: nat): seq<byte>
    requires (i + 1) * TS_UDP_LEN <= |queue|
  {
    queue[i * TS_UDP_LEN..(i + 1) * TS_UDP_LEN]
  }

  /** `k` payloads of the queue, `step` apart from `from` on. */
  ghost predicate Spread(records: seq<Record>, queue: seq<byte>, k: nat, from: int, step: int) {
    && |records| == k && k * TS_UDP_LEN <= |queue|
    && (forall i :: 0 <= i < k ==> records[i].rts == from + i * step)
    && (forall i :: 0 <= i < k ==> records[i].payload == PayloadAtQueue(queue, i))
  }

  /** `step` is the largest that lets `k` of them end at or before the distance (in absolute value). */
  predicate EvenStep(step: int, k: nat, distance: int) {
    if distance >= 0 then k * step <= distance < k * step + k else k * step - k < distance <= k * step
  }

  lemma {:induction false} BatchSpreads(queue: seq<byte>, k: nat, rts: int, duration: int)
    requires k * TS_UDP_LEN <= |queue|
    ensures Spread(Batch(queue, k, rts, duration), queue, k, rts, duration)
  {
    if k > 0 {
      var rest := queue[TS_UDP_LEN..];
      BatchSpreads(rest, k - 1, rts + duration, duration);
      var batch := Batch(queue, k, rts, duration);
      forall i | 0 <= i < k
        ensures batch[i].rts == rts + i * duration && batch[i].payload == PayloadAtQueue(queue, i)
      {
        if i > 0 {
          assert batch[i] == Batch(rest, k - 1, rts + duration, duration)[i - 1];
          assert (i - 1) * duration + duration == i * duration;
          assert PayloadAtQueue(rest, i - 1) == PayloadAtQueue(queue, i);
        }
      }
    }
  }

  lemma RoundToNear(n: int, k: nat)
    requires k > 0
    ensures if n >= 0 then n - k < RoundTo(n, k) <= n else n <= RoundTo(n, k) < n + k
  {
    RoundToBounds(n, k);
  }

  lemma TruncDivIsEven(distance: int, k: nat)
    requires k > 0
    ensures EvenStep(TruncDiv(distance, k), k, distance)
  {
    hide TruncDiv, RoundTo;
    TruncDivTimes(distance, k);
    RoundToNear(distance, k);
    assert k * TruncDiv(distance, k) == TruncDiv(distance, k) * k;
  }

  lemma LastOfBatch(batch: seq<Record>, queue: seq<byte>, k: nat, from: int, step: int, to: int)
    requires k > 0 && Spread(batch, queue, k, from, step) && EvenStep(step, k, to - from)
    ensures to >= from ==> step <= to - batch[k - 1].rts < step + k
  {
    assert batch[k - 1].rts == from + (k - 1) * step;
    assert (k - 1) * step + step == k * step;
  }

  /** One packet of the input, by what the parser makes of it: without a time stamp, or with the first one, or with
      less than a payload queued, nothing is written; otherwise the whole payloads queued are, from the clock on, evenly
      up to the new time stamp, which becomes the clock. */
  lemma PacketSpreads(w: Writer, packet: seq<byte>)
    requires SaneWriter(w) && |packet| >= TS_PACK_LEN
    ensures
      var w', dts, k := WritePacket(w, packet), ParsePacket(w.ti, packet).1.dts, |w.queue| / TS_UDP_LEN;
      && w.records <= w'.records
      && if dts == INVALID_DTS_PTS || w.dts == INVALID_DTS_PTS || k == 0 then
           && w'.records == w.records && w'.queue == w.queue + packet[..TS_PACK_LEN] && w'.duration == w.duration
           && w'.dts == if w.dts == INVALID_DTS_PTS then dts else w.dts
         else
           && Spread(w'.records[|w.records|..], w.queue, k, w.dts, w'.duration)
           && EvenStep(w'.duration, k, dts - w.dts)
           && (dts >= w.dts ==>
                 w'.duration <= dts - w'.records[|w'.records| - 1].rts < w'.duration + k)
           && w'.queue == w.queue[k * TS_UDP_LEN..] + packet[..TS_PACK_LEN] && w'.dts == dts
    ensures WritePacket(w, packet).ti == Quiet(ParsePacket(w.ti, packet).1)
  {
    hide ParsePacket, Batch, Spread, EvenStep;
    var dts, k := ParsePacket(w.ti, packet).1.dts, |w.queue| / TS_UDP_LEN;
    if dts != INVALID_DTS_PTS && w.dts != INVALID_DTS_PTS && k > 0 {
      var duration := TruncDiv(dts - w.dts, k);
      TruncDivIsEven(dts - w.dts, k);
      BatchSpreads(w.queue, k, w.dts, duration);
      var batch := Batch(w.queue, k, w.dts, duration);
      assert (w.records + batch)[|w.records|..] == batch;
      LastOfBatch(batch, w.queue, k, w.dts, duration, dts);
    }
  }

  // ----- the whole input, by its time stamps alone

  predicate IsInput(ti: TsState, packets: seq<seq<byte>>) {
    SaneWriter(Start(ti)) && forall p :: p in packets ==> |p| >= TS_PACK_LEN
  }

  /** The parser after these packets, whose time stamps have been used. */
  function ParserAfter(ti: TsState, packets: seq<seq<byte>>): (r: TsState)
    requires IsInput(ti, packets)
    ensures WellSized(r)
  {
    if packets == [] then ti
    else Quiet(ParsePacket(ParserAfter(ti, packets[..|packets| - 1]), packets[|packets| - 1]).1)
  }

  /** The time stamp of the last packet. */
  function Dts(ti: TsState, packets: seq<seq<byte>>): int
    requires IsInput(ti, packets) && packets != []
  {
    ParsePacket(ParserAfter(ti, packets[..|packets| - 1]), packets[|packets| - 1]).1.dts
  }

  /** The last packet has a time stamp, an earlier one had, and at least seven packets wait before it. */
  predicate Closes(ti: TsState, packets: seq<seq<byte>>)
    requires IsInput(ti, packets) && packets != []
    decreases |packets|, 0
  {
    var front := packets[..|packets| - 1];
    Dts(ti, packets) != INVALID_DTS_PTS && Clock(ti, front) != INVALID_DTS_PTS && Waiting(ti, front) >= 7
  }

  /** How many packets wait to be written. */
  function Waiting(ti: TsState, packets: seq<seq<byte>>): nat
    requires IsInput(ti, packets)
    decreases |packets|, 1
  {
    if packets == [] then 0
    else
      var before := Waiting(ti, packets[..|packets| - 1]);
      if Closes(ti, packets) then before % 7 + 1 else before + 1
  }

  /** The time stamp that the next payload gets: the first of the input, then each that closed a batch. */
  function Clock(ti: TsState, packets: seq<seq<byte>>): int
    requires IsInput(ti, packets)
    decreases |packets|, 1
  {
    if packets == [] then INVALID_DTS_PTS
    else
      var before := Clock(ti, packets[..|packets| - 1]);
      if before == INVALID_DTS_PTS || Closes(ti, packets) then Dts(ti, packets) else before
  }

  /** `step` is that of the latest batch, 0 if there has been none. */
  predicate IsStep(ti: TsState, packets: seq<seq<byte>>, step: int)
    requires IsInput(ti, packets)
  {
    if packets == [] then step == 0
    else
      var front := packets[..|packets| - 1];
      if Closes(ti, packets) then EvenStep(step, Waiting(ti, front) / 7, Dts(ti, packets) - Clock(ti, front))
      else IsStep(ti, front, step)
  }

  /** The writer against that. */
  ghost predicate KeepsTime(ti: TsState, packets: seq<seq<byte>>, w: Writer)
    requires IsInput(ti, packets)
  {
    && w.ti == ParserAfter(ti, packets) && w.dts == Clock(ti, packets)
    && |w.queue| == Waiting(ti, packets) * TS_PACK_LEN && IsStep(ti, packets, w.duration)
  }

  lemma {:induction false} WriterKeepsTime(ti: TsState, packets: seq<seq<byte>>)
    requires IsInput(ti, packets)
    ensures KeepsTime(ti, packets, WriteAll(Start(ti), packets))
  {
    hide ParsePacket, Spread, EvenStep, WritePacket;
    if packets != [] {
      var front := packets[..|packets| - 1];
      var w := WriteAll(Start(ti), front);
      WriterKeepsTime(ti, front);
      PacketSpreads(w, packets[|packets| - 1]);
      Sevenths(Waiting(ti, front));
      var w' := WriteAll(Start(ti), packets);
      DtsIsParsed(ti, packets, w);
      assert w'.ti == ParserAfter(ti, packets);
      assert w'.dts == Clock(ti, packets);
      assert |w'.queue| == Waiting(ti, packets) * TS_PACK_LEN;
      assert IsStep(ti, packets, w'.duration);
    }
  }

  lemma Sevenths(n: nat)
    ensures n * TS_PACK_LEN / TS_UDP_LEN == n / 7
    ensures n * TS_PACK_LEN - n / 7 * TS_UDP_LEN == n % 7 * TS_PACK_LEN
  {
  }

  /** The records after each packet: one more batch exactly if the packet closes one. Its first payload is due at the
      clock, the others evenly behind it, and the time stamp that closes it begins the next. */
  lemma EveryBatchIsSpread(ti: TsState, packets: seq<seq<byte>>)
    requires IsInput(ti, packets) && packets != []
    ensures
      var front := packets[..|packets| - 1];
      var w, w', k := WriteAll(Start(ti), front), WriteAll(Start(ti), packets), Waiting(ti, front) / 7;
      && w.records <= w'.records
      && if !Closes(ti, packets) then w'.records == w.records
         else
           var batch, dts := w'.records[|w.records|..], Dts(ti, packets);
           && Spread(batch, w.queue, k, Clock(ti, front), w'.duration)
           && EvenStep(w'.duration, k, dts - Clock(ti, front))
           && |w'.records| == |w.records| + k > 0
           && (dts >= Clock(ti, front) ==>
                 w'.duration <= dts - w'.records[|w'.records| - 1].rts < w'.duration + k)
           && Clock(ti, packets) == dts
  {
    hide ParsePacket, WriteAll, Spread, EvenStep, IsStep, Dts, ParserAfter, WritePacket;
    var front := packets[..|packets| - 1];
    WriterKeepsTime(ti, front);
    WriteLast(ti, packets);
    DtsIsParsed(ti, packets, WriteAll(Start(ti), front));
    PacketSpreads(WriteAll(Start(ti), front), packets[|packets| - 1]);
    Sevenths(Waiting(ti, front));
    if Closes(ti, packets) {
      SpreadLength(WriteAll(Start(ti), packets).records, WriteAll(Start(ti), front), Waiting(ti, front) / 7,
                   Clock(ti, front), WriteAll(Start(ti), packets).duration);
    }
  }

  lemma SpreadLength(records: seq<Record>, w: Writer, k: nat, from: int, step: int)
    requires w.records <= records && Spread(records[|w.records|..], w.queue, k, from, step)
    ensures |records| == |w.records| + k
  {
  }

  lemma DtsIsParsed(ti: TsState, packets: seq<seq<byte>>, w: Writer)
    requires IsInput(ti, packets) && packets != [] && KeepsTime(ti, packets[..|packets| - 1], w)
    ensures WellSized(w.ti) && ParsePacket(w.ti, packets[|packets| - 1]).1.dts == Dts(ti, packets)
  {
    hide ParsePacket;
  }

  lemma WriteLast(ti: TsState, packets: seq<seq<byte>>)
    requires IsInput(ti, packets) && packets != []
    ensures WriteAll(Start(ti), packets)
         == WritePacket(WriteAll(Start(ti), packets[..|packets| - 1]), packets[|packets| - 1])
  {
    hide ParsePacket;
  }

  /** A batch once written stays: the file begins with what any part of the input has written. */
  lemma {:induction false} RecordsStay(ti: TsState, packets: seq<seq<byte>>, i: nat)
    requires IsInput(ti, packets) && i <= |packets|
    ensures WriteAll(Start(ti), packets[..i]).records <= Generate(ti, packets)
    ensures WriteAll(Start(ti), packets[..i]).records <= WriteAll(Start(ti), packets).records
  {
    hide ParsePacket, Finish, WritePacket;
    if i == |packets| {
      assert packets[..i] == packets;
    } else {
      var front := packets[..|packets| - 1];
      RecordsStay(ti, front, i);
      assert front[..i] == packets[..i];
      PacketSpreads(WriteAll(Start(ti), front), packets[|packets| - 1]);
    }
  }

  /** What the end of the input adds: nothing if fewer than seven packets wait; otherwise all of them, as many payloads
      as they fill at least in part, from the clock on at the step of the latest batch. */
  lemma TailIsSpread(ti: TsState, packets: seq<seq<byte>>)
    requires IsInput(ti, packets)
    ensures
      var w, n, all := WriteAll(Start(ti), packets), Waiting(ti, packets), Generate(ti, packets);
      && w.records <= all && IsStep(ti, packets, w.duration)
      && |all| - |w.records| == (if n < 7 then 0 else (n + 6) / 7)
      && forall i :: 0 <= i < |all| - |w.records| ==> all[|w.records| + i].rts == Clock(ti, packets) + i * w.duration
  {
    hide ParsePacket, Finish, WriteAll, IsStep, Clock, Waiting, ParserAfter;
    WriterKeepsTime(ti, packets);
    FinishIsSpread(WriteAll(Start(ti), packets), Waiting(ti, packets));
  }

  lemma FinishIsSpread(w: Writer, n: nat)
    requires |w.queue| == n * TS_PACK_LEN
    ensures |Finish(w)| == if n < 7 then 0 else (n + 6) / 7
    ensures forall i :: 0 <= i < |Finish(w)| ==> Finish(w)[i].rts == w.dts + i * w.duration
  {
    hide Batch, Padded;
    var k := n / 7;
    Sevenths(n);
    RestIsShort(w.queue, n);
    BatchSpreads(w.queue, k, w.dts, w.duration);
    AfterIsLinear(w.dts, k, w.duration);
  }

  lemma RestIsShort(queue: seq<byte>, n: nat)
    requires |queue| == n * TS_PACK_LEN
    ensures n / 7 * TS_UDP_LEN <= |queue| && (queue[n / 7 * TS_UDP_LEN..] == [] <==> n % 7 == 0)
    ensures (n + 6) / 7 == n / 7 + if n % 7 == 0 then 0 else 1
  {
    Sevenths(n);
  }

  // ----- the client

  /** A client gets whole milliseconds of the 90 kHz clock. */
  lemma PlayedInMilliseconds(r: Record)
    ensures
      var ms := Play(r).tmMs;
      if r.rts >= 0 then 90 * ms <= r.rts < 90 * ms + 90 else 90 * ms - 90 < r.rts <= 90 * ms
    ensures Play(r).payload == r.payload
  {
  }

  // ----- the file format

  /** Record `i` of a file: eight bytes of time stamp, the lowest first, and then the payload. */
  lemma {:induction false} FileLayout(records: seq<Record>, i: nat)
    requires Writable(records) && i < |records|
    ensures
      var file, at := FileOf(records), i * RTS_PACK_LEN;
      && at + RTS_PACK_LEN <= |file|
      && file[at..at + 8] == Encode64(records[i].rts) && file[at] == records[i].rts % 256
      && file[at + 8..at + RTS_PACK_LEN] == records[i].payload
  {
    hide Encode64;
    var front, last := records[..|records| - 1], records[|records| - 1];
    var at, head := i * RTS_PACK_LEN, FileOf(front);
    if i < |front| {
      FileLayout(front, i);
      assert FileOf(records) == head + (Encode64(last.rts) + last.payload);
      assert FileOf(records)[..|head|] == head;
      assert FileOf(records)[at..at + 8] == head[at..at + 8];
      assert FileOf(records)[at + 8..at + RTS_PACK_LEN] == head[at + 8..at + RTS_PACK_LEN];
    } else {
      LowByteFirst(last.rts);
      assert FileOf(records)[at..at + 8] == Encode64(last.rts);
      assert FileOf(records)[at + 8..at + RTS_PACK_LEN] == last.payload;
      assert FileOf(records)[at] == FileOf(records)[at..at + 8][0];
    }
  }

  lemma LowByteFirst(v: int)
    requires Fits64(v)
    ensures Encode64(v)[0] == v % 256
  {
    SameLowByte(v, 0x100_0000_0000_0000);
    FirstByte(if v < 0 then v + 0x1_0000_0000_0000_0000 else v);
  }

  lemma SameLowByte(v: int, k: int)
    ensures (v + 256 * k) % 256 == v % 256
  {
  }

  lemma FirstByte(u: nat)
    ensures LeBytes(u, 8)[0] == u % 256
  {
  }
}
