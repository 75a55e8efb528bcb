/** One publisher and one player, end to end: every interleaving of datagrams and pump calls, however the player's
    socket refuses writes, within one lifetime of the key. */
module PlayerRuns {
  import opened Bytes
  import opened Common
  import opened RecycleRing
  import opened RecycleRuns
  import opened TsParser
  import opened TsPreamble
  import opened MapDataModel
  import opened PlayerPump

  /** A datagram of `len` bytes in the receive buffer `data`, or a pump call during which the socket takes
      `accepts` blocks before it refuses one. */
  datatype Action = Publish(data: seq<byte>, len: int) | Pump(accepts: nat)

  /** `sent` is what the socket has taken. `joined` is where the player joined the stream and the preamble it was
      handed then; `log` records every later nonempty fetch. */
  datatype Session = Session(
    stream: seq<byte>, info: Option<TsState>, player: PlayerState, sent: seq<byte>,
    joined: Option<Join>, log: seq<Delivery>)
  {
    function Channel(): MapDataModel.Channel {
      MapDataModel.Channel(Some(stream), info)
    }
  }

  datatype Join = Join(at: nat, preamble: seq<byte>)

  const START := Session([], None, PlayerState(Fresh, []), [], None, [])

  predicate WellFormed(a: Action) {
    a.Publish? ==> a.len <= |a.data| && |a.data| % TS_PACK_LEN == 0
  }

  predicate SaneSession(s: Session) {
    Sane(s.player.reader, |s.stream|) && (s.info.Some? ==> WellSized(s.info.value))
  }

  /** One action; `blank` is the fresh parser a first datagram makes. */
  function Step(s: Session, a: Action, blank: TsState): (s': Session)
    requires SaneSession(s) && WellFormed(a) && WellSized(blank)
    ensures SaneSession(s')
  {
    match a
    case Publish(data, len) =>
      var c := Published(s.Channel(), data, len, blank);
      s.(stream := c.stream.value, info := c.info)
    case Pump(accepts) =>
      var p := Refilled(s.player, s.Channel());
      FetchStays(|s.stream|, DEFAULT_MAX_DATA_SIZE, s.player.reader, DATA_BUFF_SIZE, TS_UDP_LEN, false);
      var k := Min(accepts, |p.staged| / TS_UDP_LEN) * TS_UDP_LEN;
      s.(player := p.(staged := p.staged[k..]),
         sent := s.sent + p.staged[..k],
         joined :=
            if s.player.staged == [] && s.player.reader.Fresh? then Some(Join(|s.stream|, p.staged)) else s.joined,
         log := if s.player.staged == [] && s.player.reader.At? then Logged(s.log, s.stream, PumpFetch(s)) else s.log)
  }

  function PumpFetch(s: Session): (f: Fetched)
    requires SaneSession(s)
    ensures f.len > 0 ==> f.from + f.len <= |s.stream|
  {
    FetchStays(|s.stream|, DEFAULT_MAX_DATA_SIZE, s.player.reader, DATA_BUFF_SIZE, TS_UDP_LEN, false);
    Fetch(|s.stream|, DEFAULT_MAX_DATA_SIZE, s.player.reader, DATA_BUFF_SIZE, TS_UDP_LEN)
  }

  function Run(actions: seq<Action>, blank: TsState): (s: Session)
    requires WellSized(blank) && (forall a :: a in actions ==> WellFormed(a))
    ensures SaneSession(s)
  {
    if actions == [] then START
    else Step(Run(actions[..|actions| - 1], blank), actions[|actions| - 1], blank)
  }

  // ----- what every run keeps

  function Payload(log: seq<Delivery>): seq<byte> {
    if log == [] then [] else Payload(log[..|log| - 1]) + log[|log| - 1].bytes
  }

  /** Nothing is duplicated, reordered or lost between the ring and the socket: what has been sent, with what is
      staged, is the preamble and then everything fetched. */
  ghost predicate Conserves(s: Session) {
    match s.joined
    case None => s.player == PlayerState(Fresh, []) && s.sent == [] && s.log == []
    case Some(j) => s.player.reader.At? && s.sent + s.player.staged == j.preamble + Payload(s.log)
  }

  /** Every fetch is a run of whole blocks that lies, within the stream, at a distance of whole blocks from the
      point where the player joined. */
  ghost predicate Aligned(s: Session) {
    && |s.player.staged| % TS_UDP_LEN == 0 && |s.sent| % TS_UDP_LEN == 0
    && (s.joined.Some? ==>
          var j := s.joined.value;
          && (j.preamble == [] || |j.preamble| == TS_UDP_LEN)
          && s.player.reader.At? && j.at <= s.player.reader.pos && (s.player.reader.pos - j.at) % TS_UDP_LEN == 0
          && (forall i :: 0 <= i < |s.log| ==>
                && |s.log[i].bytes| % TS_UDP_LEN == 0
                && j.at <= s.log[i].from && (s.log[i].from - j.at) % TS_UDP_LEN == 0))
  }

  lemma PumpKeepsConservation(s: Session, accepts: nat, blank: TsState)
    requires SaneSession(s) && WellSized(blank) && Conserves(s)
    ensures Conserves(Step(s, Pump(accepts), blank))
  {
    hide Fetch, CheckInfo, Payload;
    var p := Refilled(s.player, s.Channel());
    var k := Min(accepts, |p.staged| / TS_UDP_LEN) * TS_UDP_LEN;
    SplitJoins(s.sent, p.staged, k);
    if s.player.staged == [] && s.player.reader.At? {
      PayloadGrows(s.log, s.stream, PumpFetch(s));
      NewlySeen(|s.stream|, DEFAULT_MAX_DATA_SIZE, s.player.reader, DATA_BUFF_SIZE, TS_UDP_LEN, false);
      Requeued(s.sent, s.joined.value.preamble, Payload(s.log), p.staged);
    } else if s.player.reader.Fresh? {
      NothingFetched(p.staged);
    }
  }

  lemma SplitJoins(sent: seq<byte>, staged: seq<byte>, k: nat)
    requires k <= |staged|
    ensures (sent + staged[..k]) + staged[k..] == sent + staged
  {
  }

  lemma Requeued(sent: seq<byte>, preamble: seq<byte>, payload: seq<byte>, fetched: seq<byte>)
    requires sent + [] == preamble + payload
    ensures sent + fetched == preamble + (payload + fetched)
  {
    assert sent == sent + [];
  }

  lemma NothingFetched(staged: seq<byte>)
    ensures [] + staged == staged + Payload([])
  {
  }

  lemma PayloadGrows(log: seq<Delivery>, stream: seq<byte>, f: Fetched)
    requires f.len > 0 ==> f.from + f.len <= |stream|
    ensures Payload(Logged(log, stream, f)) == Payload(log) + if f.len > 0 then stream[f.from..f.from + f.len] else []
  {
    if f.len > 0 {
      assert Logged(log, stream, f)[..|log|] == log;
    }
  }

  /** Laps of the default ring are whole blocks. */
  lemma {:induction false} LapsAreBlocks(d: nat)
    requires Mod(d, DEFAULT_MAX_DATA_SIZE) == 0
    ensures d % TS_UDP_LEN == 0
  {
    if d >= DEFAULT_MAX_DATA_SIZE {
      LapsAreBlocks(d - DEFAULT_MAX_DATA_SIZE);
    }
  }

  lemma BlocksAdd(a: nat, b: nat, c: nat)
    requires a <= b <= c && (b - a) % TS_UDP_LEN == 0 && (c - b) % TS_UDP_LEN == 0
    ensures (c - a) % TS_UDP_LEN == 0
  {
  }

  /** What a fetch of the pump moves: whole blocks, over whole blocks. */
  lemma FetchMovesBlocks(total: nat, r: Reader)
    requires r.At? && Sane(r, total)
    ensures
      var f := Fetch(total, DEFAULT_MAX_DATA_SIZE, r, DATA_BUFF_SIZE, TS_UDP_LEN);
      && 0 <= f.len && f.len % TS_UDP_LEN == 0
      && r.pos <= f.from && (f.from - r.pos) % TS_UDP_LEN == 0
      && f.reader.At? && r.pos <= f.reader.pos && (f.reader.pos - r.pos) % TS_UDP_LEN == 0
  {
    var f := Fetch(total, DEFAULT_MAX_DATA_SIZE, r, DATA_BUFF_SIZE, TS_UDP_LEN);
    FetchedBlocks(total, r);
    GetSkipsWholeLaps(total, DEFAULT_MAX_DATA_SIZE, r, DATA_BUFF_SIZE, TS_UDP_LEN, false);
    LapsAreBlocks(f.from - r.pos);
    if f.len <= 0 {
      LapsAreBlocks(f.reader.pos - r.pos);
    } else {
      BlocksAdd(r.pos, f.from, f.reader.pos);
    }
  }

  lemma PumpKeepsAlignment(s: Session, accepts: nat, blank: TsState)
    requires SaneSession(s) && WellSized(blank) && Conserves(s) && Aligned(s)
    ensures Aligned(Step(s, Pump(accepts), blank))
  {
    hide Fetch, CheckInfo, Payload;
    var r := s.player.reader;
    var p := Refilled(s.player, s.Channel());
    if s.player.staged == [] && r.At? {
      var at, f := s.joined.value.at, PumpFetch(s);
      FetchMovesBlocks(|s.stream|, r);
      BlocksAdd(at, r.pos, f.from);
      BlocksAdd(at, r.pos, f.reader.pos);
    }
    SendsBlocks(|s.sent|, |p.staged|, accepts);
  }

  lemma SendsBlocks(sent: nat, staged: nat, accepts: nat)
    requires sent % TS_UDP_LEN == 0 && staged % TS_UDP_LEN == 0
    ensures
      var k := Min(accepts, staged / TS_UDP_LEN) * TS_UDP_LEN;
      k <= staged && (sent + k) % TS_UDP_LEN == 0 && (staged - k) % TS_UDP_LEN == 0
  {
  }

  lemma PumpKeepsLogs(s: Session, accepts: nat, blank: TsState)
    requires SaneSession(s) && WellSized(blank) && Conserves(s)
    requires FaithfulLog(s.log, s.stream, DEFAULT_MAX_DATA_SIZE, s.player.reader)
    requires LosslessLog(s.log, DEFAULT_MAX_DATA_SIZE, s.player.reader)
    ensures
      var s' := Step(s, Pump(accepts), blank);
      && FaithfulLog(s'.log, s'.stream, DEFAULT_MAX_DATA_SIZE, s'.player.reader)
      && LosslessLog(s'.log, DEFAULT_MAX_DATA_SIZE, s'.player.reader)
  {
    var r := s.player.reader;
    if s.player.staged == [] && r.At? {
      var n := DEFAULT_MAX_DATA_SIZE;
      GetSkipsWholeLaps(|s.stream|, n, r, DATA_BUFF_SIZE, TS_UDP_LEN, false);
      GetKeepsLog(s.log, s.stream, n, r, PumpFetch(s));
      SteadyGetKeepsLog(s.log, s.stream, n, r, DATA_BUFF_SIZE, TS_UDP_LEN, false);
    }
  }

  /** The whole run: what the player has been sent is the preamble, if any, and then whole blocks of the published
      stream, each from within the last ring's worth of bytes, in order and back to back except for whole laps;
      and no lap is skipped while the player keeps within one lap of the publisher. */
  lemma {:induction false} EveryRunDeliversTheStream(actions: seq<Action>, blank: TsState)
    requires WellSized(blank) && (forall a :: a in actions ==> WellFormed(a))
    ensures
      var s := Run(actions, blank);
      && Conserves(s) && Aligned(s)
      && FaithfulLog(s.log, s.stream, DEFAULT_MAX_DATA_SIZE, s.player.reader)
      && LosslessLog(s.log, DEFAULT_MAX_DATA_SIZE, s.player.reader)
  {
    if actions == [] {
      assert FaithfulLog([], [], DEFAULT_MAX_DATA_SIZE, Fresh);
    } else {
      hide FaithfulLog, LosslessLog, Conserves, Aligned;
      EveryRunDeliversTheStream(actions[..|actions| - 1], blank);
      var s := Run(actions[..|actions| - 1], blank);
      match actions[|actions| - 1]
      case Publish(data, len) =>
        PublishKeepsAll(s, data, len, blank);
      case Pump(accepts) =>
        PumpKeepsConservation(s, accepts, blank);
        PumpKeepsAlignment(s, accepts, blank);
        PumpKeepsLogs(s, accepts, blank);
    }
  }

  lemma PublishKeepsAll(s: Session, data: seq<byte>, len: int, blank: TsState)
    requires SaneSession(s) && WellFormed(Publish(data, len)) && WellSized(blank)
    requires Conserves(s) && Aligned(s)
    requires FaithfulLog(s.log, s.stream, DEFAULT_MAX_DATA_SIZE, s.player.reader)
    ensures
      var s' := Step(s, Publish(data, len), blank);
      Conserves(s') && Aligned(s') && FaithfulLog(s'.log, s'.stream, DEFAULT_MAX_DATA_SIZE, s'.player.reader)
  {
    hide FaithfulLog, CheckInfo;
    PutKeepsLog(s.log, s.stream, if 0 < len <= DEFAULT_MAX_DATA_SIZE then data[..len] else [],
                DEFAULT_MAX_DATA_SIZE, s.player.reader);
  }

  /** A player that joins once the parser is complete is handed the preamble every other such player gets: it does
      not change for the rest of the run. */
  lemma {:induction false} PreambleStaysForAll(actions: seq<Action>, blank: TsState, m: nat)
    requires WellSized(blank) && (forall a :: a in actions ==> WellFormed(a)) && m <= |actions|
    requires var s := Run(actions[..m], blank); s.info.Some? && Complete(s.info.value)
    ensures Run(actions, blank).info == Run(actions[..m], blank).info
  {
    if m < |actions| {
      var front := actions[..|actions| - 1];
      assert front[..m] == actions[..m];
      PreambleStaysForAll(front, blank, m);
    } else {
      assert actions[..m] == actions;
    }
  }

  /** The preamble of the moment: none if no datagram has arrived yet. */
  function CurrentPreamble(s: Session): seq<byte> {
    if s.info.Some? then s.info.value.tsData else []
  }

  lemma StepKeepsJoin(s: Session, a: Action, blank: TsState)
    requires SaneSession(s) && WellFormed(a) && WellSized(blank) && s.joined.Some? && s.player.reader.At?
    ensures Step(s, a, blank).joined == s.joined && Step(s, a, blank).player.reader.At?
  {
    hide CheckInfo;
  }

  lemma {:induction false} JoinStays(actions: seq<Action>, blank: TsState, m: nat)
    requires WellSized(blank) && (forall a :: a in actions ==> WellFormed(a)) && m <= |actions|
    requires Run(actions[..m], blank).joined.Some? && Run(actions[..m], blank).player.reader.At?
    ensures Run(actions, blank).joined == Run(actions[..m], blank).joined && Run(actions, blank).player.reader.At?
  {
    hide Step;
    if m < |actions| {
      var front := actions[..|actions| - 1];
      assert front[..m] == actions[..m];
      JoinStays(front, blank, m);
      StepKeepsJoin(Run(front, blank), actions[|actions| - 1], blank);
    } else {
      assert actions[..m] == actions;
    }
  }

  lemma JoiningStep(s: Session, accepts: nat, blank: TsState)
    requires SaneSession(s) && WellSized(blank) && s.player == PlayerState(Fresh, [])
    ensures var s' := Step(s, Pump(accepts), blank);
      s'.joined == Some(Join(|s.stream|, CurrentPreamble(s))) && s'.player.reader.At?
  {
  }

  /** Whatever happens later, the bytes a player has been sent, with those staged for it, begin with the preamble of
      the moment it joined. */
  lemma SentBytesBeginWithPreamble(actions: seq<Action>, blank: TsState, m: nat)
    requires WellSized(blank) && (forall a :: a in actions ==> WellFormed(a)) && m < |actions|
    requires actions[m].Pump? && Run(actions[..m], blank).player == PlayerState(Fresh, [])
    ensures var s := Run(actions, blank); CurrentPreamble(Run(actions[..m], blank)) <= s.sent + s.player.staged
  {
    hide Step, Aligned, FaithfulLog, LosslessLog, CurrentPreamble, Payload;
    var s := Run(actions[..m], blank);
    assert actions[..m + 1][..m] == actions[..m];
    JoiningStep(s, actions[m].accepts, blank);
    assert Run(actions[..m + 1], blank) == Step(s, actions[m], blank);
    JoinStays(actions, blank, m + 1);
    EveryRunDeliversTheStream(actions, blank);
  }

  // ----- how much the pump moves

  /** Since it last looked a reader has never been a whole lap behind what it then saw. */
  predicate IsNear(r: Reader) {
    r.At? ==> r.pos <= r.seen < r.pos + DEFAULT_MAX_DATA_SIZE
  }

  lemma FetchStaysNear(total: nat, r: Reader)
    requires Sane(r, total) && IsNear(r)
    ensures IsNear(Fetch(total, DEFAULT_MAX_DATA_SIZE, r, DATA_BUFF_SIZE, TS_UDP_LEN).reader)
  {
    hide Mod;
    if r.At? && r.pos < total {
      ReadyBounds(total, r.pos, DEFAULT_MAX_DATA_SIZE);
      CopyLenBounds(Ready(total, r.pos, DEFAULT_MAX_DATA_SIZE), DATA_BUFF_SIZE, TS_UDP_LEN);
    }
  }

  lemma {:induction false} ReaderStaysNear(actions: seq<Action>, blank: TsState)
    requires WellSized(blank) && (forall a :: a in actions ==> WellFormed(a))
    ensures IsNear(Run(actions, blank).player.reader)
  {
    hide Fetch, CheckInfo;
    if actions != [] {
      var front := actions[..|actions| - 1];
      ReaderStaysNear(front, blank);
      var s := Run(front, blank);
      FetchStaysNear(|s.stream|, s.player.reader);
    }
  }

  lemma FetchTakesAllItCan(total: nat, r: Reader)
    requires r.At? && Sane(r, total) && IsNear(r) && total - r.pos <= DEFAULT_MAX_DATA_SIZE
    ensures
      var f := Fetch(total, DEFAULT_MAX_DATA_SIZE, r, DATA_BUFF_SIZE, TS_UDP_LEN);
      && f.len >= 0 && f.from == r.pos && f.reader.At? && f.reader.pos == r.pos + f.len
      && (total - f.reader.pos < TS_UDP_LEN || f.len == DATA_BUFF_SIZE)
  {
    hide Mod, Fetch;
    FetchMovesBlocks(total, r);
    SteadyGetLosesNothing(total, DEFAULT_MAX_DATA_SIZE, r, DATA_BUFF_SIZE, TS_UDP_LEN, false);
    if total > r.pos {
      FullLapIsNew(total, r);
      assert Gap(r.pos, total - (total - r.pos), DEFAULT_MAX_DATA_SIZE) by { NoGap(r.pos); }
      GetTakesAllItCan(total, DEFAULT_MAX_DATA_SIZE, r, total - r.pos, DATA_BUFF_SIZE, TS_UDP_LEN);
      FetchedBlocks(total, r);
    }
  }

  lemma NoGap(pos: nat)
    ensures Gap(pos, pos, DEFAULT_MAX_DATA_SIZE)
  {
  }

  lemma FullLapIsNew(total: nat, r: Reader)
    requires r.At? && Sane(r, total) && IsNear(r) && r.pos < total <= r.pos + DEFAULT_MAX_DATA_SIZE
    ensures !(Mod(total - r.pos, DEFAULT_MAX_DATA_SIZE) == 0 && (total - r.seen) % 0x1_0000_0000 == 0)
  {
  }

  /** In every run: a pump call of a player with nothing staged and within one lap fetches the next bytes of the
      stream, in order, as far as there are whole blocks of them and the staging buffer holds them. */
  lemma PumpFetchesAllItCan(actions: seq<Action>, blank: TsState, accepts: nat)
    requires WellSized(blank) && (forall a :: a in actions ==> WellFormed(a))
    requires
      var s := Run(actions, blank);
      s.player.staged == [] && s.player.reader.At? && |s.stream| - s.player.reader.pos <= DEFAULT_MAX_DATA_SIZE
    ensures
      var s := Run(actions, blank);
      var s' := Step(s, Pump(accepts), blank);
      && s'.player.reader.At? && s.player.reader.pos <= s'.player.reader.pos <= |s.stream|
      && s'.sent + s'.player.staged == s.sent + s.stream[s.player.reader.pos..s'.player.reader.pos]
      && (|s.stream| - s'.player.reader.pos < TS_UDP_LEN
          || s'.player.reader.pos - s.player.reader.pos == DATA_BUFF_SIZE)
  {
    hide Fetch, Run;
    var s := Run(actions, blank);
    ReaderStaysNear(actions, blank);
    FetchTakesAllItCan(|s.stream|, s.player.reader);
    var p := Refilled(s.player, s.Channel());
    SplitJoins(s.sent, p.staged, Min(accepts, |p.staged| / TS_UDP_LEN) * TS_UDP_LEN);
  }

  // ----- what the publisher's side of a run amounts to

  /** The bytes of the datagrams that fit the ring, in order. */
  function Received(actions: seq<Action>): seq<byte>
    requires forall a :: a in actions ==> WellFormed(a)
  {
    if actions == [] then []
    else
      var last := actions[|actions| - 1];
      assert last in actions && WellFormed(last);
      Received(actions[..|actions| - 1])
      + if last.Publish? && 0 < last.len <= DEFAULT_MAX_DATA_SIZE then last.data[..last.len] else []
  }

  /** The packets of all datagrams, in order. */
  function AllPackets(actions: seq<Action>): (packets: seq<seq<byte>>)
    requires forall a :: a in actions ==> WellFormed(a)
    ensures forall p :: p in packets ==> |p| >= TS_PACK_LEN
  {
    if actions == [] then []
    else
      var last := actions[|actions| - 1];
      assert last in actions && WellFormed(last);
      AllPackets(actions[..|actions| - 1]) + if last.Publish? then PacketsOf(last.data, last.len, 0) else []
  }

  predicate AnyPublish(actions: seq<Action>) {
    exists i :: 0 <= i < |actions| && actions[i].Publish?
  }

  lemma AnyPublishStep(actions: seq<Action>)
    requires actions != []
    ensures AnyPublish(actions) <==> AnyPublish(actions[..|actions| - 1]) || actions[|actions| - 1].Publish?
  {
    var front := actions[..|actions| - 1];
    assert forall i :: 0 <= i < |front| ==> front[i] == actions[i];
  }

  /** In every run the stream is all that was received, and the parser is a fresh one that was fed all packets of all
      datagrams, one after the other, until it was complete. */
  lemma {:induction false} PublishedExactly(actions: seq<Action>, blank: TsState)
    requires WellSized(blank) && (forall a :: a in actions ==> WellFormed(a))
    ensures
      var s := Run(actions, blank);
      && s.stream == Received(actions)
      && s.info == if AnyPublish(actions) then Some(FeedUntilComplete(blank, AllPackets(actions))) else None
  {
    hide CheckInfo, FeedUntilComplete, PacketsOf, AnyPublish;
    if actions == [] {
      NothingFed(blank);
    } else {
      var front, last := actions[..|actions| - 1], actions[|actions| - 1];
      PublishedExactly(front, blank);
      AnyPublishStep(actions);
      if last.Publish? {
        OneDatagram(Run(front, blank), front, last, blank);
      } else {
        assert AllPackets(front) + [] == AllPackets(front) && Received(front) + [] == Received(front);
      }
    }
  }

  lemma NothingFed(blank: TsState)
    requires WellSized(blank)
    ensures FeedUntilComplete(blank, []) == blank && !AnyPublish([])
  {
  }

  lemma {:induction false} NoPublishNoPackets(actions: seq<Action>)
    requires (forall a :: a in actions ==> WellFormed(a)) && !AnyPublish(actions)
    ensures AllPackets(actions) == []
  {
    if actions != [] {
      AnyPublishStep(actions);
      NoPublishNoPackets(actions[..|actions| - 1]);
    }
  }

  lemma OneDatagram(s: Session, front: seq<Action>, last: Action, blank: TsState)
    requires SaneSession(s) && WellSized(blank) && last.Publish? && WellFormed(last)
    requires forall a :: a in front ==> WellFormed(a)
    requires s.info == if AnyPublish(front) then Some(FeedUntilComplete(blank, AllPackets(front))) else None
    ensures
      Step(s, last, blank).info
      == Some(FeedUntilComplete(blank, AllPackets(front) + PacketsOf(last.data, last.len, 0)))
  {
    hide CheckInfo, FeedUntilComplete, PacketsOf, AnyPublish, Received, AllPackets;
    var before := if s.info.Some? then s.info.value else blank;
    if !AnyPublish(front) {
      NoPublishNoPackets(front);
      NothingFed(blank);
    }
    CheckInfoFeeds(before, last.data, last.len, 0);
    FeedJoins(blank, AllPackets(front), PacketsOf(last.data, last.len, 0));
  }
}
