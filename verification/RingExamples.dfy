/** The exception of CounterAliasesExactly happens: a run of the default ring, read with the pump's own requests, in
    which the 32-bit counter hides data from a reader. */
module RingExamples {
  import opened Bytes
  import opened RecycleRing
  import opened RecycleRuns

  /** What the pump asks for: up to 100 blocks of 1316 bytes. */
  const READ := Get(0, 100 * 1316, 1316)

  /** So much unread data that 2^32 more bytes bring the writer back to the reader's ring position. */
  const BACKLOG := 1130496

  const ROUND := 0x1_0000_0000

  function Zeros(m: nat): (s: seq<byte>)
    ensures |s| == m
  {
    seq(m, _ => 0)
  }

  /** Puts of `m` bytes in all, none larger than the ring. */
  function Flood(n: nat, m: nat): seq<Event>
    requires n > 0
    decreases m
  {
    if m == 0 then [] else if m <= n then [Put(Zeros(m))] else Flood(n, m - n) + [Put(Zeros(n))]
  }

  lemma AddEvent(n: nat, events: seq<Event>, e: Event, wide: bool)
    requires n > 0
    ensures Run(n, events + [e], wide) == Step(Run(n, events, wide), n, e, wide)
  {
    assert (events + [e])[..|events|] == events;
  }

  lemma PutAdds(n: nat, events: seq<Event>, m: nat, wide: bool)
    requires 0 < m <= n
    ensures
      var w, w' := Run(n, events, wide), Run(n, events + [Put(Zeros(m))], wide);
      |w'.stream| == |w.stream| + m && w'.readers == w.readers && w'.logs == w.logs
  {
    hide Run, Zeros;
    AddEvent(n, events, Put(Zeros(m)), wide);
  }

  lemma {:induction false} FloodAdds(n: nat, events: seq<Event>, m: nat, wide: bool)
    requires n > 0
    ensures
      var w, w' := Run(n, events, wide), Run(n, events + Flood(n, m), wide);
      |w'.stream| == |w.stream| + m && w'.readers == w.readers && w'.logs == w.logs
    decreases m
  {
    hide Run, Zeros;
    if m == 0 {
      assert events + Flood(n, m) == events;
    } else if m <= n {
      PutAdds(n, events, m, wide);
    } else {
      FloodAdds(n, events, m - n, wide);
      PutAdds(n, events + Flood(n, m - n), n, wide);
      assert events + Flood(n, m) == events + Flood(n, m - n) + [Put(Zeros(n))];
    }
  }

  function BeforeTheRound(): seq<Event> {
    [] + [READ] + Flood(DEFAULT_MAX_DATA_SIZE, READ.size + BACKLOG) + [READ]
  }

  function AliasedRun(): seq<Event> {
    BeforeTheRound() + Flood(DEFAULT_MAX_DATA_SIZE, ROUND) + [READ]
  }

  lemma PartialRead(wide: bool)
    ensures
      Look(READ.size + BACKLOG, DEFAULT_MAX_DATA_SIZE, At(0, 0), READ.size, READ.aligned, wide)
      == Fetched(At(READ.size, READ.size + BACKLOG), 0, READ.size)
  {
    var total, n := READ.size + BACKLOG, DEFAULT_MAX_DATA_SIZE;
    assert Mod(total, n) == total;
    ReadyBounds(total, 0, n);
    ModIsRemainder(READ.size, READ.aligned);
    assert CopyLen(total, READ.size, READ.aligned) == READ.size;
  }

  /** After the partial read, under either counter. */
  lemma BacklogIsLeft(wide: bool)
    ensures
      var w := Run(DEFAULT_MAX_DATA_SIZE, BeforeTheRound(), wide);
      && w.ReaderOf(0) == At(READ.size, READ.size + BACKLOG) && |w.stream| == READ.size + BACKLOG
      && |w.LogOf(0)| == 1
  {
    var n := DEFAULT_MAX_DATA_SIZE;
    AddEvent(n, [], READ, wide);
    FirstGetJoins(0, n, READ.size, READ.aligned, wide);
    FloodAdds(n, [] + [READ], READ.size + BACKLOG, wide);
    AddEvent(n, [] + [READ] + Flood(n, READ.size + BACKLOG), READ, wide);
    PartialRead(wide);
  }

  lemma RoundMeetsTheReader()
    ensures Mod(BACKLOG + ROUND, DEFAULT_MAX_DATA_SIZE) == 0
  {
    ModIsRemainder(BACKLOG + ROUND, DEFAULT_MAX_DATA_SIZE);
  }

  /** With the unbounded counter the last read gets data; with the 32-bit counter it is told there is none. */
  lemma CounterAliasHappens()
    ensures
      var n := DEFAULT_MAX_DATA_SIZE;
      |Run(n, AliasedRun(), false).LogOf(0)| == 1 && |Run(n, AliasedRun(), true).LogOf(0)| == 2
  {
    LastRead(false);
    LastRead(true);
  }

  lemma LastRead(wide: bool)
    ensures |Run(DEFAULT_MAX_DATA_SIZE, AliasedRun(), wide).LogOf(0)| == if wide then 2 else 1
  {
    hide Flood, Run, Step, Mod;
    var n := DEFAULT_MAX_DATA_SIZE;
    var before := BeforeTheRound() + Flood(n, ROUND);
    BacklogIsLeft(wide);
    FloodAdds(n, BeforeTheRound(), ROUND, wide);
    AddEvent(n, before, READ, wide);
    ReadAfterTheRound(Run(n, before, wide), wide);
  }

  lemma ReadAfterTheRound(w: World, wide: bool)
    requires SaneWorld(w) && w.ReaderOf(0) == At(READ.size, READ.size + BACKLOG)
    requires |w.stream| == READ.size + BACKLOG + ROUND && |w.LogOf(0)| == 1
    ensures |Step(w, DEFAULT_MAX_DATA_SIZE, READ, wide).LogOf(0)| == if wide then 2 else 1
  {
    hide Mod;
    RoundMeetsTheReader();
    var n := DEFAULT_MAX_DATA_SIZE;
    ReadyBounds(|w.stream|, READ.size, n);
    CopyLenBounds(Ready(|w.stream|, READ.size, n), READ.size, READ.aligned);
  }

  /** A reader one lap behind on a ring of at least one block that asks for less than a block: it is moved past bytes
      that the ring still holds, and gets none. */
  lemma StalledReaderHappens(n: nat)
    requires 1316 <= n < ROUND
    ensures var f := Fetch(n, n, At(0, 0), 1315, 1316); f.len <= 0 && f.reader.pos != f.from
  {
    hide Mod;
    ShortRead(n);
    StalledReaderLosesLap(n, n, At(0, 0), 1315, 1316);
    ReadyBounds(n, 0, n);
  }

  lemma ShortRead(n: nat)
    requires n >= 1316
    ensures CopyLen(n, 1315, 1316) == 0 && Mod(n, n) == 0
  {
    assert Mod(1315, 1316) == 1315;
  }
}
