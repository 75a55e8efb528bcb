/** Who waits for whom among the threads of StreamIdThreads. The two lock orders differ, so a cycle is possible; it is
    exactly an update that has changed its row while a load holds the cache, and it cannot arise once loaded. */
module StreamIdDeadlock {
  import opened Common
  import opened StreamIdCache
  import opened StreamIdThreads

  /** Thread t cannot go on before thread u. A reader may also queue behind a waiting writer, as in a mutex that
      prefers writers. */
  predicate Waits(s: State, t: Tid, u: Tid) {
    match s.Pc(t)
    case WantsDb(_) => s.db == Some(u)
    case LoadWantsDb(_) => s.db == Some(u)
    case WantsCache(_) => s.writer == Some(u) || u in s.readers
    case LoadWantsCache(_) => s.writer == Some(u) || u in s.readers
    case WantsPeek(_) => s.writer == Some(u) || QueuesToWrite(s.Pc(u))
    case WantsRead(_) => s.writer == Some(u) || QueuesToWrite(s.Pc(u))
    case _ => false
  }

  predicate QueuesToWrite(pc: Pc) {
    pc.WantsCache? || pc.LoadWantsCache?
  }

  predicate Chain(s: State, path: seq<Tid>) {
    && path != []
    && forall i :: 0 < i < |path| ==> Waits(s, path[i - 1], path[i])
  }

  predicate Cycle(s: State, path: seq<Tid>) {
    Chain(s, path) && Waits(s, path[|path| - 1], path[0])
  }

  ghost predicate Deadlocked(s: State) {
    exists path :: Cycle(s, path)
  }

  /** An updater with its row changed waits for the cache; a loader holding the cache waits for the database. */
  predicate Clash(s: State, updater: Tid, loader: Tid) {
    s.Pc(updater).WantsCache? && s.Pc(loader).LoadWantsDb?
  }

  ghost predicate Clashes(s: State) {
    exists updater, loader :: Clash(s, updater, loader)
  }

  /** 0: running; 1: waiting for the second lock; 2: for the first lock; 3: for shared access. */
  function Rank(pc: Pc): (r: nat)
  {
    match pc
    case WantsCache(_) => 1
    case LoadWantsDb(_) => 1
    case WantsDb(_) => 2
    case LoadWantsCache(_) => 2
    case WantsPeek(_) => 3
    case WantsRead(_) => 3
    case _ => 0
  }

  lemma WaitingLowersRank(s: State, t: Tid, u: Tid)
    requires Locks(s) && !Clashes(s) && Waits(s, t, u)
    ensures Rank(s.Pc(u)) < Rank(s.Pc(t))
  {
    assert LocksOf(s, t) && LocksOf(s, u);
    assert !Clash(s, t, u) && !Clash(s, u, t);
  }

  lemma {:induction false} ChainLowersRank(s: State, path: seq<Tid>)
    requires Locks(s) && !Clashes(s) && Chain(s, path)
    ensures Rank(s.Pc(path[|path| - 1])) <= Rank(s.Pc(path[0]))
    decreases |path|
  {
    if |path| > 1 {
      ChainLowersRank(s, path[..|path| - 1]);
      WaitingLowersRank(s, path[|path| - 2], path[|path| - 1]);
    }
  }

  /** There is a cycle of waiting threads exactly when an update and a load clash. */
  lemma DeadlockedExactly(s: State)
    requires Locks(s)
    ensures Deadlocked(s) <==> Clashes(s)
  {
    if Clashes(s) {
      var updater, loader :| Clash(s, updater, loader);
      assert LocksOf(s, updater) && LocksOf(s, loader);
      assert Cycle(s, [updater, loader]);
    }
    if Deadlocked(s) && !Clashes(s) {
      var path :| Cycle(s, path);
      ChainLowersRank(s, path);
      WaitingLowersRank(s, path[|path| - 1], path[0]);
    }
  }

  /** Once the cache is loaded no cycle is reachable. */
  lemma NoDeadlockOnceLoaded(s: State, actions: seq<Action>)
    requires Initial(s) && Run(s, actions).cache.loaded
    ensures !Deadlocked(Run(s, actions))
  {
    InitialInv(s);
    EveryRunKeepsInv(s, actions);
    var r := Run(s, actions);
    DeadlockedExactly(r);
    forall updater, loader
      ensures !Clash(r, updater, loader)
    {
      assert PcFits(r, loader);
    }
  }

  lemma NoMembers(readers: set<Tid>)
    requires forall r: Tid :: r !in readers
    ensures readers == {}
  {
    var none: set<Tid> := {};
    assert forall r: Tid :: r in readers <==> r in none;
  }

  /** A thread nobody stands in the way of can take its step. */
  lemma UnblockedMoves(s: State, t: Tid, env: Env)
    requires s.Pc(t) != Idle && env.fails
    requires forall u :: !Waits(s, t, u)
    ensures Next(s, Go(t, env)).Pc(t) != s.Pc(t)
  {
    hide RowsOf, FilledFrom, Appended, Erased, Players;
    if s.db.Some? {
      assert !Waits(s, t, s.db.value);
    }
    if s.writer.Some? {
      assert !Waits(s, t, s.writer.value);
    }
    if QueuesToWrite(s.Pc(t)) {
      assert forall r :: r in s.readers ==> Waits(s, t, r);
      NoMembers(s.readers);
    }
  }

  /** Who waits for a holder of the lock it wants does not move. (A reader that queues behind a waiting writer may.) */
  lemma WaitingIsBlocked(s: State, t: Tid, u: Tid, env: Env)
    requires Waits(s, t, u) && (s.Pc(t).WantsPeek? || s.Pc(t).WantsRead? ==> s.writer == Some(u))
    ensures Next(s, Go(t, env)) == s
  {
    hide RowsOf, FilledFrom, Appended, Erased, Players;
    assert s.readers == {} ==> u !in s.readers;
  }

  /** Without a clash, whenever some thread is at work some thread can take a step. */
  lemma SomeoneMoves(s: State, t: Tid) returns (u: Tid, env: Env)
    requires Locks(s) && !Clashes(s) && s.Pc(t) != Idle
    ensures Next(s, Go(u, env)).Pc(u) != s.Pc(u)
    decreases Rank(s.Pc(t))
  {
    hide Next;
    env := Env(true, [], 0);
    if w :| Waits(s, t, w) {
      WaitingLowersRank(s, t, w);
      assert LocksOf(s, w);
      u, env := SomeoneMoves(s, w);
    } else {
      u := t;
      UnblockedMoves(s, t, env);
    }
  }

  /** A clash never resolves itself: both threads stay where they are whatever the others do. */
  lemma {:induction false} ClashIsForever(s: State, actions: seq<Action>, updater: Tid, loader: Tid)
    requires Locks(s) && Clash(s, updater, loader)
    ensures Clash(Run(s, actions), updater, loader)
  {
    if actions != [] {
      var front := actions[..|actions| - 1];
      ClashIsForever(s, front, updater, loader);
      RunKeepsLocks(s, front);
      ClashStep(Run(s, front), actions[|actions| - 1], updater, loader);
    }
  }

  lemma {:induction false} RunKeepsLocks(s: State, actions: seq<Action>)
    requires Locks(s)
    ensures Locks(Run(s, actions))
  {
    if actions != [] {
      hide Next, Locks;
      RunKeepsLocks(s, actions[..|actions| - 1]);
      LocksAreKept(Run(s, actions[..|actions| - 1]), actions[|actions| - 1]);
    }
  }

  lemma ClashStep(s: State, a: Action, updater: Tid, loader: Tid)
    requires Locks(s) && Clash(s, updater, loader)
    ensures Clash(Next(s, a), updater, loader)
  {
    hide RowsOf, FilledFrom, Appended, Erased, Players;
    assert LocksOf(s, updater) && LocksOf(s, loader);
    if a.t != updater && a.t != loader {
      NextIsOwnStep(s, a);
    }
  }

  lemma OneMore(s: State, actions: seq<Action>, a: Action)
    ensures Run(s, actions + [a]) == Next(Run(s, actions), a)
  {
    hide Next;
    assert (actions + [a])[..|actions|] == actions;
  }

  lemma {:induction false} RunsOn(s: State, first: seq<Action>, rest: seq<Action>)
    ensures Run(s, first + rest) == Run(Run(s, first), rest)
  {
    hide Next;
    if rest == [] {
      assert first + rest == first;
    } else {
      var front, last := rest[..|rest| - 1], rest[|rest| - 1];
      RunsOn(s, first, front);
      assert first + rest == (first + front) + [last];
      OneMore(s, first + front, last);
    }
  }

  lemma AnAddGetsToTheCache(s: State, entry: Entry) returns (actions: seq<Action>)
    requires Initial(s) && entry.player !in s.table
    ensures var r := Run(s, actions);
      && r.Pc(0).WantsCache? && r.Pc(1).Idle? && !r.cache.loaded && r.CacheIsFree()
  {
    var start, go := Update(0, Add(entry)), Go(0, Env(false, [], 0));
    actions := [] + [start] + [go] + [go];
    OneMore(s, [], start);
    OneMore(s, [] + [start], go);
    OneMore(s, [] + [start] + [go], go);
    AnAddSteps(s, entry);
  }

  lemma AnAddSteps(s: State, entry: Entry)
    requires Initial(s) && entry.player !in s.table
    ensures
      var go := Go(0, Env(false, [], 0));
      var r := Next(Next(Next(s, Update(0, Add(entry))), go), go);
      && r.Pc(0).WantsCache? && r.Pc(1).Idle? && !r.cache.loaded && r.CacheIsFree()
  {
    hide RowsOf, FilledFrom, Appended, Erased, Players;
    var go := Go(0, Env(false, [], 0));
    var s1 := Next(s, Update(0, Add(entry)));
    assert s1 == s.To(0, WantsDb(Add(entry)));
    assert Next(s1, go) == s1.WithDb(Some(0), 0, Executing(Add(entry)));
  }

  lemma RunOfFive(s: State, a: Action, b: Action, c: Action, d: Action, e: Action)
    ensures Run(s, [] + [a] + [b] + [c] + [d] + [e]) == Next(Next(Next(Next(Next(s, a), b), c), d), e)
  {
    hide Next, Run;
    EmptyRun(s);
    OneMore(s, [], a);
    OneMore(s, [] + [a], b);
    OneMore(s, [] + [a] + [b], c);
    OneMore(s, [] + [a] + [b] + [c], d);
    OneMore(s, [] + [a] + [b] + [c] + [d], e);
  }

  lemma PeekSteps(s: State, player: string, go: Action)
    requires s.Pc(1).Idle? && !s.cache.loaded && s.CacheIsFree() && go.Go? && go.t == 1
    ensures Next(Next(Next(s, Read(1, player)), go), go) == s.(pcs := s.pcs[1 := LoadWantsCache(player)])
  {
    hide RowsOf, FilledFrom, Players;
    var s1 := Next(s, Read(1, player));
    assert s1 == s.To(1, WantsPeek(player));
    var s2 := Next(s1, go);
    assert s2 == s1.WithReaders({1}, 1, Peeking(player));
    assert Next(s2, go) == s2.WithReaders({}, 1, LoadWantsCache(player));
  }

  lemma CacheSteps(s: State, player: string, go: Action)
    requires s.Pc(1) == LoadWantsCache(player) && !s.cache.loaded && s.CacheIsFree() && go.Go? && go.t == 1
    ensures Next(Next(s, go), go) == s.(writer := Some(1), pcs := s.pcs[1 := LoadWantsDb(player)])
  {
    hide RowsOf, FilledFrom, Players;
    assert Next(s, go) == s.WithWriter(Some(1), 1, LoadHasCache(player));
  }

  /** Thread 1 on its first read, up to the lock of the database. */
  lemma ALoadGetsToTheDatabase(s: State, player: string) returns (actions: seq<Action>)
    requires s.Pc(1).Idle? && !s.cache.loaded && s.CacheIsFree()
    ensures Run(s, actions) == s.(writer := Some(1), pcs := s.pcs[1 := LoadWantsDb(player)])
  {
    hide Next, Run;
    var start, go := Read(1, player), Go(1, Env(false, [], 0));
    actions := [] + [start] + [go] + [go] + [go] + [go];
    RunOfFive(s, start, go, go, go, go);
    PeekSteps(s, player, go);
    CacheSteps(s.(pcs := s.pcs[1 := LoadWantsCache(player)]), player, go);
  }

  lemma EmptyRun(s: State)
    ensures Run(s, []) == s
  {
  }

  /** The clash is reachable before the first load, while one client adds a stream ID and another one connects. */
  lemma DeadlockIsReachable(s: State, entry: Entry, player: string)
    requires Initial(s) && entry.player !in s.table
    ensures exists actions :: Deadlocked(Run(s, actions))
  {
    var add := AnAddGetsToTheCache(s, entry);
    var load := ALoadGetsToTheDatabase(Run(s, add), player);
    RunsOn(s, add, load);
    var r := Run(s, add + load);
    assert Clash(r, 0, 1);
    InitialInv(s);
    EveryRunKeepsInv(s, add + load);
    DeadlockedExactly(r);
  }
}
