/** Any number of threads on the stream-ID database of slscore/SLSDatabase.cpp. They share `m_db_mutex` and the
    shared mutex `m_cache_mutex`; one step is what a thread does between two lock operations. Updates lock the
    database and then the cache, the lazy load locks the cache and then the database. */
module StreamIdThreads {
  import opened Common
  import opened StreamIdCache

  type Tid = int

  datatype Task = Add(entry: Entry) | Delete(player: string) | Query

  /** What a successful statement did to the table. */
  datatype Change = Inserted(row: Entry) | Removed(row: Entry)

  datatype Pc =
    | Idle
      // addStreamId, deleteStreamId and the operations that only use the database
    | WantsDb(task: Task)
    | Executing(task: Task)
    | WantsCache(change: Change)
    | HasCache(change: Change)
    | Applied
    | Returning
      // loadStreamIdsCacheIfNeeded on behalf of a read for `player`
    | WantsPeek(player: string)
    | Peeking(player: string)
    | LoadWantsCache(player: string)
    | LoadHasCache(player: string)
    | LoadWantsDb(player: string)
    | Loading(player: string)
    | Loaded(player: string)
    | LoadReleases(player: string)
      // the read itself
    | WantsRead(player: string)
    | Reading(player: string)

  /** `missing` is history: the players whose rows a load was cut short of and that have not been deleted since. */
  datatype State = State(
    table: Table, cache: Cache, missing: set<string>, initialized: bool,
    db: Option<Tid>, writer: Option<Tid>, readers: set<Tid>, pcs: map<Tid, Pc>)
  {
    function Pc(t: Tid): Pc {
      if t in pcs then pcs[t] else Idle
    }

    function To(t: Tid, pc: Pc): State {
      this.(pcs := pcs[t := pc])
    }

    function WithDb(holder: Option<Tid>, t: Tid, pc: Pc): State {
      this.(db := holder, pcs := pcs[t := pc])
    }

    function WithWriter(holder: Option<Tid>, t: Tid, pc: Pc): State {
      this.(writer := holder, pcs := pcs[t := pc])
    }

    function WithReaders(holders: set<Tid>, t: Tid, pc: Pc): State {
      this.(readers := holders, pcs := pcs[t := pc])
    }

    function WithCache(c: Cache, left: set<string>, t: Tid, pc: Pc): State {
      this.(cache := c, missing := left, pcs := pcs[t := pc])
    }

    function WithTable(rows: Table, t: Tid, pc: Pc): State {
      this.(table := rows, pcs := pcs[t := pc])
    }

    predicate CacheIsFree() {
      writer == None && readers == {}
    }
  }

  predicate Initial(s: State) {
    Keyed(s.table) && s.cache == EMPTY && s.missing == {} && s.db == None && s.CacheIsFree() && s.pcs == map[]
  }

  /** What SQLite answers: whether the statement fails, the rows of a query, and after how many of them an error ends
      the row loop, which the load takes for the end of the rows. */
  datatype Env = Env(fails: bool, rows: seq<Entry>, cut: nat)

  datatype Action = Update(t: Tid, task: Task) | Read(t: Tid, player: string) | Go(t: Tid, env: Env)

  /** How many rows a load gets. */
  function Delivered(env: Env): nat {
    if env.cut < |env.rows| then env.cut else |env.rows|
  }

  /** A blocked or meaningless action changes nothing, so every sequence of actions is a run. */
  ghost function Next(s: State, a: Action): State {
    match a
    case Update(t, task) => if s.Pc(t).Idle? then s.To(t, WantsDb(task)) else s
    case Read(t, player) => if s.Pc(t).Idle? then s.To(t, WantsPeek(player)) else s
    case Go(t, env) => if Updates(s.Pc(t)) then GoUpdate(s, t, env) else GoRead(s, t, env)
  }

  predicate Updates(pc: Pc) {
    pc.WantsDb? || pc.Executing? || pc.WantsCache? || pc.HasCache? || pc.Applied? || pc.Returning?
  }

  function GoUpdate(s: State, t: Tid, env: Env): State
    requires Updates(s.Pc(t))
  {
    match s.Pc(t)
    case WantsDb(task) => if s.db == None then s.WithDb(Some(t), t, Executing(task)) else s
    case Executing(task) => Execute(s, t, task, env)
    case WantsCache(change) => if s.CacheIsFree() then s.WithWriter(Some(t), t, HasCache(change)) else s
    case HasCache(change) =>
      (match change
       case Inserted(row) => s.WithCache(Appended(s.cache, row), s.missing, t, Applied)
       case Removed(row) => s.WithCache(Erased(s.cache, row.player), s.missing - {row.player}, t, Applied))
    case Applied => s.WithWriter(None, t, Returning)
    case Returning => s.WithDb(None, t, Idle)
  }

  function Execute(s: State, t: Tid, task: Task, env: Env): State {
    match task
    case Add(entry) =>
      if entry.player in s.table || env.fails then s.To(t, Returning)
      else s.WithTable(s.table[entry.player := entry], t, WantsCache(Inserted(entry)))
    case Delete(player) =>
      if !s.initialized || player !in s.table || env.fails then s.To(t, Returning)
      else s.WithTable(s.table - {player}, t, WantsCache(Removed(s.table[player])))
    case Query => s.To(t, Returning)
  }

  ghost function GoRead(s: State, t: Tid, env: Env): State
    requires !Updates(s.Pc(t))
  {
    match s.Pc(t)
    case Idle => s
    case WantsPeek(p) => if s.writer == None then s.WithReaders(s.readers + {t}, t, Peeking(p)) else s
    case Peeking(p) =>
      s.WithReaders(s.readers - {t}, t, if s.cache.loaded then WantsRead(p) else LoadWantsCache(p))
    case LoadWantsCache(p) => if s.CacheIsFree() then s.WithWriter(Some(t), t, LoadHasCache(p)) else s
    case LoadHasCache(p) => s.To(t, if s.cache.loaded then LoadReleases(p) else LoadWantsDb(p))
    case LoadWantsDb(p) => if s.db == None then s.WithDb(Some(t), t, Loading(p)) else s
    case Loading(p) =>
      if !s.initialized then s.To(t, Loaded(p))
      else if env.fails then s.WithCache(EMPTY, s.missing, t, Loaded(p))
      else if RowsOf(env.rows, s.table) then
        s.WithCache(FilledFrom(env.rows[..Delivered(env)]), Players(env.rows[Delivered(env)..]), t, Loaded(p))
      else s
    case Loaded(p) => s.WithDb(None, t, LoadReleases(p))
    case LoadReleases(p) => s.WithWriter(None, t, if s.cache.loaded then WantsRead(p) else Idle)
    case WantsRead(p) => if s.writer == None then s.WithReaders(s.readers + {t}, t, Reading(p)) else s
    case Reading(p) => s.WithReaders(s.readers - {t}, t, Idle)
  }

  ghost function Run(s: State, actions: seq<Action>): State {
    if actions == [] then s else Next(Run(s, actions[..|actions| - 1]), actions[|actions| - 1])
  }

  // ----- who holds what

  predicate HoldsDb(pc: Pc) {
    || pc.Executing? || pc.WantsCache? || pc.HasCache? || pc.Applied? || pc.Returning?
    || pc.Loading? || pc.Loaded?
  }

  predicate HoldsWrite(pc: Pc) {
    || pc.HasCache? || pc.Applied?
    || pc.LoadHasCache? || pc.LoadWantsDb? || pc.Loading? || pc.Loaded? || pc.LoadReleases?
  }

  predicate HoldsShared(pc: Pc) {
    pc.Peeking? || pc.Reading?
  }

  predicate LocksOf(s: State, t: Tid) {
    && (HoldsDb(s.Pc(t)) <==> s.db == Some(t))
    && (HoldsWrite(s.Pc(t)) <==> s.writer == Some(t))
    && (HoldsShared(s.Pc(t)) <==> t in s.readers)
  }

  predicate Exclusive(s: State) {
    s.writer != None ==> s.readers == {}
  }

  ghost predicate Locks(s: State) {
    (forall t :: LocksOf(s, t)) && Exclusive(s)
  }

  /** The lock is as before, or thread t took it while it was free, or t gave it up. */
  predicate OnlyBy(t: Tid, before: Option<Tid>, after: Option<Tid>) {
    before == after || (before == None && after == Some(t)) || (before == Some(t) && after == None)
  }

  /** A step of thread t keeps its own books, takes no lock from another thread and moves no other thread. */
  ghost predicate OwnStep(s: State, s': State, t: Tid) {
    && LocksOf(s', t)
    && OnlyBy(t, s.db, s'.db) && OnlyBy(t, s.writer, s'.writer)
    && (s'.readers == s.readers || s'.readers == s.readers + {t} || s'.readers == s.readers - {t})
    && Exclusive(s')
    && (forall q: Tid :: q != t ==> s'.Pc(q) == s.Pc(q))
  }

  lemma UpdateIsOwnStep(s: State, t: Tid, env: Env)
    requires LocksOf(s, t) && Exclusive(s) && Updates(s.Pc(t))
    ensures OwnStep(s, GoUpdate(s, t, env), t)
  {
    hide Appended, Erased;
  }

  lemma ReadIsOwnStep(s: State, t: Tid, env: Env)
    requires LocksOf(s, t) && Exclusive(s) && !Updates(s.Pc(t)) && !s.Pc(t).Idle?
    ensures OwnStep(s, GoRead(s, t, env), t)
  {
    hide RowsOf, FilledFrom, Players;
    assert s.readers != {} ==> s.writer == None;
    var pc := s.Pc(t);
    if pc.WantsPeek? || pc.Peeking? {
    } else if pc.WantsRead? || pc.Reading? {
    } else if pc.Loading? {
    } else {
    }
  }

  lemma StartIsOwnStep(s: State, a: Action)
    requires LocksOf(s, a.t) && Exclusive(s) && s.Pc(a.t).Idle?
    ensures Next(s, a) == s || OwnStep(s, Next(s, a), a.t)
  {
  }

  lemma NextIsOwnStep(s: State, a: Action)
    requires Locks(s)
    ensures Next(s, a) == s || OwnStep(s, Next(s, a), a.t)
  {
    hide GoUpdate, GoRead, OwnStep;
    assert LocksOf(s, a.t);
    if s.Pc(a.t).Idle? {
      StartIsOwnStep(s, a);
    } else if a.Go? && Updates(s.Pc(a.t)) {
      UpdateIsOwnStep(s, a.t, a.env);
    } else if a.Go? {
      ReadIsOwnStep(s, a.t, a.env);
    }
  }

  lemma LocksAreKept(s: State, a: Action)
    requires Locks(s)
    ensures Locks(Next(s, a))
  {
    hide HoldsDb, HoldsWrite, HoldsShared, Next;
    NextIsOwnStep(s, a);
    var s' := Next(s, a);
    forall q: Tid | q != a.t
      ensures LocksOf(s', q)
    {
      assert LocksOf(s, q);
      assert s'.Pc(q) == s.Pc(q);
    }
    assert LocksOf(s', a.t);
  }

  // ----- the cache against the table

  /** A change whose statement has been executed and which the cache has not seen yet. */
  predicate InFlight(pc: Pc) {
    pc.WantsCache? || pc.HasCache?
  }

  predicate IsDone(change: Change, table: Table) {
    match change
    case Inserted(row) => row.player in table && table[row.player] == row
    case Removed(row) => row.player !in table
  }

  function Undo(change: Change, table: Table): Table {
    match change
    case Inserted(row) => table - {row.player}
    case Removed(row) => table[row.player := row]
  }

  /** The table without the change in flight; at most one is, as its thread holds the database. */
  function Base(s: State): Table {
    if s.db.Some? && InFlight(s.Pc(s.db.value)) then Undo(s.Pc(s.db.value).change, s.table) else s.table
  }

  predicate PcFits(s: State, t: Tid) {
    var pc := s.Pc(t);
    && (InFlight(pc) ==> IsDone(pc.change, s.table))
    && (pc.LoadWantsDb? || pc.Loading? ==> !s.cache.loaded)
    && (pc.WantsRead? || pc.Reading? ==> s.cache.loaded)
  }

  ghost predicate Inv(s: State) {
    && Locks(s)
    && Keyed(s.table)
    && (forall t :: PcFits(s, t))
    && (if s.cache.loaded then CacheFits(s) else s.missing == {})
  }

  /** The cache mirrors the table without the change in flight and without the rows that were cut off. */
  ghost predicate CacheFits(s: State) {
    s.missing <= Base(s).Keys && Mirrors(s.cache, Base(s) - s.missing)
  }

  /** The three kinds of step that touch the table or the cache. */
  predicate Touches(pc: Pc) {
    pc.Executing? || pc.HasCache? || pc.Loading?
  }

  predicate SameFlight(before: Pc, after: Pc) {
    && (InFlight(before) <==> InFlight(after))
    && (InFlight(before) ==> before.change == after.change)
  }

  lemma QuietUpdate(s: State, t: Tid, env: Env)
    requires Updates(s.Pc(t)) && PcFits(s, t) && !Touches(s.Pc(t))
    ensures var s' := GoUpdate(s, t, env);
      && s'.table == s.table && s'.cache == s.cache && s'.missing == s.missing
      && SameFlight(s.Pc(t), s'.Pc(t)) && PcFits(s', t)
  {
    hide IsDone;
  }

  lemma QuietRead(s: State, t: Tid, env: Env)
    requires !Updates(s.Pc(t)) && PcFits(s, t) && !Touches(s.Pc(t))
    ensures var s' := GoRead(s, t, env);
      && s'.table == s.table && s'.cache == s.cache && s'.missing == s.missing
      && SameFlight(s.Pc(t), s'.Pc(t)) && PcFits(s', t)
  {
    hide IsDone;
  }

  lemma QuietStep(s: State, a: Action)
    requires Locks(s) && PcFits(s, a.t) && !(a.Go? && Touches(s.Pc(a.t)))
    ensures Next(s, a).table == s.table && Next(s, a).cache == s.cache && Next(s, a).missing == s.missing
    ensures PcFits(Next(s, a), a.t)
    ensures Base(Next(s, a)) == Base(s)
  {
    hide IsDone, GoUpdate, GoRead, Touches, Undo, HoldsWrite, HoldsShared;
    if a.Go? && Updates(s.Pc(a.t)) {
      QuietUpdate(s, a.t, a.env);
    } else if a.Go? {
      QuietRead(s, a.t, a.env);
    }
    NextIsOwnStep(s, a);
    QuietBase(s, Next(s, a), a.t);
  }

  lemma QuietBase(s: State, s': State, t: Tid)
    requires Locks(s) && (s' == s || OwnStep(s, s', t))
    requires s'.table == s.table && SameFlight(s.Pc(t), s'.Pc(t))
    ensures Base(s') == Base(s)
  {
    hide Undo, HoldsWrite, HoldsShared;
    assert LocksOf(s, t);
    if s.db.Some? {
      assert LocksOf(s, s.db.value);
    }
  }

  lemma ExecuteStep(s: State, t: Tid, env: Env)
    requires Keyed(s.table) && s.Pc(t).Executing? && s.db == Some(t)
    ensures var s' := GoUpdate(s, t, env);
      && Keyed(s'.table) && s'.cache == s.cache && s'.missing == s.missing && PcFits(s', t) && Base(s') == s.table
  {
    hide RowsOf, Appended, Erased, FilledFrom;
    var s' := GoUpdate(s, t, env);
    if s'.Pc(t).WantsCache? {
      match s.Pc(t).task
      case Add(entry) => assert s'.table - {entry.player} == s.table;
      case Delete(player) => assert s'.table[player := s.table[player]] == s.table;
    }
  }

  lemma ApplyStep(s: State, t: Tid, env: Env)
    requires Keyed(s.table) && s.Pc(t).HasCache? && s.db == Some(t) && PcFits(s, t)
    requires if s.cache.loaded then CacheFits(s) else s.missing == {}
    ensures var s' := GoUpdate(s, t, env);
      && s'.table == s.table && s'.cache.loaded == s.cache.loaded && PcFits(s', t)
      && (if s'.cache.loaded then CacheFits(s') else s'.missing == {})
  {
    hide Mirrors, WithoutPlayer;
    if s.cache.loaded {
      var base := Base(s);
      match s.Pc(t).change
      case Inserted(row) =>
        AppendMirrors(s.cache, base - s.missing, row);
        assert (base - s.missing)[row.player := row] == base[row.player := row] - s.missing;
        assert base[row.player := row] == s.table;
      case Removed(row) =>
        EraseMirrors(s.cache, base - s.missing, row.player);
        assert (base - s.missing) - {row.player} == (base - {row.player}) - (s.missing - {row.player});
        assert base - {row.player} == s.table;
    }
  }

  lemma LoadStep(s: State, t: Tid, env: Env)
    requires Keyed(s.table) && s.Pc(t).Loading? && s.db == Some(t) && PcFits(s, t) && s.missing == {}
    ensures var s' := GoRead(s, t, env);
      && s'.table == s.table && PcFits(s', t)
      && (if s'.cache.loaded then CacheFits(s') else s'.missing == {})
  {
    hide Mirrors, RowsOf, LookupOf, Players;
    if RowsOf(env.rows, s.table) {
      var k := Delivered(env);
      CutRows(env.rows, k, s.table);
      FillMirrors(env.rows[..k], s.table - Players(env.rows[k..]));
    }
  }

  lemma LoadingIsNotLoaded(s: State, t: Tid)
    requires s.Pc(t).Loading? && PcFits(s, t)
    ensures !s.cache.loaded
  {
  }

  lemma TouchingStep(s: State, t: Tid, env: Env)
    requires Keyed(s.table) && LocksOf(s, t) && PcFits(s, t) && Touches(s.Pc(t))
    requires if s.cache.loaded then CacheFits(s) else s.missing == {}
    ensures var s' := Next(s, Go(t, env));
      && Keyed(s'.table) && PcFits(s', t)
      && (if s'.cache.loaded then CacheFits(s') else s'.missing == {})
  {
    hide Mirrors, PcFits, GoUpdate, GoRead, Keyed, Players;
    if s.Pc(t).Executing? {
      ExecuteStep(s, t, env);
    } else if s.Pc(t).HasCache? {
      ApplyStep(s, t, env);
    } else {
      LoadingIsNotLoaded(s, t);
      LoadStep(s, t, env);
    }
  }

  /** What a step of thread t means for another thread. */
  lemma OthersStillFit(s: State, a: Action, q: Tid)
    requires Locks(s) && q != a.t && PcFits(s, q) && PcFits(s, a.t)
    ensures PcFits(Next(s, a), q)
  {
    hide IsDone, RowsOf, FilledFrom, LookupOf, Players;
    assert LocksOf(s, q) && LocksOf(s, a.t);
    NextIsOwnStep(s, a);
    if !(a.Go? && Touches(s.Pc(a.t))) {
      QuietStep(s, a);
    }
  }

  lemma InvIsKept(s: State, a: Action)
    requires Inv(s)
    ensures Inv(Next(s, a))
  {
    hide Mirrors, PcFits, Base, GoUpdate, GoRead, LocksOf, Keyed;
    LocksAreKept(s, a);
    assert LocksOf(s, a.t) && PcFits(s, a.t);
    forall q: Tid | q != a.t
      ensures PcFits(Next(s, a), q)
    {
      assert PcFits(s, q);
      OthersStillFit(s, a, q);
    }
    if !(a.Go? && Touches(s.Pc(a.t))) {
      QuietStep(s, a);
    } else {
      TouchingStep(s, a.t, a.env);
    }
  }

  lemma {:induction false} EveryRunKeepsInv(s: State, actions: seq<Action>)
    requires Inv(s)
    ensures Inv(Run(s, actions))
  {
    if actions != [] {
      EveryRunKeepsInv(s, actions[..|actions| - 1]);
      hide Inv, Next;
      InvIsKept(Run(s, actions[..|actions| - 1]), actions[|actions| - 1]);
    }
  }

  lemma InitialInv(s: State)
    requires Initial(s)
    ensures Inv(s)
  {
  }

  // ----- what readers see

  /** The publisher the table gives for a player. */
  function Answer(t: Table, player: string): Option<string> {
    if player in t then Some(t[player].publisher) else None
  }

  /** Once loaded, whenever no thread holds the database, the cache is the table without the rows that were cut off:
      it is the table exactly if no such row is left. */
  lemma CacheMirrorsTable(s: State, actions: seq<Action>)
    requires Initial(s)
    ensures var r := Run(s, actions); r.cache.loaded && r.db == None ==>
      && r.missing <= r.table.Keys && Mirrors(r.cache, r.table - r.missing)
      && (Mirrors(r.cache, r.table) <==> r.missing == {})
  {
    hide Run, Mirrors, Projection;
    InitialInv(s);
    EveryRunKeepsInv(s, actions);
    var r := Run(s, actions);
    if r.cache.loaded && r.db == None {
      MirrorsExactly(r.cache, r.table, r.missing);
    }
  }

  /** No error ends a row loop early. */
  predicate NoLoadIsCut(actions: seq<Action>) {
    forall i :: 0 <= i < |actions| && actions[i].Go? ==> actions[i].env.cut >= |actions[i].env.rows|
  }

  lemma StepMissesNothing(s: State, a: Action)
    requires s.missing == {} && (a.Go? ==> a.env.cut >= |a.env.rows|)
    ensures Next(s, a).missing == {}
  {
    hide RowsOf, FilledFrom, Appended, Erased;
    assert a.Go? ==> Delivered(a.env) == |a.env.rows| && a.env.rows[Delivered(a.env)..] == [];
  }

  lemma {:induction false} UncutRunsMissNothing(s: State, actions: seq<Action>)
    requires s.missing == {} && NoLoadIsCut(actions)
    ensures Run(s, actions).missing == {}
  {
    if actions != [] {
      hide Next;
      UncutRunsMissNothing(s, actions[..|actions| - 1]);
      StepMissesNothing(Run(s, actions[..|actions| - 1]), actions[|actions| - 1]);
    }
  }

  lemma NoPlayers()
    ensures Players([]) == {}
  {
    var none: set<string> := {};
    assert forall p: string :: p in Players([]) <==> p in none;
  }

  /** A load misses exactly the players whose rows it was not given. */
  lemma LoadMissesExactly(s: State, t: Tid, env: Env)
    requires Inv(s) && s.Pc(t).Loading? && s.initialized && !env.fails && RowsOf(env.rows, s.table)
    ensures var s' := Next(s, Go(t, env));
      && s'.cache.loaded && s'.missing == Players(env.rows[Delivered(env)..])
      && (s'.missing == {} <==> env.cut >= |env.rows|)
  {
    hide RowsOf, LookupOf, Inv;
    if env.cut < |env.rows| {
      assert env.rows[env.cut..][0].player in Players(env.rows[env.cut..]);
    } else {
      assert env.rows[Delivered(env)..] == [];
      NoPlayers();
    }
  }

  /** A loaded cache is never loaded again: a missing player stays missing until its row is deleted. */
  lemma OnlyDeletionHeals(s: State, a: Action, player: string)
    requires Inv(s) && s.cache.loaded && player in s.missing && player !in Next(s, a).missing
    ensures a.Go? && s.Pc(a.t).HasCache? && s.Pc(a.t).change.Removed? && s.Pc(a.t).change.row.player == player
  {
    hide Mirrors, RowsOf, FilledFrom, Appended, Erased, Locks, Players;
    assert PcFits(s, a.t);
  }

  /** The change in flight concerns this player, and the reader sees the row as it was before: absent if it has
      just been inserted, still there if it has just been removed. */
  predicate SeesBefore(s: State, player: string, seen: Option<string>) {
    && s.db.Some? && s.Pc(s.db.value).WantsCache?
    && match s.Pc(s.db.value).change
       case Inserted(row) => row.player == player && seen == None
       case Removed(row) => row.player == player && seen == Some(row.publisher)
  }

  /** In every reachable state the linear scan and the map lookup of a reading thread agree. They give the table's
      answer except for the one change in flight and for rows that were cut off, which count as absent. */
  lemma ReadsLagByOneUpdate(s: State, actions: seq<Action>, t: Tid)
    requires Initial(s) && Run(s, actions).Pc(t).Reading?
    ensures
      var r := Run(s, actions);
      var player := r.Pc(t).player;
      var seen := Find(r.cache.lookup, player);
      && Scan(r.cache.entries, player) == seen
      && if player in r.missing then seen == None
         else seen == Answer(r.table, player) || SeesBefore(r, player, seen)
  {
    hide Run, Mirrors, Projection, Scan, Find, RowsOf;
    InitialInv(s);
    EveryRunKeepsInv(s, actions);
    var r := Run(s, actions);
    assert PcFits(r, t) && LocksOf(r, t);
    ReadsAgree(r.cache, Base(r) - r.missing, r.Pc(t).player);
    if r.db.Some? {
      assert LocksOf(r, r.db.value) && PcFits(r, r.db.value);
    }
  }

  lemma LoadedStep(s: State, a: Action)
    requires Inv(s) && s.cache.loaded
    ensures Next(s, a).cache.loaded
  {
    hide Mirrors, LookupOf, RowsOf, WithoutPlayer, Locks, Players;
    assert PcFits(s, a.t);
  }

  /** A loaded cache stays loaded. */
  lemma {:induction false} StaysLoaded(s: State, actions: seq<Action>)
    requires Inv(s) && s.cache.loaded
    ensures Run(s, actions).cache.loaded
  {
    if actions != [] {
      hide Inv, Next;
      var front := actions[..|actions| - 1];
      StaysLoaded(s, front);
      EveryRunKeepsInv(s, front);
      LoadedStep(Run(s, front), actions[|actions| - 1]);
    }
  }

  // ----- what an update does

  /** Thread t holds the database in this state and after each of the actions. */
  ghost predicate KeepsDb(s: State, actions: seq<Action>, t: Tid) {
    forall i :: 0 <= i <= |actions| ==> Run(s, actions[..i]).db == Some(t)
  }

  lemma KeepsDbBefore(s: State, actions: seq<Action>, t: Tid)
    requires KeepsDb(s, actions, t) && actions != []
    ensures KeepsDb(s, actions[..|actions| - 1], t) && Run(s, actions).db == Some(t)
  {
    var front := actions[..|actions| - 1];
    assert Run(s, actions[..|actions|]).db == Some(t) && actions[..|actions|] == actions;
    forall i | 0 <= i <= |front|
      ensures Run(s, front[..i]).db == Some(t)
    {
      assert front[..i] == actions[..i];
      assert Run(s, actions[..i]).db == Some(t);
    }
  }

  /** Behind its statement: on its way to the cache with this change, or past it. `player` counts as present. */
  ghost predicate HasExecuted(s: State, t: Tid, table: Table, change: Option<Change>) {
    && s.table == table
    && var pc := s.Pc(t);
       if InFlight(pc) then change == Some(pc.change)
       else (pc.Applied? || pc.Returning?)
            && (change.Some? && change.value.Inserted? ==> change.value.row.player !in s.missing)
  }

  lemma ExecutedStep(s: State, a: Action, t: Tid, table: Table, change: Option<Change>)
    requires Inv(s) && s.db == Some(t) && HasExecuted(s, t, table, change)
    requires Next(s, a).db == Some(t)
    ensures HasExecuted(Next(s, a), t, table, change)
  {
    hide Mirrors, RowsOf, FilledFrom, Appended, Erased, Players;
    assert LocksOf(s, t) && LocksOf(s, a.t) && PcFits(s, t);
    if a.t != t {
      NextIsOwnStep(s, a);
      MissingStays(s, a);
    }
  }

  /** A step of a thread that does not hold the database loads nothing and changes no row. */
  lemma MissingStays(s: State, a: Action)
    requires LocksOf(s, a.t) && s.db != Some(a.t)
    ensures Next(s, a).table == s.table && Next(s, a).missing == s.missing
  {
    hide RowsOf, FilledFrom, Appended, Erased, Players;
  }

  lemma {:induction false} ExecutedStays(s: State, actions: seq<Action>, t: Tid, table: Table, change: Option<Change>)
    requires Inv(s) && KeepsDb(s, actions, t) && HasExecuted(s, t, table, change)
    ensures HasExecuted(Run(s, actions), t, table, change)
  {
    hide Inv, HasExecuted, Next, KeepsDb;
    if actions != [] {
      var front := actions[..|actions| - 1];
      KeepsDbBefore(s, actions, t);
      ExecutedStays(s, front, t, table, change);
      EveryRunKeepsInv(s, front);
      HoldsNow(s, front, t);
      ExecutedStep(Run(s, front), actions[|actions| - 1], t, table, change);
    }
  }

  lemma HoldsNow(s: State, actions: seq<Action>, t: Tid)
    requires KeepsDb(s, actions, t)
    ensures Run(s, actions).db == Some(t)
  {
    assert actions[..|actions|] == actions;
  }

  /** The statement of the task changes the table. */
  ghost predicate Succeeds(s: State, task: Task, env: Env) {
    match task
    case Add(entry) => entry.player !in s.table && !env.fails
    case Delete(player) => s.initialized && player in s.table && !env.fails
    case Query => false
  }

  ghost function ChangeOf(s: State, task: Task, env: Env): Option<Change> {
    match task
    case Add(entry) => if Succeeds(s, task, env) then Some(Inserted(entry)) else None
    case Delete(player) => if Succeeds(s, task, env) then Some(Removed(s.table[player])) else None
    case Query => None
  }

  lemma ExecuteDecides(s: State, t: Tid, task: Task, env: Env)
    requires Inv(s) && s.Pc(t) == Executing(task)
    ensures
      var s' := Next(s, Go(t, env));
      && s'.db == Some(t)
      && HasExecuted(s', t, s'.table, ChangeOf(s, task, env))
  {
    hide Mirrors;
    assert LocksOf(s, t);
  }

  /** From the moment its statement is executed until it gives the database up, whatever the other threads do: an `add`
      of a new player has put this row into the table and nothing else, a `delete` of a known one has taken its row out
      and nothing else, and any other task has changed nothing. When it is about to give the database up, a loaded cache
      answers for that player as the table does, by either way to read. */
  lemma UpdateTakesEffect(s: State, actions: seq<Action>, t: Tid, task: Task, env: Env, more: seq<Action>)
    requires Initial(s) && Run(s, actions).Pc(t) == Executing(task)
    requires KeepsDb(Next(Run(s, actions), Go(t, env)), more, t)
    ensures
      var before := Run(s, actions);
      var after := Run(Next(before, Go(t, env)), more);
      match task
      case Add(entry) =>
        && after.table == (if entry.player !in before.table && !env.fails
                           then before.table[entry.player := entry] else before.table)
        && (after.Pc(t).Returning? && after.cache.loaded && entry.player !in before.table && !env.fails ==>
              && Find(after.cache.lookup, entry.player) == Some(entry.publisher) && entry in after.cache.entries)
      case Delete(player) =>
        && after.table == (if before.initialized && player in before.table && !env.fails
                           then before.table - {player} else before.table)
        && (after.Pc(t).Returning? && after.cache.loaded && player !in after.table ==>
              player !in after.cache.lookup && forall e :: e in after.cache.entries ==> e.player != player)
      case Query => after.table == before.table
  {
    hide Run, KeepsDb, Next;
    InitialInv(s);
    EveryRunKeepsInv(s, actions);
    var before := Run(s, actions);
    var executed := Next(before, Go(t, env));
    ExecuteDecides(before, t, task, env);
    InvIsKept(before, Go(t, env));
    StatementDecides(before, t, task, env);
    ExecutedStays(executed, more, t, executed.table, ChangeOf(before, task, env));
    EveryRunKeepsInv(executed, more);
    var after := Run(executed, more);
    HoldsNow(executed, more, t);
    if after.Pc(t).Returning? && after.cache.loaded {
      CacheAnswers(after, t);
    }
  }

  lemma StatementDecides(s: State, t: Tid, task: Task, env: Env)
    requires s.Pc(t) == Executing(task)
    ensures
      var s' := Next(s, Go(t, env));
      match task
      case Add(entry) => s'.table == if Succeeds(s, task, env) then s.table[entry.player := entry] else s.table
      case Delete(player) => s'.table == if Succeeds(s, task, env) then s.table - {player} else s.table
      case Query => s'.table == s.table
  {
  }

  lemma CacheAnswers(s: State, t: Tid)
    requires Inv(s) && s.db == Some(t) && !InFlight(s.Pc(t)) && s.cache.loaded
    ensures forall p :: p in s.table && p !in s.missing ==>
      Find(s.cache.lookup, p) == Some(s.table[p].publisher) && s.table[p] in s.cache.entries
    ensures forall p :: p !in s.table ==> p !in s.cache.lookup && forall e :: e in s.cache.entries ==> e.player != p
  {
    hide Locks, PcFits;
    assert Mirrors(s.cache, s.table - s.missing);
  }
}
