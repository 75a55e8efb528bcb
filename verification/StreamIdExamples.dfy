/** A load whose row loop is ended by an error at once: the cache is empty, counts as loaded, and hides every row. */
module StreamIdExamples {
  import opened Common
  import opened StreamIdCache
  import opened StreamIdThreads
  import opened StreamIdDeadlock

  lemma CutSteps(s: State, player: string, go: Action)
    requires s.Pc(1) == LoadWantsDb(player) && s.db == None && go.Go? && go.t == 1
    requires s.initialized && RowsOf(go.env.rows, s.table) && !go.env.fails && go.env.cut == 0
    ensures Next(Next(s, go), go) == s.(
      db := Some(1), cache := FilledFrom([]), missing := Players(go.env.rows), pcs := s.pcs[1 := Loaded(player)])
  {
    hide RowsOf, Players, LookupOf;
    assert go.env.rows[..0] == [] && go.env.rows[Delivered(go.env)..] == go.env.rows;
    assert Next(s, go) == s.WithDb(Some(1), 1, Loading(player));
  }

  lemma ReleaseSteps(s: State, player: string, go: Action)
    requires s.Pc(1) == Loaded(player) && s.cache.loaded && s.readers == {} && go.Go? && go.t == 1
    ensures Next(Next(Next(s, go), go), go)
         == s.(db := None, writer := None, readers := {1}, pcs := s.pcs[1 := Reading(player)])
  {
    hide RowsOf, Players, FilledFrom;
    var s1 := Next(s, go);
    assert s1 == s.WithDb(None, 1, LoadReleases(player));
    var s2 := Next(s1, go);
    assert s2 == s1.WithWriter(None, 1, WantsRead(player));
    assert Next(s2, go) == s2.WithReaders({1}, 1, Reading(player));
  }

  /** From the lock of the database to the read, with nothing read. */
  lemma TheLoadIsCut(s: State, player: string, rows: seq<Entry>) returns (actions: seq<Action>)
    requires s.Pc(1) == LoadWantsDb(player) && s.db == None && s.readers == {}
    requires s.initialized && RowsOf(rows, s.table)
    ensures var r := Run(s, actions);
      r.Pc(1) == Reading(player) && r.table == s.table && r.cache == FilledFrom([]) && r.db == None
  {
    hide RowsOf, LookupOf, Run, Next, Players;
    var go := Go(1, Env(false, rows, 0));
    actions := [] + [go] + [go] + [go] + [go] + [go];
    RunOfFive(s, go, go, go, go, go);
    CutSteps(s, player, go);
    ReleaseSteps(Next(Next(s, go), go), player, go);
  }

  /** The first read of any player of the table is then refused, with the database free and the cache loaded. */
  lemma CutLoadRefuses(s: State, rows: seq<Entry>, player: string) returns (actions: seq<Action>)
    requires Initial(s) && s.initialized && RowsOf(rows, s.table) && player in s.table
    ensures var r := Run(s, actions);
      && r.Pc(1) == Reading(player) && r.cache.loaded && r.db == None && player in r.table
      && Scan(r.cache.entries, player) == Find(r.cache.lookup, player) == None
      && !Mirrors(r.cache, r.table)
  {
    hide Run, RowsOf, Mirrors;
    var load := ALoadGetsToTheDatabase(s, player);
    var cut := TheLoadIsCut(Run(s, load), player, rows);
    actions := load + cut;
    RunsOn(s, load, cut);
    EmptyMirrorsNothing(Run(s, actions).table, player);
  }

  lemma EmptyMirrorsNothing(t: Table, player: string)
    requires player in t
    ensures !Mirrors(FilledFrom([]), t)
  {
    assert t[player] !in FilledFrom([]).entries;
  }
}
