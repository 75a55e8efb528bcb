/** The stream-ID table of slscore/SLSDatabase.cpp and its in-memory cache: a list of entries and a lookup map. */
module StreamIdCache {
  import opened Common

  datatype Entry = Entry(publisher: string, player: string, description: string)

  /** The SQL table, keyed by its UNIQUE column `player`. */
  type Table = map<string, Entry>

  datatype Cache = Cache(entries: seq<Entry>, lookup: map<string, string>, loaded: bool)

  const EMPTY := Cache([], map[], false)

  predicate Keyed(t: Table) {
    forall p :: p in t ==> t[p].player == p
  }

  predicate DistinctPlayers(s: seq<Entry>) {
    forall i, j :: 0 <= i < j < |s| ==> s[i].player != s[j].player
  }

  /** Player to publisher. */
  function Projection(t: Table): map<string, string> {
    map p | p in t :: t[p].publisher
  }

  /** The entries are the rows of the table in some order, each once, and the map is their player-to-publisher
      projection. */
  ghost predicate Mirrors(c: Cache, t: Table) {
    && Keyed(t) && DistinctPlayers(c.entries)
    && (forall e :: e in c.entries ==> e.player in t && t[e.player] == e)
    && (forall p :: p in t ==> t[p] in c.entries)
    && c.lookup == Projection(t)
  }

  // ----- updates of the cache, each under its write lock

  function Appended(c: Cache, e: Entry): Cache {
    if c.loaded then c.(entries := c.entries + [e], lookup := c.lookup[e.player := e.publisher]) else c
  }

  function Erased(c: Cache, player: string): Cache {
    if c.loaded then c.(entries := WithoutPlayer(c.entries, player), lookup := c.lookup - {player}) else c
  }

  /** `remove_if` and `erase`. */
  function WithoutPlayer(s: seq<Entry>, player: string): (r: seq<Entry>)
    ensures forall e :: e in r <==> e in s && e.player != player
    ensures DistinctPlayers(s) ==> DistinctPlayers(r)
  {
    if s == [] then []
    else
      var front := WithoutPlayer(s[..|s| - 1], player);
      var last := s[|s| - 1];
      assert s == s[..|s| - 1] + [last];
      if last.player == player then front else front + [last]
  }

  /** The rows that stay keep their order. */
  lemma {:induction false} WithoutPlayerInOrder(a: seq<Entry>, b: seq<Entry>, player: string)
    ensures WithoutPlayer(a + b, player) == WithoutPlayer(a, player) + WithoutPlayer(b, player)
  {
    hide WithoutPlayer, DistinctPlayers;
    if b == [] {
      WithoutPlayerEnd(player);
      assert a + b == a;
    } else {
      var front, last := b[..|b| - 1], b[|b| - 1];
      WithoutPlayerInOrder(a, front, player);
      WithoutPlayerLast(a + front, last, player);
      WithoutPlayerLast(front, last, player);
      assert b == front + [last] && a + b == a + front + [last];
    }
  }

  lemma WithoutPlayerEnd(player: string)
    ensures WithoutPlayer([], player) == []
  {
  }

  lemma WithoutPlayerLast(front: seq<Entry>, last: Entry, player: string)
    ensures WithoutPlayer(front + [last], player)
         == WithoutPlayer(front, player) + if last.player == player then [] else [last]
  {
    hide DistinctPlayers;
    var s := front + [last];
    assert s[..|s| - 1] == front && s[|s| - 1] == last;
  }

  /** The cache filled from the rows of a query. */
  function FilledFrom(rows: seq<Entry>): Cache {
    Cache(rows, LookupOf(rows), true)
  }

  function LookupOf(rows: seq<Entry>): map<string, string> {
    if rows == [] then map[]
    else LookupOf(rows[..|rows| - 1])[rows[|rows| - 1].player := rows[|rows| - 1].publisher]
  }

  /** The rows of the table, each once, in whatever order the query returns them. */
  ghost predicate RowsOf(rows: seq<Entry>, t: Table) {
    && DistinctPlayers(rows)
    && (forall e :: e in rows ==> e.player in t && t[e.player] == e)
    && (forall p :: p in t ==> t[p] in rows)
  }

  lemma ProjectionChanges(t: Table, p: string, e: Entry)
    ensures Projection(t[p := e]) == Projection(t)[p := e.publisher]
    ensures Projection(t - {p}) == Projection(t) - {p}
  {
  }

  lemma AppendMirrors(c: Cache, t: Table, e: Entry)
    requires Mirrors(c, t) && c.loaded && e.player !in t
    ensures Mirrors(Appended(c, e), t[e.player := e])
  {
    hide Projection;
    ProjectionChanges(t, e.player, e);
    var c' := Appended(c, e);
    assert c'.entries == c.entries + [e];
    forall i | 0 <= i < |c.entries|
      ensures c'.entries[i].player != e.player
    {
      assert c.entries[i] in c.entries;
    }
    assert forall x :: x in c'.entries <==> x in c.entries || x == e;
  }

  lemma EraseMirrors(c: Cache, t: Table, player: string)
    requires Mirrors(c, t) && c.loaded
    ensures Mirrors(Erased(c, player), t - {player})
  {
    hide WithoutPlayer, Projection;
    ProjectionChanges(t, player, Entry("", "", ""));
    assert Erased(c, player).entries == WithoutPlayer(c.entries, player);
  }

  lemma {:induction false} LookupHolds(rows: seq<Entry>, i: nat)
    requires DistinctPlayers(rows) && i < |rows|
    ensures rows[i].player in LookupOf(rows) && LookupOf(rows)[rows[i].player] == rows[i].publisher
  {
    if i < |rows| - 1 {
      LookupHolds(rows[..|rows| - 1], i);
    }
  }

  lemma {:induction false} LookupFinds(rows: seq<Entry>, player: string) returns (i: nat)
    requires player in LookupOf(rows)
    ensures i < |rows| && rows[i].player == player
  {
    if rows[|rows| - 1].player == player {
      i := |rows| - 1;
    } else {
      i := LookupFinds(rows[..|rows| - 1], player);
    }
  }

  lemma FillMirrors(rows: seq<Entry>, t: Table)
    requires Keyed(t) && RowsOf(rows, t)
    ensures Mirrors(FilledFrom(rows), t)
  {
    hide LookupOf;
    forall p | p in t
      ensures p in LookupOf(rows) && LookupOf(rows)[p] == t[p].publisher
    {
      var i :| 0 <= i < |rows| && rows[i] == t[p];
      LookupHolds(rows, i);
    }
    forall p | p in LookupOf(rows)
      ensures p in t
    {
      var i := LookupFinds(rows, p);
      assert rows[i] in rows;
    }
  }

  function Players(rows: seq<Entry>): set<string> {
    set e | e in rows :: e.player
  }

  /** The first rows of a query are all the rows of the table without the players of the others. */
  lemma CutRows(rows: seq<Entry>, k: nat, t: Table)
    requires Keyed(t) && RowsOf(rows, t) && k <= |rows|
    ensures var missing := Players(rows[k..]);
      missing <= t.Keys && Keyed(t - missing) && RowsOf(rows[..k], t - missing)
  {
    var missing := Players(rows[k..]);
    forall i | 0 <= i < k
      ensures rows[i].player !in missing
    {
      forall e | e in rows[k..]
        ensures e.player != rows[i].player
      {
        var j :| 0 <= j < |rows| - k && rows[k..][j] == e;
        assert rows[k + j] == e;
      }
    }
    forall p | p in t - missing
      ensures t[p] in rows[..k]
    {
      var i :| 0 <= i < |rows| && rows[i] == t[p];
      assert rows == rows[..k] + rows[k..];
    }
  }

  /** A cache that mirrors the table without some players mirrors the table exactly if there are none. */
  lemma MirrorsExactly(c: Cache, t: Table, missing: set<string>)
    requires Mirrors(c, t - missing) && missing <= t.Keys
    ensures Keyed(t) ==> (Mirrors(c, t) <==> missing == {})
  {
    if missing == {} {
      assert t - missing == t;
    }
    if Mirrors(c, t) {
      assert Projection(t).Keys == t.Keys && Projection(t - missing).Keys == t.Keys - missing;
      assert missing == t.Keys - (t.Keys - missing);
    }
  }

  // ----- the two ways to read

  /** The publisher of the first entry for the player: the linear scan of `validateStreamId`. */
  function Scan(s: seq<Entry>, player: string): Option<string> {
    if s == [] then None else if s[0].player == player then Some(s[0].publisher) else Scan(s[1..], player)
  }

  function Find(lookup: map<string, string>, player: string): Option<string> {
    if player in lookup then Some(lookup[player]) else None
  }

  lemma {:induction false} ScanFindsOnly(s: seq<Entry>, player: string)
    ensures Scan(s, player).None? ==> forall e :: e in s ==> e.player != player
    ensures Scan(s, player).Some? ==> exists e :: e in s && e.player == player && e.publisher == Scan(s, player).value
  {
    if s != [] {
      ScanFindsOnly(s[1..], player);
      assert s == [s[0]] + s[1..];
    }
  }

  /** While the cache mirrors a table, the scan and the map give the same answer: the table's. */
  lemma ReadsAgree(c: Cache, t: Table, player: string)
    requires Mirrors(c, t)
    ensures Scan(c.entries, player) == Find(c.lookup, player)
      == if player in t then Some(t[player].publisher) else None
  {
    ScanFindsOnly(c.entries, player);
  }

  // ----- the object, its operations run one at a time

  /** A load reads rows until SQLite returns anything but a row, and takes that for the end. `missing` are the players
      whose rows an error cut off, and whose rows are still in the table. */
  class StreamIdDatabase {
    var table: Table
    var cache: Cache
    var initialized: bool
    ghost var missing: set<string>

    ghost predicate Valid()
      reads this
    {
      && Keyed(table) && missing <= table.Keys
      && (if cache.loaded then Mirrors(cache, table - missing) else missing == {})
    }

    constructor (table: Table)
      requires Keyed(table)
      ensures Valid() && this.table == table && cache == EMPTY && initialized && missing == {}
    {
      this.table := table;
      cache := EMPTY;
      initialized := true;
      missing := {};
    }

    /** `sqlError`: the insert fails for a reason other than the unique constraint. */
    method AddStreamId(publisher: string, player: string, description: string, sqlError: bool) returns (ok: bool)
      requires Valid()
      modifies this`table, this`cache
      ensures Valid() && cache.loaded == old(cache.loaded) && missing == old(missing)
      ensures ok == (player !in old(table) && !sqlError)
      ensures table == if ok then old(table)[player := Entry(publisher, player, description)] else old(table)
      ensures !ok ==> cache == old(cache)
    {
      if player in table || sqlError {
        return false;
      }
      var entry := Entry(publisher, player, description);
      if cache.loaded {
        AppendMirrors(cache, table - missing, entry);
        assert table[player := entry] - missing == (table - missing)[player := entry];
        cache := cache.(entries := cache.entries + [entry], lookup := cache.lookup[player := publisher]);
      }
      table := table[player := entry];
      return true;
    }

    method DeleteStreamId(player: string) returns (ok: bool)
      requires Valid()
      modifies this`table, this`cache, this`missing
      ensures Valid() && cache.loaded == old(cache.loaded)
      ensures missing == if ok then old(missing) - {player} else old(missing)
      ensures ok == (initialized && player in old(table))
      ensures table == if ok then old(table) - {player} else old(table)
      ensures !ok ==> cache == old(cache)
    {
      if !initialized || player !in table {
        return false;
      }
      if cache.loaded {
        EraseMirrors(cache, table - missing, player);
        assert (table - {player}) - (missing - {player}) == (table - missing) - {player};
        cache := cache.(entries := WithoutPlayer(cache.entries, player), lookup := cache.lookup - {player});
      }
      table, missing := table - {player}, missing - {player};
      return true;
    }

    /** The row loop of the query. */
    method FillFromRows(rows: seq<Entry>)
      requires cache == EMPTY
      modifies this`cache
      ensures cache == FilledFrom(rows)
    {
      for i := 0 to |rows|
        invariant cache == Cache(rows[..i], LookupOf(rows[..i]), false)
      {
        assert rows[..i + 1][..i] == rows[..i];
        cache := cache.(
          entries := cache.entries + [rows[i]],
          lookup := cache.lookup[rows[i].player := rows[i].publisher]);
      }
      assert rows[..|rows|] == rows;
      cache := cache.(loaded := true);
    }

    /** `rows` is what the query would return, `cut` how many of them it did; `prepared` says whether the statement
        could be prepared. */
    method LoadStreamIdsCacheIfNeeded(rows: seq<Entry>, cut: nat, prepared: bool) returns (ok: bool)
      requires Valid() && RowsOf(rows, table) && cut <= |rows|
      modifies this`cache, this`missing
      ensures Valid() && ok == cache.loaded
      ensures ok == (old(cache.loaded) || (initialized && prepared))
      ensures missing == if ok && !old(cache.loaded) then Players(rows[cut..]) else old(missing)
    {
      hide Mirrors, RowsOf, LookupOf, Players;
      if cache.loaded {
        return true;
      }
      if !initialized {
        return false;
      }
      cache := EMPTY;
      if !prepared {
        return false;
      }
      FillFromRows(rows[..cut]);
      missing := Players(rows[cut..]);
      CutRows(rows, cut, table);
      FillMirrors(rows[..cut], table - missing);
      return true;
    }

    /** Once loaded, the cache mirrors the table exactly if no row was cut off that is still there. */
    lemma CacheIsWholeExactly()
      requires Valid() && cache.loaded
      ensures Mirrors(cache, table) <==> missing == {}
    {
      MirrorsExactly(cache, table, missing);
    }

    /** For a publisher: is it in the table? For a player: is it, and which publisher does it watch? Rows that were cut
        off count as absent. Without a database everything is allowed. */
    method ValidateStreamId(id: string, isPublisher: bool, rows: seq<Entry>, cut: nat, prepared: bool)
      returns (valid: bool, mapped: Option<string>)
      requires Valid() && RowsOf(rows, table) && cut <= |rows|
      modifies this`cache, this`missing
      ensures Valid() && table == old(table)
      ensures !initialized ==> valid && mapped == None
      ensures initialized && cache.loaded && isPublisher ==>
        mapped == None && (valid <==> exists p :: p in table - missing && table[p].publisher == id)
      ensures initialized && cache.loaded && !isPublisher ==>
        && (valid <==> id in table - missing)
        && mapped == if id in table - missing then Some(table[id].publisher) else None
      ensures initialized && !cache.loaded ==> !valid && mapped == None
    {
      mapped := None;
      if !initialized {
        return true, None;
      }
      var loaded := LoadStreamIdsCacheIfNeeded(rows, cut, prepared);
      var streamIds := if loaded then cache.entries else [];
      var i := 0;
      while i < |streamIds|
        invariant 0 <= i <= |streamIds|
        invariant forall j :: 0 <= j < i ==>
          if isPublisher then streamIds[j].publisher != id else streamIds[j].player != id
      {
        var stream := streamIds[i];
        assert stream in streamIds;
        if isPublisher && stream.publisher == id {
          return true, None;
        }
        if !isPublisher && stream.player == id {
          return true, Some(stream.publisher);
        }
        i := i + 1;
      }
      return false, None;
    }

    method GetPublisherFromPlayer(player: string, rows: seq<Entry>, cut: nat, prepared: bool)
      returns (publisher: string)
      requires Valid() && RowsOf(rows, table) && cut <= |rows|
      modifies this`cache, this`missing
      ensures Valid() && table == old(table)
      ensures publisher == if cache.loaded && player in table - missing then table[player].publisher else ""
    {
      var loaded := LoadStreamIdsCacheIfNeeded(rows, cut, prepared);
      if !loaded {
        return "";
      }
      if player in cache.lookup {
        return cache.lookup[player];
      }
      return "";
    }
  }
}
