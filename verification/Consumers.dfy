/** The registry of connected players in slscore/SLSPlayer.cpp: per player key, the list of players using it. */
module Consumers {

  class Player {
    var registeredKey: string

    constructor ()
      ensures registeredKey == ""
    {
      registeredKey := "";
    }
  }

  /** `std::remove` and `erase`: the list without the player. */
  function Without(s: seq<Player>, p: Player): (r: seq<Player>)
    ensures p !in r
    ensures forall q :: q in r ==> q in s
    ensures forall q :: q in s && q != p ==> q in r
    ensures p !in s ==> r == s
  {
    if s == [] then []
    else if s[|s| - 1] == p then Without(s[..|s| - 1], p)
    else Without(s[..|s| - 1], p) + [s[|s| - 1]]
  }

  predicate NoDuplicates(s: seq<Player>) {
    forall i, j :: 0 <= i < j < |s| ==> s[i] != s[j]
  }

  lemma {:induction false} WithoutKeepsDistinct(s: seq<Player>, p: Player)
    requires NoDuplicates(s)
    ensures NoDuplicates(Without(s, p))
  {
    if s != [] {
      WithoutKeepsDistinct(s[..|s| - 1], p);
      assert s[|s| - 1] !in s[..|s| - 1];
    }
  }

  /** The registry after the player has been taken out of the lists of `keys`; emptied lists disappear. */
  function Removed(active: map<string, seq<Player>>, keys: set<string>, p: Player): map<string, seq<Player>> {
    map k | k in active && (k !in keys || Without(active[k], p) != []) ::
      if k in keys then Without(active[k], p) else active[k]
  }

  /** The lists are the inverse of the players' keys (the empty key for an unregistered player), without duplicates
      and without empty lists. */
  ghost predicate Inverse(active: map<string, seq<Player>>, keys: map<Player, string>) {
    && "" !in active
    && (forall k :: k in active ==> active[k] != [] && NoDuplicates(active[k]))
    && (forall k, p :: k in active && p in active[k] ==> p in keys && keys[p] == k)
    && (forall p :: p in keys && keys[p] != "" ==> keys[p] in active && p in active[keys[p]])
  }

  /** The registry after a registration. */
  function Added(active: map<string, seq<Player>>, key: string, p: Player): map<string, seq<Player>> {
    var list := if key in active then active[key] else [];
    active[key := if p in list then list else list + [p]]
  }

  /** Registering keeps the lists the inverse of the keys exactly when the player was unregistered or registered
      under the same key: under another key its old entry would stay behind. */
  lemma AddedKeepsInverse(active: map<string, seq<Player>>, keys: map<Player, string>, key: string, p: Player)
    requires Inverse(active, keys) && key != ""
    ensures Inverse(Added(active, key, p), keys[p := key]) <==> p !in keys || keys[p] == "" || keys[p] == key
  {
    var active', keys' := Added(active, key, p), keys[p := key];
    if p in keys && keys[p] != "" && keys[p] != key {
      var k := keys[p];
      assert k in active' && p in active'[k] && keys'[p] != k;
    } else {
      assert forall k :: k in active' && k != key ==> active'[k] == active[k];
    }
  }

  /** Unregistering keeps the lists the inverse of the keys, and leaves the player in none of them. */
  lemma RemovedKeepsInverse(active: map<string, seq<Player>>, keys: map<Player, string>, p: Player)
    requires Inverse(active, keys)
    ensures
      var own := if p in keys && keys[p] != "" then {keys[p]} else active.Keys;
      var active' := Removed(active, own, p);
      && Inverse(active', if p in keys then keys[p := ""] else keys)
      && (forall k :: k in active' ==> p !in active'[k])
  {
    if p in keys && keys[p] != "" {
      OneListShrinks(active, keys, keys[p], p);
    } else {
      forall k | k in active
        ensures Without(active[k], p) == active[k]
      {
        assert p !in active[k];
      }
      assert Removed(active, active.Keys, p) == active;
      if p in keys {
        assert keys[p := ""] == keys;
      }
    }
  }

  lemma OneListShrinks(active: map<string, seq<Player>>, keys: map<Player, string>, key: string, p: Player)
    requires Inverse(active, keys) && p in keys && keys[p] == key != ""
    ensures Inverse(Removed(active, {key}, p), keys[p := ""])
    ensures forall k :: k in Removed(active, {key}, p) ==> p !in Removed(active, {key}, p)[k]
  {
    var active', keys' := Removed(active, {key}, p), keys[p := ""];
    WithoutKeepsDistinct(active[key], p);
    forall q | q in keys' && keys'[q] != ""
      ensures keys'[q] in active' && q in active'[keys'[q]]
    {
      assert q in active[keys[q]];
    }
    forall k, q | k in active' && q in active'[k]
      ensures q in keys' && keys'[q] == k
    {
      assert q in active[k];
    }
  }

  lemma NothingToRemove(active: map<string, seq<Player>>, key: string, p: Player)
    ensures key !in active ==> Removed(active, {key}, p) == active
  {
  }

  class Registry {
    var active: map<string, seq<Player>>
    /** Every player that ever registered. */
    ghost var known: set<Player>

    ghost function Keys(): map<Player, string>
      reads this, known
    {
      map p | p in known :: p.registeredKey
    }

    ghost predicate Valid()
      reads this, known
    {
      Inverse(active, Keys())
    }

    constructor ()
      ensures Valid() && active == map[]
    {
      active, known := map[], {};
    }

    /** The registry stays valid exactly when the player was unregistered or already registered under this key. */
    method RegisterActive(player: Player?, playerKey: string)
      requires Valid() && (player != null && player.registeredKey != "" ==> player in known)
      modifies this, player
      ensures player == null || playerKey == "" ==> Valid() && active == old(active)
      ensures player != null && playerKey != "" ==>
        && player.registeredKey == playerKey && active == Added(old(active), playerKey, player)
        && (Valid() <==> old(player.registeredKey) == "" || old(player.registeredKey) == playerKey)
    {
      if player == null || playerKey == "" {
        return;
      }
      AddedKeepsInverse(active, Keys(), playerKey, player);
      ghost var keys := Keys();
      var consumers: seq<Player> := if playerKey in active then active[playerKey] else [];
      if player !in consumers {
        consumers := consumers + [player];
      }
      active := active[playerKey := consumers];
      known := known + {player};
      player.registeredKey := playerKey;
      assert Keys() == keys[player := playerKey];
    }

    /** A registered player is looked up under its key only; an unregistered one is searched for in every list. */
    method UnregisterActive(player: Player?)
      requires player != null && player.registeredKey != "" ==> player in known
      modifies this, player
      ensures player == null ==> active == old(active)
      ensures player != null ==>
        && player.registeredKey == ""
        && active == Removed(old(active), if old(player.registeredKey) != "" then {old(player.registeredKey)}
                                          else old(active).Keys, player)
      ensures old(Valid()) ==> Valid() && (player != null ==> forall k :: k in active ==> player !in active[k])
    {
      hide Removed, Inverse;
      if player == null {
        return;
      }
      ghost var keys := Keys();
      if Valid() {
        RemovedKeepsInverse(active, keys, player);
      }
      var key := player.registeredKey;
      if key != "" {
        NothingToRemove(active, key, player);
        if key in active {
          RemoveFrom(key, player);
        }
      } else {
        RemoveEverywhere(player);
      }
      player.registeredKey := "";
      assert Keys() == if player in known then keys[player := ""] else keys;
    }

    method RemoveEverywhere(player: Player)
      modifies this`active
      ensures active == Removed(old(active), old(active).Keys, player)
    {
      var left := active.Keys;
      while left != {}
        invariant left <= old(active).Keys && left <= active.Keys
        invariant active == Removed(old(active), old(active).Keys - left, player)
        decreases left
      {
        var k :| k in left;
        left := left - {k};
        RemoveFrom(k, player);
      }
    }

    method RemoveFrom(key: string, player: Player)
      requires key in active
      modifies this`active
      ensures active == Removed(old(active), {key}, player)
    {
      var vec := Without(active[key], player);
      if vec == [] {
        active := active - {key};
      } else {
        active := active[key := vec];
      }
    }
  }
}
