/** Publisher admission: the registration table of slscore/SLSMapPublisher.cpp, and the steps by which the listener
    threads (slscore/SLSListener.cpp) admit publishers while worker threads (slscore/SLSPublisher.cpp) tear them
    down. Each locked operation is one step. */
module Publishers {
  import opened Bytes
  import opened Common

  /** A publisher object is known to the table by its address. */
  type Addr = nat

  // ----- the table

  /** The order of `std::string`, in which `std::map` keeps its keys. */
  predicate Less(a: string, b: string) {
    b != "" && (a == "" || a[0] < b[0] || (a[0] == b[0] && Less(a[1..], b[1..])))
  }

  lemma {:induction false} LessIsTotal(a: string, b: string)
    ensures a == b || Less(a, b) || Less(b, a)
    ensures !(Less(a, b) && Less(b, a)) && !Less(a, a)
  {
    if a != "" && b != "" && a[0] == b[0] {
      LessIsTotal(a[1..], b[1..]);
      assert a == [a[0]] + a[1..] && b == [b[0]] + b[1..];
    }
    if a != "" {
      LessIsTotal(a[1..], a[1..]);
    }
  }

  lemma {:induction false} LessIsTransitive(a: string, b: string, c: string)
    requires Less(a, b) && Less(b, c)
    ensures Less(a, c)
  {
    if a != "" && a[0] == b[0] && b[0] == c[0] {
      LessIsTransitive(a[1..], b[1..], c[1..]);
    }
  }

  predicate IsLeast(keys: set<string>, key: string) {
    key in keys && forall k :: k in keys ==> k == key || Less(key, k)
  }

  lemma {:induction false} LeastExists(keys: set<string>)
    requires keys != {}
    ensures exists key :: IsLeast(keys, key)
    decreases |keys|
  {
    var one :| one in keys;
    var others := keys - {one};
    assert forall k :: k in keys <==> k == one || k in others;
    if others == {} {
      assert keys == {one};
      assert IsLeast(keys, one);
    } else {
      LeastExists(others);
      var key :| IsLeast(others, key);
      LessIsTotal(one, key);
      if Less(one, key) {
        forall k | k in others && k != key
          ensures Less(one, k)
        {
          LessIsTransitive(one, key, k);
        }
        assert IsLeast(keys, one);
      } else {
        assert IsLeast(keys, key);
      }
    }
  }

  /** The first key in the order of the table under which the publisher at `role` is registered. */
  predicate IsFirst(table: map<string, Addr>, role: Addr, key: string) {
    && key in table && table[key] == role
    && forall k :: k in table && table[k] == role ==> k == key || Less(key, k)
  }

  function TableSet(table: map<string, Addr>, key: string, role: Addr): (int, map<string, Addr>) {
    if key in table then (SLS_ERROR, table) else (SLS_OK, table[key := role])
  }

  /** Without the first entry of the role, if it has one. */
  ghost function TableRemoved(table: map<string, Addr>, role: Addr): map<string, Addr> {
    if exists key :: IsFirst(table, role, key) then
      var key :| IsFirst(table, role, key);
      table - {key}
    else
      table
  }

  lemma RemovesFirst(table: map<string, Addr>, role: Addr, key: string)
    requires IsFirst(table, role, key)
    ensures TableRemoved(table, role) == table - {key}
    ensures forall k :: IsFirst(table, role, k) ==> k == key
  {
    forall k | IsFirst(table, role, k)
      ensures k == key
    {
      LessIsTotal(k, key);
    }
  }

  lemma FirstExists(table: map<string, Addr>, own: string) returns (key: string)
    requires own in table
    ensures IsFirst(table, table[own], key)
  {
    var keys := set k | k in table && table[k] == table[own];
    assert own in keys;
    LeastExists(keys);
    key :| IsLeast(keys, key);
    forall k | k in table && table[k] == table[own]
      ensures k == key || Less(key, k)
    {
      assert k in keys;
    }
  }

  class MapPublisher {
    var table: map<string, Addr>

    constructor ()
      ensures table == map[]
    {
      table := map[];
    }

    method SetPush2Publisher(key: string, role: Addr) returns (ret: int)
      modifies this
      ensures (ret, table) == TableSet(old(table), key, role)
    {
      if key in table {
        return SLS_ERROR;
      }
      table := table[key := role];
      return SLS_OK;
    }

    method GetPublisher(key: string) returns (r: Option<Addr>)
      ensures r == if key in table then Some(table[key]) else None
    {
      r := if key in table then Some(table[key]) else None;
    }

    /** Goes through the table in the order of its keys and erases the first entry of the role, if it has any. */
    method Remove(role: Addr) returns (ret: int)
      modifies this
      ensures ret == if exists key :: key in old(table) && old(table)[key] == role then SLS_OK else SLS_ERROR
      ensures ret == SLS_OK ==> exists key :: IsFirst(old(table), role, key) && table == old(table) - {key}
      ensures table == TableRemoved(old(table), role)
    {
      var left := table.Keys;
      while left != {}
        invariant left <= table.Keys && table == old(table)
        invariant forall k :: k in table.Keys - left ==> table[k] != role
        decreases left
      {
        LeastExists(left);
        var key :| IsLeast(left, key);
        left := left - {key};
        if table[key] == role {
          assert IsFirst(table, role, key);
          RemovesFirst(table, role, key);
          table := table - {key};
          return SLS_OK;
        }
      }
      return SLS_ERROR;
    }
  }

  // ----- the life of a publisher connection

  /** A connection is never mistaken for another here, even if its publisher object gets the address of an earlier
      one that was deleted. */
  type Pub = nat

  datatype Stage =
    | Connecting
    | Checked(key: string)       // found no publisher for its key
    | DataAdded(key: string)     // made sure the key has a ring
    | Registered(key: string)    // won the registration
    | Attached(key: string)      // knows both shared maps, so that its cleanup will touch them
    | Queued(key: string)        // in the role list, not yet with a worker
    | Live(key: string)          // in a worker's map; the worker may tear it down at any time
    | Dropped(key: string)       // deleted by a worker that could not take it in: no tear-down
    | DataRemoved(key: string)   // being torn down: the ring is gone
    | Gone                       // deregistered
    | Refused                    // turned away, before or after the race; its cleanup touches neither map

  /** The shared maps, and every connection that ever was. A ring is named by the connection that made it. */
  datatype System = System(table: map<string, Addr>, rings: map<string, Pub>, stages: map<Pub, Stage>,
                           addrs: map<Pub, Addr>)
  {
    function StageOf(p: Pub): Stage {
      if p in stages then stages[p] else Connecting
    }

    function AddrOf(p: Pub): Addr {
      if p in addrs then addrs[p] else 0
    }

    /** Its publisher object is allocated and not yet to be deleted. */
    predicate IsAlive(p: Pub) {
      var st := StageOf(p);
      !st.Connecting? && !st.Dropped? && !st.Gone? && !st.Refused?
    }

    predicate IsFree(addr: Addr) {
      forall q: Pub :: q in stages && IsAlive(q) ==> AddrOf(q) != addr
    }
  }

  const START := System(map[], map[], map[], map[])

  /** `Check` also allocates the publisher object, at any address that no living one has. */
  datatype Action =
    | Check(p: Pub, key: string, addr: Addr) | AddData(p: Pub) | Register(p: Pub) | Attach(p: Pub) | Enqueue(p: Pub)
    | Admit(p: Pub) | Drop(p: Pub) | RemoveData(p: Pub) | Deregister(p: Pub)

  predicate Enabled(s: System, a: Action) {
    match a
    case Check(p, key, addr) => s.StageOf(p).Connecting? && (key in s.table || s.IsFree(addr))
    case AddData(p) => s.StageOf(p).Checked?
    case Register(p) => s.StageOf(p).DataAdded?
    case Attach(p) => s.StageOf(p).Registered?
    case Enqueue(p) => s.StageOf(p).Attached?
    case Admit(p) => s.StageOf(p).Queued?
    case Drop(p) => s.StageOf(p).Queued?
    case RemoveData(p) => s.StageOf(p).Live?
    case Deregister(p) => s.StageOf(p).DataRemoved?
  }

  /** One step; an action that is not enabled changes nothing. */
  ghost function Step(s: System, a: Action): System {
    if !Enabled(s, a) then s
    else
      match a
      case Check(p, key, addr) =>
        if key in s.table then s.(stages := s.stages[p := Refused])
        else s.(stages := s.stages[p := Checked(key)], addrs := s.addrs[p := addr])
      case AddData(p) =>
        var key := s.StageOf(p).key;
        s.(rings := if key in s.rings then s.rings else s.rings[key := p], stages := s.stages[p := DataAdded(key)])
      case Register(p) =>
        var key := s.StageOf(p).key;
        var (ret, table) := TableSet(s.table, key, s.AddrOf(p));
        s.(table := table, stages := s.stages[p := if ret == SLS_OK then Registered(key) else Refused])
      case Attach(p) => s.(stages := s.stages[p := Attached(s.StageOf(p).key)])
      case Enqueue(p) => s.(stages := s.stages[p := Queued(s.StageOf(p).key)])
      case Admit(p) => s.(stages := s.stages[p := Live(s.StageOf(p).key)])
      case Drop(p) => s.(stages := s.stages[p := Dropped(s.StageOf(p).key)])
      case RemoveData(p) =>
        var key := s.StageOf(p).key;
        s.(rings := s.rings - {key}, stages := s.stages[p := DataRemoved(key)])
      case Deregister(p) =>
        s.(table := TableRemoved(s.table, s.AddrOf(p)), stages := s.stages[p := Gone])
  }

  ghost function Run(actions: seq<Action>): System {
    if actions == [] then START else Step(Run(actions[..|actions| - 1]), actions[|actions| - 1])
  }

  // ----- mutual exclusion

  /** The connection is between its registration for the key and its deregistration. */
  predicate Holds(s: System, p: Pub, key: string) {
    var st := s.StageOf(p);
    (st.Registered? || st.Attached? || st.Queued? || st.Live? || st.DataRemoved?) && st.key == key
  }

  /** Who holds a key is registered under it, and no two living publishers have the same address. */
  ghost predicate TableIsSound(s: System) {
    && (forall p: Pub, key :: Holds(s, p, key) ==> key in s.table && s.table[key] == s.AddrOf(p))
    && (forall p: Pub, q: Pub :: s.IsAlive(p) && s.IsAlive(q) && s.AddrOf(p) == s.AddrOf(q) ==> p == q)
  }

  lemma OthersStay(s: System, a: Action, p: Pub)
    requires p != a.p
    ensures Step(s, a).StageOf(p) == s.StageOf(p) && Step(s, a).AddrOf(p) == s.AddrOf(p)
  {
    hide TableRemoved;
  }

  lemma AddressIsKeptOrFree(s: System, a: Action)
    requires Step(s, a).IsAlive(a.p)
    ensures (s.IsAlive(a.p) && Step(s, a).AddrOf(a.p) == s.AddrOf(a.p)) || s.IsFree(Step(s, a).AddrOf(a.p))
  {
    hide TableRemoved;
  }

  lemma StepKeepsAddresses(s: System, a: Action, p: Pub, q: Pub)
    requires TableIsSound(s) && p != q && q != a.p
    requires Step(s, a).IsAlive(p) && Step(s, a).IsAlive(q)
    ensures Step(s, a).AddrOf(p) != Step(s, a).AddrOf(q)
  {
    hide Step, Holds;
    OthersStay(s, a, q);
    if p == a.p {
      AddressIsKeptOrFree(s, a);
    } else {
      OthersStay(s, a, p);
    }
    assert s.IsAlive(q) && q in s.stages;
  }

  /** A tear-down erases the first entry of its address, and this is never the entry another connection holds. */
  lemma DeregisterErases(s: System, p: Pub) returns (key: string)
    requires TableIsSound(s) && s.StageOf(p).DataRemoved?
    ensures IsFirst(s.table, s.AddrOf(p), key) && Step(s, Deregister(p)).table == s.table - {key}
    ensures key == s.StageOf(p).key || Less(key, s.StageOf(p).key)
    ensures forall q: Pub :: Holds(s, q, key) ==> q == p
  {
    assert Holds(s, p, s.StageOf(p).key);
    key := FirstExists(s.table, s.StageOf(p).key);
    RemovesFirst(s.table, s.AddrOf(p), key);
    forall q: Pub | Holds(s, q, key)
      ensures q == p
    {
      assert s.IsAlive(p) && s.IsAlive(q);
    }
  }

  lemma StepKeepsTable(s: System, a: Action)
    requires TableIsSound(s)
    ensures TableIsSound(Step(s, a))
  {
    hide TableRemoved;
    var s' := Step(s, a);
    forall p: Pub, q: Pub | s'.IsAlive(p) && s'.IsAlive(q) && p != q
      ensures s'.AddrOf(p) != s'.AddrOf(q)
    {
      if q != a.p {
        StepKeepsAddresses(s, a, p, q);
      } else {
        StepKeepsAddresses(s, a, q, p);
      }
    }
    if a.Deregister? && Enabled(s, a) {
      var erased := DeregisterErases(s, a.p);
      forall p: Pub, key | Holds(s', p, key)
        ensures key in s'.table && s'.table[key] == s'.AddrOf(p)
      {
        assert p != a.p && Holds(s, p, key);
        assert key != erased;
      }
    } else {
      forall p: Pub, key | Holds(s', p, key)
        ensures key in s'.table && s'.table[key] == s'.AddrOf(p)
      {
        assert Holds(s, p, key) || a == Register(p);
      }
    }
  }

  lemma {:induction false} TableIsAlwaysSound(actions: seq<Action>)
    ensures TableIsSound(Run(actions))
  {
    hide Step;
    if actions == [] {
      assert forall p: Pub :: !START.IsAlive(p);
    } else {
      TableIsAlwaysSound(actions[..|actions| - 1]);
      StepKeepsTable(Run(actions[..|actions| - 1]), actions[|actions| - 1]);
    }
  }

  /** However the listener threads and the disconnects interleave, at most one connection holds a key. */
  lemma AtMostOneHolder(actions: seq<Action>, p: Pub, q: Pub, key: string)
    requires Holds(Run(actions), p, key) && Holds(Run(actions), q, key)
    ensures p == q
  {
    TableIsAlwaysSound(actions);
    OneHolder(Run(actions), p, q, key);
  }

  lemma OneHolder(s: System, p: Pub, q: Pub, key: string)
    requires TableIsSound(s) && Holds(s, p, key) && Holds(s, q, key)
    ensures p == q
  {
    assert s.IsAlive(p) && s.IsAlive(q);
  }

  /** A ring disappears only when the connection that holds the key removes it: the ring of another registered
      publisher is never deleted, and a connection that lost the race deletes none. */
  lemma OnlyTheHolderRemovesRings(actions: seq<Action>, a: Action, key: string)
    requires key in Run(actions).rings && key !in Run(actions + [a]).rings
    ensures a.RemoveData? && Run(actions).table == Run(actions + [a]).table
    ensures key in Run(actions).table && Run(actions).table[key] == Run(actions).AddrOf(a.p)
    ensures forall q: Pub :: q != a.p ==> !Holds(Run(actions), q, key)
  {
    hide TableRemoved;
    assert (actions + [a])[..|actions|] == actions;
    TableIsAlwaysSound(actions);
    assert Holds(Run(actions), a.p, key) && Run(actions).IsAlive(a.p);
  }

  /** The registration of a connection that has not been deleted ends only by its own tear-down, after its ring is
      gone. */
  lemma OnlyTheHolderDeregisters(actions: seq<Action>, a: Action, p: Pub, key: string)
    requires Holds(Run(actions), p, key)
    requires key !in Run(actions + [a]).table || Run(actions + [a]).table[key] != Run(actions).AddrOf(p)
    ensures a == Deregister(p) && Run(actions).StageOf(p) == DataRemoved(key)
    ensures Run(actions).rings == Run(actions + [a]).rings
  {
    hide TableRemoved;
    assert (actions + [a])[..|actions|] == actions;
    TableIsAlwaysSound(actions);
    if a.Deregister? && Enabled(Run(actions), a) {
      var erased := DeregisterErases(Run(actions), a.p);
    }
  }

  /** A connection that was refused has no further step: it touches neither map again. */
  lemma {:induction false} RefusedTouchesNothing(actions: seq<Action>, p: Pub, more: seq<Action>)
    requires Run(actions).StageOf(p).Refused?
    ensures Run(actions + more).StageOf(p).Refused?
    ensures forall a: Action :: a.p == p ==> Step(Run(actions + more), a) == Run(actions + more)
  {
    hide Run, TableRemoved;
    if more == [] {
      assert actions + more == actions;
    } else {
      RefusedTouchesNothing(actions, p, more[..|more| - 1]);
      OneMore(actions, more);
    }
  }

  // ----- does a registered publisher have a ring?

  /** Some connection that has found no publisher for the key makes sure of its ring during `more`. */
  ghost predicate RingIsMade(actions: seq<Action>, more: seq<Action>, key: string) {
    exists i :: 0 <= i < |more| && MakesRing(actions, more, i, key)
  }

  ghost predicate MakesRing(actions: seq<Action>, more: seq<Action>, i: nat, key: string)
    requires i < |more|
  {
    more[i].AddData? && Run(actions + more[..i]).StageOf(more[i].p) == Checked(key)
  }

  /** Another connection's tear-down of the key during `more`. */
  ghost predicate TearsDown(actions: seq<Action>, more: seq<Action>, i: nat, key: string)
    requires i < |more|
  {
    more[i].RemoveData? && Run(actions + more[..i]).StageOf(more[i].p) == Live(key)
  }

  lemma OneMore(actions: seq<Action>, more: seq<Action>)
    requires more != []
    ensures Run(actions + more) == Step(Run(actions + more[..|more| - 1]), more[|more| - 1])
  {
    assert (actions + more)[..|actions + more| - 1] == actions + more[..|more| - 1];
  }

  lemma NoRingIsMade(actions: seq<Action>, key: string)
    ensures !RingIsMade(actions, [], key)
  {
  }

  lemma RingIsMadeStep(actions: seq<Action>, more: seq<Action>, key: string)
    requires more != []
    ensures RingIsMade(actions, more, key) <==>
      RingIsMade(actions, more[..|more| - 1], key) || MakesRing(actions, more, |more| - 1, key)
  {
    var front := more[..|more| - 1];
    forall i | 0 <= i < |front|
      ensures MakesRing(actions, more, i, key) == MakesRing(actions, front, i, key)
    {
      assert more[..i] == front[..i];
    }
  }

  /** A connection that has registered never comes back to an earlier stage. */
  predicate HasRegistered(st: Stage, key: string) {
    st.Gone? ||
    ((st.Registered? || st.Attached? || st.Queued? || st.Live? || st.Dropped? || st.DataRemoved?) && st.key == key)
  }

  lemma StepStaysRegistered(s: System, a: Action, p: Pub, key: string)
    requires HasRegistered(s.StageOf(p), key)
    ensures HasRegistered(Step(s, a).StageOf(p), key)
  {
  }

  lemma {:induction false} StaysRegistered(actions: seq<Action>, more: seq<Action>, p: Pub, key: string)
    requires HasRegistered(Run(actions).StageOf(p), key)
    ensures HasRegistered(Run(actions + more).StageOf(p), key)
  {
    hide Step, HasRegistered, Run;
    if more == [] {
      assert actions + more == actions;
    } else {
      StaysRegistered(actions, more[..|more| - 1], p, key);
      OneMore(actions, more);
      StepStaysRegistered(Run(actions + more[..|more| - 1]), more[|more| - 1], p, key);
    }
  }

  /** What one step does to the ring of a key that p holds, and goes on holding. */
  lemma StepKeepsRing(s: System, a: Action, p: Pub, key: string)
    requires TableIsSound(s) && HasRegistered(s.StageOf(p), key)
    requires Holds(Step(s, a), p, key) && !Step(s, a).StageOf(p).DataRemoved?
    ensures Holds(s, p, key) && !s.StageOf(p).DataRemoved?
    ensures key in Step(s, a).rings <==> key in s.rings || (a.AddData? && s.StageOf(a.p) == Checked(key))
  {
    hide TableRemoved;
    assert Holds(s, p, key);
    if Enabled(s, a) && a.RemoveData? && s.StageOf(a.p).key == key {
      OneHolder(s, a.p, p, key);
    }
  }

  /** As long as a registered connection keeps its registration no tear-down takes its ring away; a ring can only be
      added. */
  lemma {:induction false} RegistrationKeepsRing(actions: seq<Action>, p: Pub, key: string, more: seq<Action>)
    requires HasRegistered(Run(actions).StageOf(p), key)
    requires Holds(Run(actions + more), p, key) && !Run(actions + more).StageOf(p).DataRemoved?
    ensures key in Run(actions + more).rings <==> key in Run(actions).rings || RingIsMade(actions, more, key)
  {
    hide Step, Run, HasRegistered, Holds, RingIsMade, TableIsSound;
    if more == [] {
      assert actions + more == actions;
      NoRingIsMade(actions, key);
    } else {
      var front, a := more[..|more| - 1], more[|more| - 1];
      OneMore(actions, more);
      RingIsMadeStep(actions, more, key);
      StaysRegistered(actions, front, p, key);
      var s := Run(actions + front);
      TableIsAlwaysSound(actions + front);
      StepKeepsRing(s, a, p, key);
      RegistrationKeepsRing(actions, p, key, front);
    }
  }

  lemma RegistrationDoesNotLook(actions: seq<Action>, p: Pub, key: string)
    requires Run(actions).StageOf(p) == DataAdded(key) && key !in Run(actions).table
    ensures var s := Run(actions + [Register(p)]);
      && s.StageOf(p) == Registered(key) && s.table == Run(actions).table[key := Run(actions).AddrOf(p)]
      && (key in s.rings <==> key in Run(actions).rings)
  {
    OneMore(actions, [Register(p)]);
    assert actions + [Register(p)][..0] == actions;
  }

  /** Does a registered publisher have a ring? A registration that succeeds does not look for one. As long as it is
      kept, the key has its ring exactly if it had one just before the registration, or some connection that was let
      through the first check earlier makes one later. */
  lemma HolderHasRingExactly(actions: seq<Action>, p: Pub, key: string, more: seq<Action>)
    requires Run(actions).StageOf(p) == DataAdded(key) && key !in Run(actions).table
    requires
      var s := Run(actions + [Register(p)] + more);
      Holds(s, p, key) && !s.StageOf(p).DataRemoved?
    ensures key in Run(actions + [Register(p)] + more).rings <==>
      key in Run(actions).rings || RingIsMade(actions + [Register(p)], more, key)
  {
    hide Run;
    RegistrationDoesNotLook(actions, p, key);
    RegistrationKeepsRing(actions + [Register(p)], p, key, more);
  }

  /** A tear-down of the key during `more`, by another connection than p, and no ring made since. */
  ghost predicate RingIsLost(actions: seq<Action>, more: seq<Action>, p: Pub, key: string) {
    exists i :: 0 <= i < |more| && TearsDown(actions, more, i, key) && more[i].p != p
      && NotMadeAfter(actions, more, i, key)
  }

  ghost predicate NotMadeAfter(actions: seq<Action>, more: seq<Action>, i: int, key: string) {
    forall j :: 0 <= j < |more| && i < j ==> !MakesRing(actions, more, j, key)
  }

  lemma RingIsLostStep(actions: seq<Action>, more: seq<Action>, p: Pub, key: string)
    requires more != []
    ensures
      var n := |more| - 1;
      RingIsLost(actions, more, p, key) <==>
        (TearsDown(actions, more, n, key) && more[n].p != p)
        || (!MakesRing(actions, more, n, key) && RingIsLost(actions, more[..n], p, key))
  {
    hide Run;
    var n := |more| - 1;
    var front := more[..n];
    forall i | 0 <= i < n
      ensures MakesRing(actions, more, i, key) == MakesRing(actions, front, i, key)
      ensures TearsDown(actions, more, i, key) == TearsDown(actions, front, i, key)
    {
      assert more[..i] == front[..i];
    }
    forall i | 0 <= i < n
      ensures NotMadeAfter(actions, more, i, key) <==>
        NotMadeAfter(actions, front, i, key) && !MakesRing(actions, more, n, key)
    {
    }
  }

  lemma StepLosesRing(s: System, a: Action, p: Pub, key: string)
    requires Step(s, a).StageOf(p) == DataAdded(key) && s.StageOf(p) == DataAdded(key)
    ensures a.RemoveData? && s.StageOf(a.p) == Live(key) ==> a.p != p && key !in Step(s, a).rings
    ensures a.AddData? && s.StageOf(a.p) == Checked(key) ==> key in Step(s, a).rings
    ensures !(a.RemoveData? && s.StageOf(a.p) == Live(key)) && !(a.AddData? && s.StageOf(a.p) == Checked(key)) ==>
      (key in Step(s, a).rings <==> key in s.rings)
  {
  }

  /** Between a connection's check for a ring and its registration: the ring is gone exactly if another connection
      was torn down in between and no one has made a ring since. */
  lemma {:induction false} RingLostInBetween(actions: seq<Action>, more: seq<Action>, p: Pub, key: string)
    requires Run(actions).StageOf(p) == Checked(key)
    requires Run(actions + [AddData(p)] + more).StageOf(p) == DataAdded(key)
    ensures key !in Run(actions + [AddData(p)] + more).rings <==> RingIsLost(actions + [AddData(p)], more, p, key)
  {
    hide Step, RingIsLost, Run;
    var start := actions + [AddData(p)];
    if more == [] {
      assert start + more == start;
      AddDataMakes(actions, p, key);
    } else {
      var n := |more| - 1;
      var front := more[..n];
      OneMore(start, more);
      RingIsLostStep(start, more, p, key);
      WaitsAllAlong(actions, more, p, key);
      RingLostInBetween(actions, front, p, key);
      StepLosesRing(Run(start + front), more[n], p, key);
    }
  }

  lemma AddDataMakes(actions: seq<Action>, p: Pub, key: string)
    requires Run(actions).StageOf(p) == Checked(key)
    ensures var s := Run(actions + [AddData(p)]); key in s.rings && s.StageOf(p) == DataAdded(key)
    ensures !RingIsLost(actions + [AddData(p)], [], p, key)
  {
    OneMore(actions, [AddData(p)]);
    assert actions + [AddData(p)][..0] == actions;
  }

  /** A connection that waits at the end has waited since it made sure of the ring. */
  lemma {:induction false} WaitsAllAlong(actions: seq<Action>, more: seq<Action>, p: Pub, key: string)
    requires Run(actions).StageOf(p) == Checked(key) && more != []
    requires Run(actions + [AddData(p)] + more).StageOf(p) == DataAdded(key)
    ensures Run(actions + [AddData(p)] + more[..|more| - 1]).StageOf(p) == DataAdded(key)
  {
    hide Run, TableRemoved, RingIsLost;
    var start, front := actions + [AddData(p)], more[..|more| - 1];
    OneMore(start, more);
    AddDataMakes(actions, p, key);
    NotCheckedAgain(start, front, p);
  }

  /** Past its check for a ring a connection is never before it again. */
  lemma StepNotCheckedAgain(s: System, a: Action, p: Pub)
    requires !s.StageOf(p).Checked? && !s.StageOf(p).Connecting?
    ensures !Step(s, a).StageOf(p).Checked? && !Step(s, a).StageOf(p).Connecting?
  {
  }

  lemma {:induction false} NotCheckedAgain(actions: seq<Action>, more: seq<Action>, p: Pub)
    requires !Run(actions).StageOf(p).Checked? && !Run(actions).StageOf(p).Connecting?
    ensures !Run(actions + more).StageOf(p).Checked? && !Run(actions + more).StageOf(p).Connecting?
  {
    hide Step, Run;
    if more == [] {
      assert actions + more == actions;
    } else {
      NotCheckedAgain(actions, more[..|more| - 1], p);
      OneMore(actions, more);
      StepNotCheckedAgain(Run(actions + more[..|more| - 1]), more[|more| - 1], p);
    }
  }

  lemma BothPassTheCheck(key: string) returns (actions: seq<Action>)
    ensures Run(actions)
         == System(map[key := 1], map[key := 1], map[1 := Queued(key), 2 := DataAdded(key)], map[1 := 1, 2 := 2])
  {
    hide Run, Less, TableRemoved;
    RunStarts();
    actions := Then([], Check(1, key, 1));
    actions := Then(actions, Check(2, key, 2));
    actions := Then(actions, AddData(1));
    var both := map[1 := 1, 2 := 2];
    assert Run(actions) == System(map[], map[key := 1], map[1 := DataAdded(key), 2 := Checked(key)], both);
    actions := Then(actions, AddData(2));
    actions := Then(actions, Register(1));
    assert Run(actions)
        == System(map[key := 1], map[key := 1], map[1 := Registered(key), 2 := DataAdded(key)], both);
    actions := Then(actions, Attach(1));
    actions := Then(actions, Enqueue(1));
  }

  /** The interleaving that leaves a registered publisher without a ring: it finds the ring of the first publisher
      still there, then that publisher is torn down, then it registers. All its datagrams will be refused. */
  lemma HolderMayLackRing(key: string) returns (actions: seq<Action>)
    ensures
      var s := Run(actions);
      s.table == map[key := 2] && s.StageOf(2) == Live(key) && key !in s.rings
  {
    hide Run, Less, TableRemoved;
    actions := BothPassTheCheck(key);
    actions := Then(actions, Admit(1));
    actions := Then(actions, RemoveData(1));
    RemovesFirst(Run(actions).table, 1, key);
    actions := Then(actions, Deregister(1));
    assert Run(actions) == System(map[], map[], map[1 := Gone, 2 := DataAdded(key)], map[1 := 1, 2 := 2]);
    actions := Then(actions, Register(2));
    actions := Then(actions, Attach(2));
    actions := Then(actions, Enqueue(2));
    actions := Then(actions, Admit(2));
  }

  lemma RunStarts()
    ensures Run([]) == START
  {
  }

  lemma Then(actions: seq<Action>, a: Action) returns (longer: seq<Action>)
    ensures longer == actions + [a] && Run(longer) == Step(Run(actions), a)
  {
    longer := actions + [a];
    assert longer[..|actions|] == actions;
  }

  // ----- a publisher dropped at admission

  ghost predicate IsHeld(s: System, key: string) {
    exists p: Pub :: Holds(s, p, key)
  }

  /** Registered, but for a publisher object that has been deleted. */
  ghost predicate IsStale(s: System, key: string) {
    key in s.table && !IsHeld(s, key)
  }

  ghost function StaleKeys(s: System): set<string> {
    set key | key in s.table && !IsHeld(s, key)
  }

  /** The tear-down of a publisher that has the address of the deleted one and a key behind `key`. */
  predicate Frees(s: System, a: Action, key: string) {
    && a.Deregister? && Enabled(s, a) && IsFirst(s.table, s.AddrOf(a.p), key)
    && Less(key, s.StageOf(a.p).key)
  }

  lemma KeepsHeld(s: System, a: Action, key: string)
    requires Holds(s, a.p, key) == Holds(Step(s, a), a.p, key)
    ensures IsHeld(Step(s, a), key) == IsHeld(s, key)
  {
    hide Step;
    var s' := Step(s, a);
    forall p: Pub
      ensures Holds(s', p, key) == Holds(s, p, key)
    {
      if p != a.p {
        OthersStay(s, a, p);
      }
    }
  }

  lemma LetsGo(s: System, a: Action, key: string)
    requires TableIsSound(s) && Holds(s, a.p, key) && !Holds(Step(s, a), a.p, key)
    ensures IsHeld(s, key) && !IsHeld(Step(s, a), key)
  {
    hide Step, TableIsSound;
    var s' := Step(s, a);
    if IsHeld(s', key) {
      var p: Pub :| Holds(s', p, key);
      OthersStay(s, a, p);
      OneHolder(s, p, a.p, key);
    }
  }

  lemma DropLeaves(s: System, p: Pub)
    requires TableIsSound(s) && s.StageOf(p).Queued?
    ensures
      var key := s.StageOf(p).key;
      && key in s.table && IsHeld(s, key)
      && StaleKeys(Step(s, Drop(p))) == StaleKeys(s) + {key}
  {
    hide TableRemoved;
    var s', own := Step(s, Drop(p)), s.StageOf(p).key;
    assert Holds(s, p, own);
    LetsGo(s, Drop(p), own);
    forall key | key != own
      ensures IsHeld(s', key) == IsHeld(s, key)
    {
      KeepsHeld(s, Drop(p), key);
    }
    assert forall key :: key in StaleKeys(s') <==> key in StaleKeys(s) + {own};
  }

  /** The tear-down of a publisher that has the address of the deleted one frees the first of their keys, and leaves
      its own behind in its place. */
  lemma DeregisterTrades(s: System, p: Pub) returns (key: string)
    requires TableIsSound(s) && s.StageOf(p).DataRemoved?
    ensures IsFirst(s.table, s.AddrOf(p), key) && Step(s, Deregister(p)).table == s.table - {key}
    ensures
      var own, s' := s.StageOf(p).key, Step(s, Deregister(p));
      && own in s.table && IsHeld(s, own)
      && if key == own then StaleKeys(s') == StaleKeys(s)
         else Less(key, own) && key in StaleKeys(s) && StaleKeys(s') == StaleKeys(s) - {key} + {own}
  {
    var s', own := Step(s, Deregister(p)), s.StageOf(p).key;
    key := DeregisterErases(s, p);
    hide TableRemoved;
    assert Holds(s, p, own);
    LetsGo(s, Deregister(p), own);
    forall k | k != own
      ensures IsHeld(s', k) == IsHeld(s, k)
    {
      KeepsHeld(s, Deregister(p), k);
    }
    assert key != own ==> forall q: Pub :: !Holds(s, q, key);
    if key == own {
      assert forall k :: k in StaleKeys(s') <==> k in StaleKeys(s);
    } else {
      assert forall k :: k in StaleKeys(s') <==> k in StaleKeys(s) - {key} + {own};
    }
  }

  lemma OthersLeaveStale(s: System, a: Action)
    requires TableIsSound(s) && (Enabled(s, a) ==> !a.Drop? && !a.Deregister?)
    ensures StaleKeys(Step(s, a)) == StaleKeys(s)
  {
    hide TableRemoved;
    var s' := Step(s, a);
    forall key
      ensures key in StaleKeys(s') <==> key in StaleKeys(s)
    {
      if a.Register? && Enabled(s, a) && key == s.StageOf(a.p).key && key !in s.table {
        assert Holds(s', a.p, key);
      } else {
        KeepsHeld(s, a, key);
      }
    }
  }

  /** How many publishers were dropped in a run. */
  ghost function DropsIn(actions: seq<Action>): nat {
    if actions == [] then 0
    else
      var front, a := actions[..|actions| - 1], actions[|actions| - 1];
      DropsIn(front) + if a.Drop? && Enabled(Run(front), a) then 1 else 0
  }

  lemma StaleStep(s: System, a: Action)
    requires TableIsSound(s)
    ensures |StaleKeys(Step(s, a))| == |StaleKeys(s)| + if a.Drop? && Enabled(s, a) then 1 else 0
  {
    hide Step, TableRemoved;
    if a.Drop? && Enabled(s, a) {
      DropLeaves(s, a.p);
      assert s.StageOf(a.p).key !in StaleKeys(s);
    } else if a.Deregister? && Enabled(s, a) {
      var key := DeregisterTrades(s, a.p);
      assert s.StageOf(a.p).key !in StaleKeys(s);
    } else {
      OthersLeaveStale(s, a);
    }
  }

  /** Every drop costs a key for good: the number of keys that are registered though no one holds them is the number of
      drops. A tear-down may move such an entry to another key and never removes one. */
  lemma {:induction false} EveryDropCostsAKey(actions: seq<Action>)
    ensures |StaleKeys(Run(actions))| == DropsIn(actions)
  {
    hide Step, TableRemoved;
    if actions == [] {
      assert StaleKeys(START) == {};
    } else {
      EveryDropCostsAKey(actions[..|actions| - 1]);
      TableIsAlwaysSound(actions[..|actions| - 1]);
      StaleStep(Run(actions[..|actions| - 1]), actions[|actions| - 1]);
    }
  }

  /** The table lists exactly the connections between their registration and their deregistration. */
  ghost predicate TableIsExact(s: System) {
    && (forall p: Pub, key :: Holds(s, p, key) ==> key in s.table && s.table[key] == s.AddrOf(p))
    && (forall key :: key in s.table ==> IsHeld(s, key))
  }

  /** In every run the keys of those connections lead to them; the table has no other entry exactly if no publisher
      was dropped. */
  lemma TableIsExactly(actions: seq<Action>)
    ensures TableIsSound(Run(actions))
    ensures TableIsExact(Run(actions)) <==> DropsIn(actions) == 0
  {
    hide Run, IsHeld;
    TableIsAlwaysSound(actions);
    EveryDropCostsAKey(actions);
    var s := Run(actions);
    if forall key :: key in s.table ==> IsHeld(s, key) {
      assert forall key :: key !in StaleKeys(s);
      assert StaleKeys(s) == {};
    } else {
      var key :| key in s.table && !IsHeld(s, key);
      assert key in StaleKeys(s);
    }
  }

  /** A worker that cannot take a publisher in deletes it without tear-down, and its key stays in the table. */
  lemma DropLeavesKey(actions: seq<Action>, p: Pub, key: string)
    requires Run(actions).StageOf(p) == Queued(key)
    ensures IsStale(Run(actions + [Drop(p)]), key)
    ensures Run(actions + [Drop(p)]).table[key] == Run(actions).AddrOf(p)
  {
    assert (actions + [Drop(p)])[..|actions|] == actions;
    TableIsAlwaysSound(actions);
    assert Holds(Run(actions), p, key);
    DropLeaves(Run(actions), p);
    assert key in StaleKeys(Run(actions + [Drop(p)]));
  }

  /** The step that frees such a key is the tear-down of a later publisher that got the address of the deleted one
      and whose own key comes later in the order of the table; then that own key is left behind instead. */
  lemma StaleKeyIsFreedExactly(s: System, a: Action, key: string)
    requires TableIsSound(s) && IsStale(s, key)
    ensures Frees(s, a, key) <==> !IsStale(Step(s, a), key)
    ensures Frees(s, a, key) ==> key !in Step(s, a).table && IsStale(Step(s, a), s.StageOf(a.p).key)
    ensures !Frees(s, a, key) ==> Step(s, a).table[key] == s.table[key]
  {
    hide TableRemoved;
    var s' := Step(s, a);
    assert key in StaleKeys(s);
    assert IsStale(s', key) <==> key in StaleKeys(s');
    if a.Drop? && Enabled(s, a) {
      DropLeaves(s, a.p);
    } else if a.Deregister? && Enabled(s, a) {
      var erased := DeregisterTrades(s, a.p);
      RemovesFirst(s.table, s.AddrOf(a.p), erased);
      LessIsTotal(key, s.StageOf(a.p).key);
      if erased != s.StageOf(a.p).key {
        assert s.StageOf(a.p).key in StaleKeys(s');
      }
    } else {
      OthersLeaveStale(s, a);
    }
  }

  ghost predicate FreesAt(actions: seq<Action>, more: seq<Action>, i: int, key: string)
    requires 0 <= i < |more|
  {
    Frees(Run(actions + more[..i]), more[i], key)
  }

  ghost predicate FreedDuring(actions: seq<Action>, more: seq<Action>, key: string) {
    exists i :: 0 <= i < |more| && FreesAt(actions, more, i, key)
  }

  lemma NotFreedBefore(actions: seq<Action>, more: seq<Action>, key: string)
    requires more != [] && !FreedDuring(actions, more, key)
    ensures !FreedDuring(actions, more[..|more| - 1], key)
    ensures !Frees(Run(actions + more[..|more| - 1]), more[|more| - 1], key)
  {
    hide Run;
    var front := more[..|more| - 1];
    assert !FreesAt(actions, more, |more| - 1, key);
    forall i | 0 <= i < |front|
      ensures !FreesAt(actions, front, i, key)
    {
      assert more[..i] == front[..i];
      assert !FreesAt(actions, more, i, key);
    }
  }

  /** Until then every later publisher of the key is turned away, at its first check or when it registers. */
  lemma {:induction false} StaleKeyIsRefused(actions: seq<Action>, key: string, more: seq<Action>)
    requires IsStale(Run(actions), key) && !FreedDuring(actions, more, key)
    ensures var s := Run(actions + more);
      && IsStale(s, key) && s.table[key] == Run(actions).table[key]
      && (forall q: Pub, addr :: s.StageOf(q).Connecting? ==> Step(s, Check(q, key, addr)).StageOf(q).Refused?)
      && (forall q: Pub :: s.StageOf(q) == DataAdded(key) ==> Step(s, Register(q)).StageOf(q).Refused?)
  {
    hide Run, Frees, FreedDuring, IsHeld, TableRemoved;
    if more == [] {
      assert actions + more == actions;
    } else {
      NotFreedBefore(actions, more, key);
      StaleKeyIsRefused(actions, key, more[..|more| - 1]);
      OneMore(actions, more);
      TableIsAlwaysSound(actions + more[..|more| - 1]);
      StaleKeyIsFreedExactly(Run(actions + more[..|more| - 1]), more[|more| - 1], key);
    }
  }

  /** A connection that finds its key free gets as far as the role list, at any address no living one has. */
  lemma GetsQueued(actions: seq<Action>, p: Pub, key: string, addr: Addr) returns (longer: seq<Action>)
    requires Run(actions).StageOf(p).Connecting? && key !in Run(actions).table && Run(actions).IsFree(addr)
    ensures var s, s' := Run(actions), Run(longer);
      && s'.table == s.table[key := addr]
      && s'.stages == s.stages[p := Queued(key)] && s'.addrs == s.addrs[p := addr]
  {
    hide Run;
    longer := Then(actions, Check(p, key, addr));
    longer := Then(longer, AddData(p));
    longer := Then(longer, Register(p));
    longer := Then(longer, Attach(p));
    longer := Then(longer, Enqueue(p));
  }

  lemma GetsDropped(actions: seq<Action>, p: Pub, key: string) returns (longer: seq<Action>)
    requires Run(actions).StageOf(p) == Queued(key)
    ensures Run(longer) == Run(actions).(stages := Run(actions).stages[p := Dropped(key)])
  {
    hide Run;
    longer := Then(actions, Drop(p));
  }

  lemma DropIsReachable(key: string) returns (actions: seq<Action>)
    ensures Run(actions).StageOf(1) == Dropped(key)
  {
    actions := GetsQueued([], 1, key, 0);
    actions := GetsDropped(actions, 1, key);
  }

  /** A publisher in the role list streams and is torn down. */
  lemma GetsTornDown(actions: seq<Action>, p: Pub, key: string, first: string) returns (longer: seq<Action>)
    requires Run(actions).StageOf(p) == Queued(key) && IsFirst(Run(actions).table, Run(actions).AddrOf(p), first)
    ensures Run(longer).table == Run(actions).table - {first}
    ensures Run(longer).stages == Run(actions).stages[p := Gone]
  {
    hide Run;
    longer := Then(actions, Admit(p));
    longer := Then(longer, RemoveData(p));
    RemovesFirst(Run(longer).table, Run(longer).AddrOf(p), first);
    longer := Then(longer, Deregister(p));
  }

  /** For any two keys: a publisher of the one is dropped, a publisher of the other gets its address, streams, and is
      torn down. Of the two keys, neither of which has a publisher now, the later one stays taken. */
  lemma StaleKeyMoves(dropped: string, key: string, addr: Addr) returns (actions: seq<Action>)
    requires dropped != key
    ensures
      var s := Run(actions);
      && s.StageOf(1) == Dropped(dropped) && s.StageOf(2) == Gone && !IsHeld(s, dropped) && !IsHeld(s, key)
      && s.table == map[(if Less(dropped, key) then key else dropped) := addr]
  {
    hide Run, Step, Less;
    LessIsTotal(dropped, key);
    RunStarts();
    actions := GetsQueued([], 1, dropped, addr);
    actions := GetsDropped(actions, 1, dropped);
    var s := Run(actions);
    assert s.table == map[dropped := addr] && s.stages == map[1 := Dropped(dropped)];
    actions := GetsQueued(actions, 2, key, addr);
    assert Run(actions).table == map[dropped := addr, key := addr];
    var first := if Less(dropped, key) then dropped else key;
    actions := GetsTornDown(actions, 2, key, first);
    assert Run(actions).stages == map[1 := Dropped(dropped), 2 := Gone];
  }
}
