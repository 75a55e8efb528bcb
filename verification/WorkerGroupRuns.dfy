/** All worker groups of the server over one shared queue (slscore/SLSManager.cpp hands the same list to every
    listener and group). A run interleaves the listeners' pushes with the groups' steps; the maps belong to one thread
    each, the queue is locked, so each step below is atomic. Roles are named by ids. */
module WorkerGroupRuns {
  import opened Common
  import opened WorkerGroup

  type Id = int
  type Gid = int

  datatype System = System(roles: map<Id, RoleView>, queue: seq<Id>, maps: map<Gid, map<int, Id>>, purged: set<Gid>)
  {
    function MapOf(g: Gid): map<int, Id> {
      if g in maps then maps[g] else map[]
    }
  }

  /** Outcomes of a role's handler: fine; an error, after which the group closes the socket; a puller that
      nobody reads any more; an answer to the admission callback. */
  datatype Event = Served | Failed | GaveUp | Answer(response: Option<bool>)

  datatype Action =
    | Arrive(id: Id, view: RoleView)                     // a listener or a relay pushes a new role
    | Handle(g: Gid, fd: int, event: Event)              // the group handles a ready socket
    | Purge(g: Gid, bad: set<Id>)                        // idle_check: check_invalid_sock
    | Admit(g: Gid, epollOk: bool)                       // idle_check: check_new_role, right after it

  const START := System(map[], [], map[], {})

  predicate IsNew(s: System, id: Id, view: RoleView) {
    && id !in s.roles && Consistent(view) && view.cleanups == 0 && view.frees == 0
    && (view.srt != None ==> forall r :: r in s.roles ==> s.roles[r].srt != view.srt)
  }

  function Reacted(v: RoleView, event: Event): RoleView {
    match event
    case Served => v
    case Failed => Closed(v)
    case GaveUp => Closed(v.(state := RsInvalid))
    case Answer(response) => Answered(v, response)
  }

  predicate InMap(s: System, r: Id, g: Gid, fd: int) {
    fd in s.MapOf(g) && s.MapOf(g)[fd] == r
  }

  ghost predicate Serves(s: System, g: Gid, r: Id) {
    exists fd :: InMap(s, r, g, fd)
  }

  ghost function PurgedRoles(s: System, g: Gid, bad: set<Id>): map<Id, RoleView> {
    map r | r in s.roles :: if Serves(s, g, r) then Purged(s.roles[r], r in bad) else s.roles[r]
  }

  function Kept(s: System, g: Gid, bad: set<Id>): map<int, Id> {
    var m := s.MapOf(g);
    map fd | fd in m && m[fd] in s.roles && !Checked(s.roles[m[fd]], m[fd] in bad).IsDead() :: m[fd]
  }

  function Admitted(s: System, g: Gid, epollOk: bool, limit: nat): System {
    if Blocked(s.MapOf(g), limit, s.queue) || s.queue[0] !in s.roles then s
    else
      var r := s.queue[0];
      var t := s.(queue := s.queue[1..]);
      if Admissible(s.roles[r], epollOk)
      then t.(maps := s.maps[g := s.MapOf(g)[s.roles[r].Fd() := r]])
      else t.(roles := s.roles[r := Freed(s.roles[r])])
  }

  ghost function Next(s: System, a: Action, limit: nat): System {
    match a
    case Arrive(id, view) =>
      if IsNew(s, id, view) then s.(roles := s.roles[id := view], queue := s.queue + [id]) else s
    case Handle(g, fd, event) =>
      if g !in s.purged && fd in s.MapOf(g) && s.MapOf(g)[fd] in s.roles
      then s.(roles := s.roles[s.MapOf(g)[fd] := Reacted(s.roles[s.MapOf(g)[fd]], event)])
      else s
    case Purge(g, bad) =>
      if g in s.purged then s
      else s.(roles := PurgedRoles(s, g, bad), maps := s.maps[g := Kept(s, g, bad)], purged := s.purged + {g})
    case Admit(g, epollOk) =>
      if g in s.purged then Admitted(s, g, epollOk, limit).(purged := s.purged - {g}) else s
  }

  ghost function Run(s: System, actions: seq<Action>, limit: nat): System {
    if actions == [] then s else Next(Run(s, actions[..|actions| - 1], limit), actions[|actions| - 1], limit)
  }

  // ----- who owns a role

  ghost predicate Mapped(s: System, r: Id) {
    exists g, fd :: InMap(s, r, g, fd)
  }

  ghost predicate QueueOk(s: System) {
    && (forall i, j :: 0 <= i < j < |s.queue| ==> s.queue[i] != s.queue[j])
    && (forall r :: r in s.queue ==> r in s.roles && s.roles[r].cleanups == 0 && s.roles[r].frees == 0)
  }

  ghost predicate MapsOk(s: System) {
    forall r, g, fd :: InMap(s, r, g, fd) ==> r in s.roles && Fits(s.roles[r], fd) && r !in s.queue
  }

  ghost predicate PlacesDiffer(s: System) {
    forall r, g, fd, g', fd' :: InMap(s, r, g, fd) && InMap(s, r, g', fd') ==> g == g' && fd == fd'
  }

  ghost predicate NoneLost(s: System) {
    forall r :: r in s.roles ==>
      && Consistent(s.roles[r])
      && s.roles[r].cleanups <= s.roles[r].frees <= 1
      && (s.roles[r].frees == 0 ==> r in s.queue || Mapped(s, r))
  }

  ghost predicate SocketsDiffer(s: System) {
    forall r, q :: r in s.roles && q in s.roles && r != q && s.roles[r].srt != None ==> s.roles[r].srt != s.roles[q].srt
  }

  /** Between the two checks of an idle round every role of the group has its socket. */
  ghost predicate PurgedAreOpen(s: System) {
    forall r, g, fd :: InMap(s, r, g, fd) && g in s.purged && r in s.roles ==> s.roles[r].srt == Some(fd)
  }

  ghost predicate SizesOk(s: System, limit: nat) {
    forall g :: |s.MapOf(g)| <= limit
  }

  ghost predicate Inv(s: System, limit: nat) {
    && QueueOk(s) && MapsOk(s) && PlacesDiffer(s) && NoneLost(s) && SocketsDiffer(s) && PurgedAreOpen(s)
    && SizesOk(s, limit)
  }

  /** A step on one role that neither frees nor cleans it up; it may lose its socket. */
  predicate Lives(v: RoleView, w: RoleView) {
    && w.cleanups == v.cleanups && w.frees == v.frees
    && (w.srt == v.srt || w.srt == None)
    && (Consistent(v) ==> Consistent(w))
  }

  /** A step that deletes a role. */
  predicate Dies(v: RoleView, w: RoleView) {
    && w.frees == v.frees + 1 && v.cleanups <= w.cleanups <= v.cleanups + 1
    && (w.srt == v.srt || w.srt == None)
    && Consistent(w)
  }

  lemma ReactedLives(v: RoleView, event: Event)
    ensures Lives(v, Reacted(v, event))
  {
  }

  lemma FreedDies(v: RoleView)
    ensures Dies(v, Freed(v)) && Freed(v).cleanups == v.cleanups
  {
  }

  lemma PurgedDies(v: RoleView, bad: bool)
    ensures Checked(v, bad).IsDead() ==> Dies(v, Purged(v, bad)) && Purged(v, bad).cleanups == v.cleanups + 1
    ensures !Checked(v, bad).IsDead() ==> Purged(v, bad) == v && v.srt != None
  {
    hide Freed;
    var w := Uninited(Checked(v, bad));
    assert w.cleanups == v.cleanups + 1 && w.frees == v.frees && (w.srt == v.srt || w.srt == None);
    FreedDies(w);
  }

  lemma SameMaps(s: System, t: System)
    requires forall g :: t.MapOf(g) == s.MapOf(g)
    ensures forall r :: Mapped(t, r) <==> Mapped(s, r)
    ensures forall r, g, fd :: InMap(t, r, g, fd) <==> InMap(s, r, g, fd)
  {
    forall r
      ensures Mapped(t, r) <==> Mapped(s, r)
    {
      if Mapped(s, r) {
        var g, fd :| InMap(s, r, g, fd);
        assert InMap(t, r, g, fd);
      }
      if Mapped(t, r) {
        var g, fd :| InMap(t, r, g, fd);
        assert InMap(s, r, g, fd);
      }
    }
  }

  lemma ArriveKeepsInv(s: System, id: Id, view: RoleView, limit: nat)
    requires Inv(s, limit)
    ensures Inv(Next(s, Arrive(id, view), limit), limit)
  {
    hide Mapped, Fits, Consistent;
    SameMaps(s, Next(s, Arrive(id, view), limit));
  }

  lemma HandleKeepsInv(s: System, g: Gid, fd: int, event: Event, limit: nat)
    requires Inv(s, limit)
    ensures Inv(Next(s, Handle(g, fd, event), limit), limit)
  {
    hide Mapped, Reacted, Consistent;
    var t := Next(s, Handle(g, fd, event), limit);
    SameMaps(s, t);
    if t != s {
      var r := s.MapOf(g)[fd];
      assert InMap(s, r, g, fd);
      ReactedLives(s.roles[r], event);
    }
  }

  // ----- the purge

  /** What a purge leaves in the maps was there before, is unchanged and has its socket. */
  lemma PurgeKeeps(s: System, g: Gid, bad: set<Id>, limit: nat, r: Id, h: Gid, fd: int)
    requires MapsOk(s) && PlacesDiffer(s) && g !in s.purged
    requires var t := Next(s, Purge(g, bad), limit); InMap(t, r, h, fd)
    ensures var t := Next(s, Purge(g, bad), limit);
      InMap(s, r, h, fd) && t.roles[r] == s.roles[r] && (h == g ==> s.roles[r].srt != None)
  {
    hide Checked, Purged, Fits;
    assert InMap(s, r, h, fd);
    PurgedDies(s.roles[r], r in bad);
  }

  /** What a purge takes out of the maps is deleted, after one run of its clean-up; the rest is unchanged. */
  lemma PurgeDeletes(s: System, g: Gid, bad: set<Id>, limit: nat, r: Id)
    requires MapsOk(s) && g !in s.purged && r in s.roles
    ensures var t := Next(s, Purge(g, bad), limit);
      || (t.roles[r] == s.roles[r] && (Mapped(s, r) ==> Mapped(t, r)))
      || (Serves(s, g, r) && Dies(s.roles[r], t.roles[r]) && t.roles[r].cleanups == s.roles[r].cleanups + 1)
  {
    hide Checked, Purged, Fits, Dies;
    var t := Next(s, Purge(g, bad), limit);
    PurgedDies(s.roles[r], r in bad);
    if Mapped(s, r) && t.roles[r] == s.roles[r] {
      var h, fd :| InMap(s, r, h, fd);
      assert InMap(s, r, h, fd);
      if h == g && Checked(s.roles[r], r in bad).IsDead() {
      } else {
        assert InMap(t, r, h, fd);
      }
    }
  }

  lemma SmallerMap(a: map<int, Id>, b: map<int, Id>)
    requires a.Keys <= b.Keys
    ensures |a| <= |b|
  {
    assert b.Keys == a.Keys + (b.Keys - a.Keys);
  }

  lemma PurgeShape(s: System, g: Gid, bad: set<Id>, limit: nat)
    requires g !in s.purged
    ensures var t := Next(s, Purge(g, bad), limit);
      && t.roles.Keys == s.roles.Keys && t.queue == s.queue && t.purged == s.purged + {g}
      && forall h :: |t.MapOf(h)| <= |s.MapOf(h)|
  {
    SmallerMap(Kept(s, g, bad), s.MapOf(g));
  }

  lemma PurgeKeepsRoles(s: System, g: Gid, bad: set<Id>, limit: nat)
    requires QueueOk(s) && MapsOk(s) && NoneLost(s) && SocketsDiffer(s) && g !in s.purged
    ensures var t := Next(s, Purge(g, bad), limit); NoneLost(t) && SocketsDiffer(t) && QueueOk(t)
  {
    hide Next, Mapped, Consistent, Fits;
    var t := Next(s, Purge(g, bad), limit);
    PurgeShape(s, g, bad, limit);
    forall r | r in s.roles
      ensures Consistent(t.roles[r]) && t.roles[r].cleanups <= t.roles[r].frees <= 1
      ensures t.roles[r].frees == 0 ==> r in s.queue || Mapped(t, r)
      ensures t.roles[r].srt == s.roles[r].srt || t.roles[r].srt == None
      ensures r in s.queue ==> t.roles[r] == s.roles[r]
    {
      PurgeDeletes(s, g, bad, limit, r);
      if Serves(s, g, r) {
        ServedIsAlive(s, g, r);
      }
    }
  }

  lemma ServedIsAlive(s: System, g: Gid, r: Id)
    requires MapsOk(s) && Serves(s, g, r)
    ensures r in s.roles && s.roles[r].frees == 0 && s.roles[r].cleanups == 0 && r !in s.queue
  {
    var fd :| InMap(s, r, g, fd);
  }

  lemma PurgeKeepsMaps(s: System, g: Gid, bad: set<Id>, limit: nat)
    requires Inv(s, limit) && g !in s.purged
    ensures var t := Next(s, Purge(g, bad), limit);
      MapsOk(t) && PlacesDiffer(t) && PurgedAreOpen(t) && SizesOk(t, limit)
  {
    hide Next, InMap, Mapped, Consistent;
    var t := Next(s, Purge(g, bad), limit);
    PurgeShape(s, g, bad, limit);
    forall r, h, fd | InMap(t, r, h, fd)
      ensures InMap(s, r, h, fd) && r in t.roles && t.roles[r] == s.roles[r] && r !in t.queue
      ensures Fits(t.roles[r], fd) && (h in t.purged ==> t.roles[r].srt == Some(fd))
    {
      PurgeKeeps(s, g, bad, limit, r, h, fd);
    }
  }

  lemma PurgeKeepsInv(s: System, g: Gid, bad: set<Id>, limit: nat)
    requires Inv(s, limit)
    ensures Inv(Next(s, Purge(g, bad), limit), limit)
  {
    if g !in s.purged {
      PurgeKeepsRoles(s, g, bad, limit);
      PurgeKeepsMaps(s, g, bad, limit);
    }
  }

  // ----- the admission

  /** `m_map_role[fd] = role` never overwrites: the purge has just removed every role without a socket. */
  lemma AdmissionIsToAFreeSlot(s: System, g: Gid, limit: nat)
    requires Inv(s, limit) && g in s.purged && s.queue != []
    requires s.queue[0] in s.roles && s.roles[s.queue[0]].srt != None
    ensures s.roles[s.queue[0]].Fd() !in s.MapOf(g)
  {
    var r := s.queue[0];
    assert r in s.queue;
    forall k | k in s.MapOf(g)
      ensures k != s.roles[r].Fd()
    {
      var q := s.MapOf(g)[k];
      assert InMap(s, q, g, k);
      assert q != r && s.roles[q].srt == Some(k);
    }
  }

  predicate Takes(s: System, g: Gid, epollOk: bool, limit: nat) {
    && g in s.purged && !Blocked(s.MapOf(g), limit, s.queue)
    && s.queue[0] in s.roles && Admissible(s.roles[s.queue[0]], epollOk)
  }

  predicate Drops(s: System, g: Gid, epollOk: bool, limit: nat) {
    && g in s.purged && !Blocked(s.MapOf(g), limit, s.queue)
    && s.queue[0] in s.roles && !Admissible(s.roles[s.queue[0]], epollOk)
  }

  lemma Popped(queue: seq<Id>)
    requires queue != []
    requires forall i, j :: 0 <= i < j < |queue| ==> queue[i] != queue[j]
    ensures forall i, j :: 0 <= i < j < |queue[1..]| ==> queue[1..][i] != queue[1..][j]
    ensures queue[0] !in queue[1..]
    ensures forall r :: r in queue <==> r == queue[0] || r in queue[1..]
  {
    assert queue == [queue[0]] + queue[1..];
  }

  lemma TakingKeepsInv(s: System, g: Gid, epollOk: bool, limit: nat)
    requires Inv(s, limit) && Takes(s, g, epollOk, limit)
    ensures Inv(Next(s, Admit(g, epollOk), limit), limit)
  {
    hide Consistent;
    var t := Next(s, Admit(g, epollOk), limit);
    var r, fd := s.queue[0], s.roles[s.queue[0]].Fd();
    AdmissionIsToAFreeSlot(s, g, limit);
    assert t.roles == s.roles;
    Popped(s.queue);
    TakenMaps(s, t, r, g, fd);
    assert t.MapOf(g) == s.MapOf(g)[fd := r] && |t.MapOf(g)| == |s.MapOf(g)| + 1;
    assert forall h :: h != g ==> t.MapOf(h) == s.MapOf(h);
  }

  lemma TakenMaps(s: System, t: System, r: Id, g: Gid, fd: int)
    requires fd !in s.MapOf(g) && t.maps == s.maps[g := s.MapOf(g)[fd := r]]
    ensures forall q, h, k :: InMap(t, q, h, k) <==> InMap(s, q, h, k) || (q == r && h == g && k == fd)
    ensures forall q :: Mapped(t, q) <==> Mapped(s, q) || q == r
  {
    forall q
      ensures Mapped(t, q) <==> Mapped(s, q) || q == r
    {
      assert InMap(t, r, g, fd);
      if Mapped(s, q) {
        var h, k :| InMap(s, q, h, k);
        assert InMap(t, q, h, k);
      }
      if Mapped(t, q) && q != r {
        var h, k :| InMap(t, q, h, k);
        assert InMap(s, q, h, k);
      }
    }
  }

  lemma DroppingKeepsInv(s: System, g: Gid, epollOk: bool, limit: nat)
    requires Inv(s, limit) && Drops(s, g, epollOk, limit)
    ensures Inv(Next(s, Admit(g, epollOk), limit), limit)
  {
    hide Freed, Mapped, Fits;
    var t := Next(s, Admit(g, epollOk), limit);
    var r := s.queue[0];
    FreedDies(s.roles[r]);
    SameMaps(s, t);
    Popped(s.queue);
  }

  lemma AdmitKeepsInv(s: System, g: Gid, epollOk: bool, limit: nat)
    requires Inv(s, limit)
    ensures Inv(Next(s, Admit(g, epollOk), limit), limit)
  {
    if Takes(s, g, epollOk, limit) {
      TakingKeepsInv(s, g, epollOk, limit);
    } else if Drops(s, g, epollOk, limit) {
      DroppingKeepsInv(s, g, epollOk, limit);
    } else {
      hide Mapped, Fits;
      SameMaps(s, Next(s, Admit(g, epollOk), limit));
    }
  }

  // ----- every run

  lemma NextKeepsInv(s: System, a: Action, limit: nat)
    requires Inv(s, limit)
    ensures Inv(Next(s, a, limit), limit)
  {
    hide Inv, Next;
    match a
    case Arrive(id, view) => ArriveKeepsInv(s, id, view, limit);
    case Handle(g, fd, event) => HandleKeepsInv(s, g, fd, event, limit);
    case Purge(g, bad) => PurgeKeepsInv(s, g, bad, limit);
    case Admit(g, epollOk) => AdmitKeepsInv(s, g, epollOk, limit);
  }

  lemma {:induction false} EveryRunKeepsInv(actions: seq<Action>, limit: nat)
    ensures Inv(Run(START, actions, limit), limit)
  {
    if actions != [] {
      hide Inv, Next;
      EveryRunKeepsInv(actions[..|actions| - 1], limit);
      NextKeepsInv(Run(START, actions[..|actions| - 1], limit), actions[|actions| - 1], limit);
    }
  }

  /** In the queue, in one map under one socket, or deleted once: always exactly one of the three. */
  ghost predicate OwnedOnce(s: System, r: Id)
    requires r in s.roles
  {
    && s.roles[r].frees <= 1
    && (r in s.queue ==> !Mapped(s, r) && s.roles[r].frees == 0)
    && (Mapped(s, r) ==> s.roles[r].frees == 0)
    && (r in s.queue || Mapped(s, r) || s.roles[r].frees == 1)
    && (forall g, fd, g', fd' :: InMap(s, r, g, fd) && InMap(s, r, g', fd') ==> g == g' && fd == fd')
  }

  /** In every reachable state every role has one owner, and no group serves more than its share. */
  lemma EveryRoleIsOwnedOnce(actions: seq<Action>, limit: nat)
    ensures var s := Run(START, actions, limit);
      && (forall r :: r in s.roles ==> OwnedOnce(s, r))
      && (forall r, g, fd :: InMap(s, r, g, fd) ==> r in s.roles)
      && (forall g :: |s.MapOf(g)| <= limit)
  {
    EveryRunKeepsInv(actions, limit);
  }

  /** The derived class's `uninit` runs exactly once for a role deleted by a purge, and never for a role that
      `check_new_role` deletes: a publisher dropped there stays in the shared tables. */
  lemma CleanupRunsExactlyInPurges(actions: seq<Action>, a: Action, limit: nat, r: Id)
    requires var s := Run(START, actions, limit);
      r in s.roles && s.roles[r].frees == 0 && Next(s, a, limit).roles[r].frees == 1
    ensures var t := Next(Run(START, actions, limit), a, limit);
      t.roles[r].cleanups <= 1 && (t.roles[r].cleanups == 1 <==> a.Purge?)
  {
    hide Run, Freed, Purged, Fits, Closed, Reacted, InMap;
    EveryRunKeepsInv(actions, limit);
    var s := Run(START, actions, limit);
    FreedDies(s.roles[r]);
    match a
    case Arrive(id, view) =>
    case Handle(g, fd, event) => ReactedLives(s.roles[r], event);
    case Purge(g, bad) =>
      PurgeDeletes(s, g, bad, limit, r);
      AliveIsClean(s, r, limit);
    case Admit(g, epollOk) => AliveIsClean(s, r, limit);
  }

  lemma AliveIsClean(s: System, r: Id, limit: nat)
    requires Inv(s, limit) && r in s.roles && s.roles[r].frees == 0
    ensures s.roles[r].cleanups == 0
  {
  }

  /** Whatever role a purge of any reachable state retires, its `uninit` leaves no HTTP client behind, so nothing ever
      enters the list of roles that wait for one (and no `on_close` callback is ever completed). */
  lemma WaitListStaysEmpty(actions: seq<Action>, limit: nat, r: Id, bad: bool)
    requires var s := Run(START, actions, limit); r in s.roles && Checked(s.roles[r], bad).IsDead()
    ensures !Uninited(Checked(Run(START, actions, limit).roles[r], bad)).httpClient
  {
    hide Run, Uninited;
    EveryRunKeepsInv(actions, limit);
    DeadHaveNoClient(Run(START, actions, limit).roles[r], bad);
  }

  // ----- who is retired, and who is admitted

  /** In every reachable state a purge retires exactly the roles of its group that are bad, have no socket or are not in
      service: they leave the map, cleaned up once and deleted once; every other role stays as it is. */
  lemma PurgeRetiresExactly(actions: seq<Action>, limit: nat, g: Gid, bad: set<Id>, r: Id)
    requires var s := Run(START, actions, limit); g !in s.purged && Serves(s, g, r)
    ensures var s := Run(START, actions, limit); r in s.roles
    ensures
      var s, t := Run(START, actions, limit), Next(Run(START, actions, limit), Purge(g, bad), limit);
      r in t.roles &&
      if r in bad || s.roles[r].srt == None || s.roles[r].state != RsInited then
        !Mapped(t, r) && t.roles[r].cleanups == 1 && t.roles[r].frees == 1
      else Serves(t, g, r) && t.roles[r] == s.roles[r]
  {
    hide Run;
    EveryRunKeepsInv(actions, limit);
    PurgeOfOne(Run(START, actions, limit), limit, g, bad, r);
  }

  lemma PurgeOfOne(s: System, limit: nat, g: Gid, bad: set<Id>, r: Id)
    requires Inv(s, limit) && g !in s.purged && Serves(s, g, r)
    ensures r in s.roles
    ensures
      var t := Next(s, Purge(g, bad), limit);
      r in t.roles &&
      if r in bad || s.roles[r].srt == None || s.roles[r].state != RsInited then
        !Mapped(t, r) && t.roles[r].cleanups == 1 && t.roles[r].frees == 1
      else Serves(t, g, r) && t.roles[r] == s.roles[r]
  {
    hide Checked, Purged, RoleView.IsDead;
    var t := Next(s, Purge(g, bad), limit);
    ServedIsAlive(s, g, r);
    var fd :| InMap(s, r, g, fd);
    RetiredExactly(s.roles[r], r in bad);
    if !Checked(s.roles[r], r in bad).IsDead() {
      assert InMap(t, r, g, fd);
    } else {
      assert forall h, k :: InMap(t, r, h, k) ==> InMap(s, r, h, k);
    }
  }

  /** The socket of a pending role becomes ready and there is an answer to its admission callback: 200 admits it with
      its socket, any other refuses it and closes the socket; without an answer it stays as it is. */
  lemma AnswerDecides(s: System, limit: nat, r: Id, g: Gid, fd: int, response: Option<bool>)
    requires InMap(s, r, g, fd) && g !in s.purged && r in s.roles
    requires !s.roles[r].httpPassed && s.roles[r].httpClient
    ensures
      var v, w := s.roles[r], Next(s, Handle(g, fd, Answer(response)), limit).roles[r];
      match response
      case None => w == v
      case Some(true) => w.httpPassed && !w.httpClient && w.srt == v.srt && w.state == v.state
      case Some(false) => !w.httpPassed && !w.httpClient && w.srt == None && w.state == v.state
  {
  }

  /** Step `i` handles the role's socket, and its callback has answered 200. */
  ghost predicate IsAdmittedAt(actions: seq<Action>, limit: nat, i: nat, r: Id)
    requires i < |actions|
  {
    var s := Run(START, actions[..i], limit);
    match actions[i]
    case Handle(g, fd, Answer(Some(true))) => g !in s.purged && InMap(s, r, g, fd)
    case _ => false
  }

  /** Step `i` brings the role, without a callback to wait for. */
  ghost predicate ArrivesPassed(actions: seq<Action>, limit: nat, i: nat, r: Id)
    requires i < |actions|
  {
    match actions[i]
    case Arrive(id, view) => id == r && view.httpPassed && IsNew(Run(START, actions[..i], limit), id, view)
    case _ => false
  }

  lemma StepAdmits(s: System, a: Action, limit: nat, r: Id)
    requires r in Next(s, a, limit).roles && Next(s, a, limit).roles[r].httpPassed
    requires r in s.roles ==> !s.roles[r].httpPassed
    ensures match a
      case Arrive(id, view) => id == r && view.httpPassed && IsNew(s, id, view)
      case Handle(g, fd, Answer(Some(true))) => g !in s.purged && InMap(s, r, g, fd)
      case _ => false
  {
  }

  /** In every run a role has passed admission only if it came without a callback or one of its callbacks was answered
      with 200. */
  lemma {:induction false} PassedOnlyByAnswer(actions: seq<Action>, limit: nat, r: Id) returns (i: nat)
    requires r in Run(START, actions, limit).roles && Run(START, actions, limit).roles[r].httpPassed
    ensures i < |actions| && (ArrivesPassed(actions, limit, i, r) || IsAdmittedAt(actions, limit, i, r))
  {
    hide Next;
    var front, last := actions[..|actions| - 1], actions[|actions| - 1];
    var s := Run(START, front, limit);
    if r in s.roles && s.roles[r].httpPassed {
      i := PassedOnlyByAnswer(front, limit, r);
      assert front[..i] == actions[..i] && front[i] == actions[i];
    } else {
      StepAdmits(s, last, limit, r);
      i := |front|;
    }
  }

  /** A role whose handler fails, or that gives up, or is refused, is retired by the next purge of its group. */
  lemma LostSocketIsRetired(actions: seq<Action>, limit: nat, r: Id, g: Gid, fd: int, event: Event, bad: set<Id>)
    requires var s := Run(START, actions, limit);
      && InMap(s, r, g, fd) && g !in s.purged && r in s.roles
      && (event.Failed? || event.GaveUp?
          || (event == Answer(Some(false)) && !s.roles[r].httpPassed && s.roles[r].httpClient))
    ensures
      var t := Next(Next(Run(START, actions, limit), Handle(g, fd, event), limit), Purge(g, bad), limit);
      r in t.roles && !Mapped(t, r) && t.roles[r].cleanups == 1 && t.roles[r].frees == 1
  {
    hide Run, Mapped, Purged, Checked, Inv;
    var s := Run(START, actions, limit);
    EveryRunKeepsInv(actions, limit);
    var handled := Next(s, Handle(g, fd, event), limit);
    NextKeepsInv(s, Handle(g, fd, event), limit);
    assert InMap(handled, r, g, fd) && handled.roles[r].srt == None;
    PurgeOfOne(handled, limit, g, bad, r);
  }

  /** What becomes of the first role of the queue after the purge of a group: nothing while the group is full; otherwise
      it leaves the queue, into the group's map under its socket if it has one that could be added to the epoll, and is
      deleted, without clean-up, if not. */
  lemma AdmissionDecides(actions: seq<Action>, limit: nat, g: Gid, epollOk: bool)
    requires var s := Run(START, actions, limit); g in s.purged && s.queue != []
    ensures Run(START, actions, limit).queue[0] in Run(START, actions, limit).roles
    ensures
      var s, t := Run(START, actions, limit), Next(Run(START, actions, limit), Admit(g, epollOk), limit);
      var r := s.queue[0];
      if |s.MapOf(g)| >= limit then t.queue == s.queue && t.roles == s.roles && t.maps == s.maps
      else
        && t.queue == s.queue[1..] && r in t.roles
        && if s.roles[r].srt != None && s.roles[r].srt != Some(0) && epollOk then
             t.roles == s.roles && InMap(t, r, g, s.roles[r].srt.value)
           else !Mapped(t, r) && t.roles[r].frees == 1 && t.roles[r].cleanups == 0
  {
    hide Run, Freed;
    EveryRunKeepsInv(actions, limit);
    AdmissionOfOne(Run(START, actions, limit), limit, g, epollOk);
  }

  lemma AdmissionOfOne(s: System, limit: nat, g: Gid, epollOk: bool)
    requires Inv(s, limit) && g in s.purged && s.queue != []
    ensures s.queue[0] in s.roles
    ensures
      var t := Next(s, Admit(g, epollOk), limit);
      var r := s.queue[0];
      if |s.MapOf(g)| >= limit then t.queue == s.queue && t.roles == s.roles && t.maps == s.maps
      else
        && t.queue == s.queue[1..] && r in t.roles
        && if s.roles[r].srt != None && s.roles[r].srt != Some(0) && epollOk then
             t.roles == s.roles && InMap(t, r, g, s.roles[r].srt.value)
           else !Mapped(t, r) && t.roles[r].frees == 1 && t.roles[r].cleanups == 0
  {
    hide Freed, Consistent;
    var t, r := Next(s, Admit(g, epollOk), limit), s.queue[0];
    assert r in s.queue && s.roles[r].frees == 0;
    FreedDies(s.roles[r]);
    if !(s.roles[r].srt != None && s.roles[r].srt != Some(0) && epollOk) {
      SameMapped(s, t, r);
    }
  }

  lemma SameMapped(s: System, t: System, r: Id)
    requires MapsOk(s) && t.maps == s.maps && r in s.queue
    ensures !Mapped(t, r)
  {
    forall g, fd
      ensures !InMap(t, r, g, fd)
    {
      assert InMap(t, r, g, fd) ==> InMap(s, r, g, fd);
    }
  }

  /** The roles that arrived, in order. */
  ghost function Arrivals(actions: seq<Action>, limit: nat): seq<Id> {
    if actions == [] then []
    else
      var front, last := actions[..|actions| - 1], actions[|actions| - 1];
      Arrivals(front, limit)
      + if last.Arrive? && IsNew(Run(START, front, limit), last.id, last.view) then [last.id] else []
  }

  /** The roles that groups have taken from the queue, in order. */
  ghost function TakenOut(actions: seq<Action>, limit: nat): seq<Id> {
    if actions == [] then []
    else
      var front, last := actions[..|actions| - 1], actions[|actions| - 1];
      var before, after := Run(START, front, limit).queue, Run(START, actions, limit).queue;
      TakenOut(front, limit) + if last.Admit? && |after| < |before| then [before[0]] else []
  }

  lemma StepKeepsOrder(s: System, a: Action, limit: nat)
    ensures
      var before, after := s.queue, Next(s, a, limit).queue;
      && (a.Arrive? ==> after == before + if IsNew(s, a.id, a.view) then [a.id] else [])
      && (a.Admit? ==> after == before || (before != [] && after == before[1..]))
      && (!a.Arrive? && !a.Admit? ==> after == before)
  {
    hide Freed, Reacted, Purged, Checked;
  }

  /** In every run the groups together take the roles in the order of their arrival. */
  lemma {:induction false} FirstInFirstOut(actions: seq<Action>, limit: nat)
    ensures Arrivals(actions, limit) == TakenOut(actions, limit) + Run(START, actions, limit).queue
  {
    hide Next, IsNew;
    if actions != [] {
      var front, last := actions[..|actions| - 1], actions[|actions| - 1];
      FirstInFirstOut(front, limit);
      StepKeepsOrder(Run(START, front, limit), last, limit);
      var before, after := Run(START, front, limit).queue, Run(START, actions, limit).queue;
      var taken := TakenOut(front, limit);
      if last.Admit? && |after| < |before| {
        assert taken + before == (taken + [before[0]]) + before[1..];
      } else if last.Arrive? && after != before {
        assert (taken + before) + [last.id] == taken + (before + [last.id]);
      }
    }
  }

  lemma AddAction(actions: seq<Action>, a: Action, limit: nat)
    ensures Run(START, actions + [a], limit) == Next(Run(START, actions, limit), a, limit)
  {
    assert (actions + [a])[..|actions|] == actions;
  }

  lemma PurgeOfEmptyGroup(s: System, g: Gid, limit: nat)
    requires s.MapOf(g) == map[] && g !in s.purged
    ensures var t := Next(s, Purge(g, {}), limit);
      t.roles == s.roles && t.queue == s.queue && t.MapOf(g) == map[] && g in t.purged
  {
    hide Purged, Checked;
    assert forall r :: !Serves(s, g, r);
    assert Kept(s, g, {}) == map[];
  }

  lemma AdmissionDrops(s: System, g: Gid, limit: nat)
    requires Drops(s, g, false, limit)
    ensures Next(s, Admit(g, false), limit).roles == s.roles[s.queue[0] := Freed(s.roles[s.queue[0]])]
  {
    hide Freed;
  }

  /** A publisher whose socket cannot be added to the epoll is deleted without its clean-up. */
  lemma DropHappens(fd: int, limit: nat) returns (actions: seq<Action>)
    requires fd != 0 && limit > 0
    ensures var s := Run(START, actions, limit);
      1 in s.roles && s.roles[1].frees == 1 && s.roles[1].cleanups == 0
  {
    hide Freed, Run, Next;
    var view := RoleView(RsInited, Some(fd), false, false, true, 0, 0);
    var arrive, purge, admit := Arrive(1, view), Purge(0, {}), Admit(0, false);
    actions := [] + [arrive] + [purge] + [admit];
    FirstArrival(view, limit);
    AddAction([], arrive, limit);
    AddAction([] + [arrive], purge, limit);
    PurgeOfEmptyGroup(System(map[1 := view], [1], map[], {}), 0, limit);
    AddAction([] + [arrive] + [purge], admit, limit);
    AdmissionDrops(Run(START, [] + [arrive] + [purge], limit), 0, limit);
    FreedDies(view);
  }

  lemma FirstArrival(view: RoleView, limit: nat)
    requires Consistent(view) && view.cleanups == 0 && view.frees == 0
    ensures Next(Run(START, [], limit), Arrive(1, view), limit) == System(map[1 := view], [1], map[], {})
  {
  }
}
