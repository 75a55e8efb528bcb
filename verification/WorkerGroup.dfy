/** Roles (one per connection) and the worker group that serves them: slscore/SLSRole.cpp and slscore/SLSGroup.cpp.
    Role objects are created by listeners, wait in a queue shared by all groups, live in the map of one group under
    their socket, and are deleted by that group. */
module WorkerGroup {
  import opened Common

  datatype Lifecycle = RsUninit | RsInited | RsInvalid

  /** The fields of a role. `cleanups` counts the runs of the derived class's `uninit` (a publisher's leaves the
      shared tables there), `frees` counts `delete`. */
  datatype RoleView = RoleView(
    state: Lifecycle, srt: Option<int>, httpClient: bool, httpUrl: bool, httpPassed: bool,
    cleanups: nat, frees: nat)
  {
    function Fd(): int {
      if srt.Some? then srt.value else 0
    }

    predicate IsDead() {
      state == RsInvalid || state == RsUninit
    }
  }

  // ----- the life cycle

  /** `invalid_srt`: close and drop the socket; an admitted role with a callback URL then posts `on_close`. */
  function Closed(v: RoleView): RoleView {
    if v.srt == None then v
    else v.(srt := None, httpClient := v.httpClient || (v.httpPassed && v.httpUrl))
  }

  function BaseUninited(v: RoleView): RoleView {
    var w := v.(httpClient := false);
    if w.state == RsUninit then w else Closed(w.(state := RsUninit))
  }

  function Uninited(v: RoleView): RoleView {
    BaseUninited(v.(cleanups := v.cleanups + 1))
  }

  /** `get_state`; `bad`: the stream has been idle too long, or the socket is broken, closed or unknown. */
  function Checked(v: RoleView, bad: bool): RoleView {
    if v.state == RsInvalid then v
    else if bad || v.srt == None then Closed(v.(state := RsInvalid))
    else v
  }

  /** The destructor runs the base class's `uninit` only. */
  function Freed(v: RoleView): RoleView {
    var w := BaseUninited(v);
    w.(frees := w.frees + 1)
  }

  /** One role under `check_invalid_sock`. */
  function Purged(v: RoleView, bad: bool): RoleView {
    if Checked(v, bad).IsDead() then Freed(Uninited(Checked(v, bad))) else v
  }

  /** The role object is consistent: an invalid role has no socket any more. */
  predicate Consistent(v: RoleView) {
    v.state == RsInvalid ==> v.srt == None
  }

  /** `uninit` deletes the HTTP client and then, closing the socket, may create another one. */
  lemma UninitLeavesClientExactly(v: RoleView)
    ensures Uninited(v).httpClient
       <==> v.state != RsUninit && v.srt != None && v.httpPassed && v.httpUrl
  {
  }

  /** A dead role has lost its socket before `uninit`, so no client is left to wait for. */
  lemma DeadHaveNoClient(v: RoleView, bad: bool)
    requires Consistent(v) && Checked(v, bad).IsDead()
    ensures !Uninited(Checked(v, bad)).httpClient
  {
  }

  /** Who is retired by a purge, and what becomes of it: exactly who is bad, has no socket, or is not in service. The
      socket is closed but for a role that was never initialised. */
  lemma RetiredExactly(v: RoleView, bad: bool)
    requires Consistent(v)
    ensures
      if bad || v.srt == None || v.state != RsInited then
        && Checked(v, bad).IsDead()
        && Purged(v, bad).cleanups == v.cleanups + 1 && Purged(v, bad).frees == v.frees + 1
        && Purged(v, bad).state == RsUninit && (bad || v.state != RsUninit ==> Purged(v, bad).srt == None)
      else !Checked(v, bad).IsDead() && Purged(v, bad) == v
  {
  }

  lemma SurvivorIsOpen(v: RoleView, bad: bool)
    requires !Checked(v, bad).IsDead()
    ensures Purged(v, bad) == v && v.srt != None
  {
  }

  class Role {
    var state: Lifecycle
    var srt: Option<int>
    var httpClient: bool
    var httpUrl: bool
    var httpPassed: bool
    ghost var cleanups: nat
    ghost var frees: nat

    ghost function View(): RoleView
      reads this
    {
      RoleView(state, srt, httpClient, httpUrl, httpPassed, cleanups, frees)
    }

    constructor ()
      ensures View() == RoleView(RsUninit, None, false, false, true, 0, 0)
    {
      state, srt, httpClient, httpUrl, httpPassed := RsUninit, None, false, false, true;
      cleanups, frees := 0, 0;
    }

    method SetSrt(fd: int) returns (ok: bool)
      modifies this`srt
      ensures ok == (old(srt) == None)
      ensures srt == if ok then Some(fd) else old(srt)
    {
      if srt != None {
        return false;
      }
      srt := Some(fd);
      return true;
    }

    method Init()
      modifies this`state
      ensures state == RsInited
    {
      state := RsInited;
    }

    /** `set_http_url` with a nonempty URL. */
    method SetHttpUrl()
      modifies this
      ensures View() == old(View()).(httpUrl := true, httpClient := true,
                                     httpPassed := old(httpPassed) && old(httpClient))
    {
      httpUrl := true;
      if !httpClient {
        httpClient, httpPassed := true, false;
      }
    }

    method OnClose()
      modifies this`httpClient
      ensures httpClient == (old(httpClient) || (httpPassed && httpUrl))
    {
      if !httpPassed || !httpUrl {
        return;
      }
      if !httpClient {
        httpClient := true;
      }
    }

    method InvalidSrt()
      modifies this
      ensures View() == Closed(old(View()))
    {
      if srt != None {
        srt := None;
        OnClose();
      }
    }

    method BaseUninit()
      modifies this
      ensures View() == BaseUninited(old(View()))
    {
      if httpClient {
        httpClient := false;
      }
      if state != RsUninit {
        state := RsUninit;
        InvalidSrt();
      }
    }

    method Uninit()
      modifies this
      ensures View() == Uninited(old(View()))
    {
      cleanups := cleanups + 1;
      BaseUninit();
    }

    method GetState(bad: bool) returns (s: Lifecycle)
      modifies this
      ensures View() == Checked(old(View()), bad) && s == state
    {
      if state == RsInvalid {
        return state;
      }
      if bad || srt == None {
        state := RsInvalid;
        InvalidSrt();
        return state;
      }
      return state;
    }

    /** `response`: the answer of the admission callback once it is there, and whether it is 200. */
    method CheckHttpPassed(response: Option<bool>) returns (ok: bool)
      modifies this
      ensures View() == Answered(old(View()), response)
      ensures old(httpPassed) || !old(httpClient) ==> ok && View() == old(View())
      ensures old(!httpPassed && httpClient) ==>
        match response
        case None => !ok && View() == old(View())
        case Some(true) => ok && httpPassed && !httpClient && srt == old(srt) && state == old(state)
        case Some(false) => !ok && !httpPassed && !httpClient && srt == None && state == old(state)
    {
      if httpPassed || !httpClient {
        return true;
      }
      if response == None {
        return false;
      }
      httpClient := false;
      if response.value {
        httpPassed := true;
        return true;
      }
      InvalidSrt();
      return false;
    }

    method Delete()
      requires frees == 0
      modifies this
      ensures View() == Freed(old(View()))
    {
      BaseUninit();
      frees := frees + 1;
    }
  }

  function Answered(v: RoleView, response: Option<bool>): RoleView {
    if v.httpPassed || !v.httpClient || response == None then v
    else if response.value then v.(httpClient := false, httpPassed := true)
    else Closed(v.(httpClient := false))
  }

  // ----- the group

  class RoleList {
    var roles: seq<Role>
  }

  ghost function Snapshot(m: map<int, Role>): map<int, RoleView>
    reads m.Values
  {
    map fd | fd in m :: m[fd].View()
  }

  /** The views of the roles after `check_invalid_sock` has come past all sockets but those left. */
  ghost function PurgedViews(m: map<int, Role>, views: map<int, RoleView>, bad: set<Role>, left: set<int>)
    : map<int, RoleView>
    requires m.Keys == views.Keys
  {
    map fd | fd in m :: if fd in left then views[fd] else Purged(views[fd], m[fd] in bad)
  }

  ghost function Survivors(m: map<int, Role>, views: map<int, RoleView>, bad: set<Role>, left: set<int>): map<int, Role>
    requires m.Keys == views.Keys
  {
    map fd | fd in m && (fd in left || !Checked(views[fd], m[fd] in bad).IsDead()) :: m[fd]
  }

  lemma PurgeStep(m: map<int, Role>, views: map<int, RoleView>, bad: set<Role>, left: set<int>, fd: int)
    requires m.Keys == views.Keys && left <= m.Keys && fd in left
    ensures PurgedViews(m, views, bad, left - {fd})
         == PurgedViews(m, views, bad, left)[fd := Purged(views[fd], m[fd] in bad)]
    ensures Survivors(m, views, bad, left - {fd})
         == if Checked(views[fd], m[fd] in bad).IsDead() then Survivors(m, views, bad, left) - {fd}
            else Survivors(m, views, bad, left)
  {
    hide Purged, Checked, RoleView.IsDead;
  }

  lemma StillThere(m: map<int, Role>, views: map<int, RoleView>, bad: set<Role>, left: set<int>)
    requires m.Keys == views.Keys && left <= m.Keys
    ensures var s := Survivors(m, views, bad, left);
      left <= s.Keys <= m.Keys && forall fd :: fd in s ==> s[fd] == m[fd]
    ensures Survivors(m, views, bad, left).Values <= m.Values
    ensures forall fd :: fd in left ==> PurgedViews(m, views, bad, left)[fd] == views[fd]
  {
    ValuesWithin(Survivors(m, views, bad, left), m);
  }

  lemma ValuesWithin(some: map<int, Role>, all: map<int, Role>)
    requires forall fd :: fd in some ==> fd in all && some[fd] == all[fd]
    ensures some.Values <= all.Values
  {
    forall r | r !in all.Values
      ensures r !in some.Values
    {
      assert forall fd :: fd in some ==> all[fd] in all.Values;
      assert forall fd :: fd in some ==> some[fd] != r;
    }
  }

  lemma NoneLeft(m: map<int, Role>, views: map<int, RoleView>, bad: set<Role>)
    requires m.Keys == views.Keys
    ensures Survivors(m, views, bad, m.Keys) == m
    ensures PurgedViews(m, views, bad, m.Keys) == views
  {
  }

  lemma SurvivorsAreOpen(m: map<int, Role>, views: map<int, RoleView>, bad: set<Role>)
    requires m.Keys == views.Keys
    ensures forall fd :: fd in Survivors(m, views, bad, {}) ==>
      PurgedViews(m, views, bad, {})[fd] == views[fd] && views[fd].srt != None
  {
    forall fd | fd in Survivors(m, views, bad, {})
      ensures Purged(views[fd], m[fd] in bad) == views[fd] && views[fd].srt != None
    {
      SurvivorIsOpen(views[fd], m[fd] in bad);
    }
  }

  lemma RetiredOnes(m: map<int, Role>, views: map<int, RoleView>, bad: set<Role>)
    requires m.Keys == views.Keys && forall fd :: fd in views ==> Consistent(views[fd])
    ensures forall fd :: fd in m ==>
      var w := PurgedViews(m, views, bad, {})[fd];
      if m[fd] in bad || views[fd].srt == None || views[fd].state != RsInited then
        fd !in Survivors(m, views, bad, {}) && w.cleanups == views[fd].cleanups + 1 && w.frees == views[fd].frees + 1
      else fd in Survivors(m, views, bad, {}) && w == views[fd]
  {
    hide Checked, Purged, Consistent, RoleView.IsDead;
    forall fd | fd in m
      ensures
        var w := PurgedViews(m, views, bad, {})[fd];
        if m[fd] in bad || views[fd].srt == None || views[fd].state != RsInited then
          fd !in Survivors(m, views, bad, {}) && w.cleanups == views[fd].cleanups + 1 && w.frees == views[fd].frees + 1
        else fd in Survivors(m, views, bad, {}) && w == views[fd]
    {
      RetiredExactly(views[fd], m[fd] in bad);
    }
  }

  predicate Injective(m: map<int, Role>) {
    forall a, b :: a in m && b in m && m[a] == m[b] ==> a == b
  }

  /** A role of the map under socket `fd`. */
  predicate Fits(v: RoleView, fd: int) {
    Consistent(v) && v.cleanups == 0 && v.frees == 0 && (v.srt == None || v.srt == Some(fd))
  }

  predicate AllFit(views: map<int, RoleView>) {
    forall fd :: fd in views ==> Fits(views[fd], fd)
  }

  class Group {
    var mapRole: map<int, Role>
    var waitHttp: seq<Role>
    const workerConnections: nat
    const queue: RoleList

    /** Each role of the map is there once, alive, under its own socket or with its socket closed. */
    ghost predicate Valid()
      reads this, mapRole.Values
    {
      Injective(mapRole) && AllFit(Snapshot(mapRole)) && waitHttp == [] && |mapRole| <= workerConnections
    }

    /** Nothing in the map has lost its socket. */
    ghost predicate AllOpen()
      reads this, mapRole.Values
    {
      forall fd :: fd in mapRole ==> mapRole[fd].srt == Some(fd)
    }

    constructor (workerConnections: nat, queue: RoleList)
      ensures Valid() && mapRole == map[] && this.workerConnections == workerConnections && this.queue == queue
    {
      mapRole, waitHttp := map[], [];
      this.workerConnections, this.queue := workerConnections, queue;
    }

    /** `bad`: the roles whose stream is idle or whose socket is gone. */
    method CheckInvalidSock(bad: set<Role>)
      requires Valid()
      modifies this, mapRole.Values
      ensures Valid() && AllOpen()
      ensures mapRole == Survivors(old(mapRole), old(Snapshot(mapRole)), bad, {})
      ensures Snapshot(old(mapRole)) == PurgedViews(old(mapRole), old(Snapshot(mapRole)), bad, {})
      ensures forall fd :: fd in old(mapRole) ==>
        var role := old(mapRole)[fd];
        if role in bad || old(mapRole[fd].srt) == None || old(mapRole[fd].state) != RsInited then
          fd !in mapRole && role.cleanups == 1 && role.frees == 1
        else
          fd in mapRole && mapRole[fd] == role && role.View() == old(mapRole[fd].View())
      ensures mapRole.Values <= old(mapRole.Values)
      ensures forall fd :: fd in mapRole ==> fd in old(mapRole) && mapRole[fd].srt == old(mapRole[fd].srt)
    {
      hide Purged, Checked, Closed, RoleView.IsDead, Consistent, PurgedViews, Survivors;
      ghost var before, views := mapRole, Snapshot(mapRole);
      PurgeAll(bad);
      SurvivorsAreOpen(before, views, bad);
      StillThere(before, views, bad, {});
      RetiredOnes(before, views, bad);
      assert forall fd :: fd in before ==> before[fd].View() == Snapshot(before)[fd];
      assert forall fd :: fd in mapRole ==> mapRole[fd].View() == views[fd];
    }

    /** The loop of `check_invalid_sock`. */
    method PurgeAll(bad: set<Role>)
      requires Valid()
      modifies this, mapRole.Values
      ensures waitHttp == [] && |mapRole| <= |old(mapRole)|
      ensures mapRole == Survivors(old(mapRole), old(Snapshot(mapRole)), bad, {})
      ensures Snapshot(old(mapRole)) == PurgedViews(old(mapRole), old(Snapshot(mapRole)), bad, {})
    {
      hide Purged, Checked, Closed, RoleView.IsDead, Consistent, PurgedViews, Survivors;
      ghost var before, views := mapRole, Snapshot(mapRole);
      var sockets := mapRole.Keys;
      NoneLeft(before, views, bad);
      while sockets != {}
        invariant sockets <= before.Keys
        invariant mapRole == Survivors(before, views, bad, sockets)
        invariant Snapshot(before) == PurgedViews(before, views, bad, sockets)
        invariant waitHttp == [] && |mapRole| <= |before|
      {
        var fd := AnyOf(sockets);
        StillThere(before, views, bad, sockets);
        PurgeStep(before, views, bad, sockets, fd);
        CheckRole(mapRole[fd], mapRole[fd] in bad, fd, before);
        sockets := sockets - {fd};
      }
    }

    /** The body of the loop above, for the role under socket `fd` of the map `all`. */
    method CheckRole(role: Role, bad: bool, fd: int, ghost all: map<int, Role>)
      requires Consistent(role.View()) && role.frees == 0
      requires Injective(all) && fd in all && all[fd] == role
      modifies this`waitHttp, this`mapRole, role
      ensures waitHttp == old(waitHttp)
      ensures role.View() == Purged(old(role.View()), bad)
      ensures Snapshot(all) == old(Snapshot(all))[fd := role.View()]
      ensures mapRole == if Checked(old(role.View()), bad).IsDead() then old(mapRole) - {fd} else old(mapRole)
    {
      var state := role.GetState(bad);
      if state == RsInvalid || state == RsUninit {
        DeadHaveNoClient(old(role.View()), bad);
        role.Uninit();
        waitHttp := if role.httpClient then waitHttp + [role] else waitHttp;
        if !role.httpClient {
          role.Delete();
        }
        mapRole := mapRole - {fd};
      }
      assert forall k :: k in all && k != fd ==> all[k].View() == old(all[k].View());
    }

    function Head(): set<Role>
      reads queue
    {
      if queue.roles == [] then {} else {queue.roles[0]}
    }

    /** The next role of the queue is live, in no map, and has a socket of its own. */
    ghost predicate HeadFits()
      reads this, mapRole.Values, queue, queue.roles
    {
      forall r :: r in Head() ==>
        && r !in mapRole.Values && Consistent(r.View()) && r.cleanups == 0 && r.frees == 0
        && (r.srt != None ==> forall fd :: fd in mapRole ==> mapRole[fd].srt != r.srt)
    }

    /** `epollOk`: the role's socket could be added to the group's epoll. */
    method CheckNewRole(epollOk: bool)
      requires Valid() && AllOpen() && HeadFits()
      modifies this`mapRole, queue, Head()
      ensures Valid() && AllOpen()
      ensures Blocked(old(mapRole), workerConnections, old(queue.roles)) ==>
        mapRole == old(mapRole) && queue.roles == old(queue.roles)
      ensures !Blocked(old(mapRole), workerConnections, old(queue.roles)) ==>
        var role := old(queue.roles)[0];
        && queue.roles == old(queue.roles)[1..]
        && if Admissible(old(role.View()), epollOk)
           then mapRole == old(mapRole)[old(role.srt.value) := role] && role.View() == old(role.View())
                && old(role.srt.value) !in old(mapRole)
           else mapRole == old(mapRole) && role.View() == Freed(old(role.View()))
    {
      if |mapRole| >= workerConnections {
        return;
      }
      if queue.roles == [] {
        return;
      }
      var role := queue.roles[0];
      queue.roles := queue.roles[1..];
      var fd := if role.srt.Some? then role.srt.value else 0;
      if fd == 0 {
        role.Delete();
        return;
      }
      if epollOk {
        ghost var views := Snapshot(mapRole);
        mapRole := mapRole[fd := role];
        assert Snapshot(mapRole) == views[fd := role.View()];
        assert Fits(role.View(), fd);
      } else {
        role.Delete();
      }
    }

    method IdleCheck(bad: set<Role>, epollOk: bool)
      requires Valid() && HeadFits()
      modifies this, mapRole.Values, queue, Head()
      ensures Valid() && AllOpen()
      ensures
        var kept := Survivors(old(mapRole), old(Snapshot(mapRole)), bad, {});
        if Blocked(kept, workerConnections, old(queue.roles)) || !Admissible(old(queue.roles[0].View()), epollOk)
        then mapRole == kept
        else var fd := old(queue.roles[0].srt.value);
             fd !in kept && mapRole == kept[fd := old(queue.roles)[0]]
    {
      hide Purged, Survivors, PurgedViews, Consistent, Freed, Snapshot, Valid, AllOpen;
      CheckInvalidSock(bad);
      if queue.roles != [] {
        var head := queue.roles[0];
        assert Head() == old(Head()) == {head} && head !in old(mapRole.Values);
        assert head !in mapRole.Values && head.View() == old(head.View());
      }
      CheckNewRole(epollOk);
    }
  }

  predicate Blocked<R>(mapRole: map<int, R>, limit: nat, queue: seq<R>) {
    |mapRole| >= limit || queue == []
  }

  predicate Admissible(v: RoleView, epollOk: bool) {
    v.Fd() != 0 && epollOk
  }

  method AnyOf(s: set<int>) returns (x: int)
    requires s != {}
    ensures x in s
  {
    if forall y: int :: y !in s {
      assert false;
    }
    x :| x in s;
  }
}
