/** The cyclic search of slscore/SLSPullerManager.cpp (`connect_loop`). */
module PullerLoop {
  import opened Bytes

  /** The upstream tried at attempt `k`, counting from the one after the saved index. */
  function Visited(saved: int, k: int, n: int): int {
    Turn(saved + 1 + k, n)
  }

  /** The first `n` attempts reach every upstream, each once; the last of them is the saved one. */
  lemma CycleIsComplete(saved: int, n: int, i: int)
    requires 0 <= saved < n && 0 <= i < n
    ensures exists k :: 0 <= k < n && Visited(saved, k, n) == i
    ensures forall j, k :: 0 <= j < k < n ==> Visited(saved, j, n) != Visited(saved, k, n)
    ensures Visited(saved, n - 1, n) == saved
  {
    assert Visited(saved, if i > saved then i - saved - 1 else i + n - saved - 1, n) == i;
  }

  class PullerManager {
    const upstreams: seq<string>
    var curLoopIndex: int

    constructor (upstreams: seq<string>)
      ensures this.upstreams == upstreams && curLoopIndex == -1
    {
      this.upstreams := upstreams;
      curLoopIndex := -1;
    }

    /** `connected` says whether the k-th attempt succeeds. The upstreams are tried in cyclic order, each at most once,
        up to the first that succeeds; if none does, all have been tried and the saved index is what it was. */
    method ConnectLoop(connected: nat -> bool) returns (ret: int, tried: seq<int>)
      requires upstreams != [] ==> -1 <= curLoopIndex < |upstreams|
      modifies this
      ensures upstreams == [] ==> ret == SLS_ERROR && tried == [] && curLoopIndex == old(curLoopIndex)
      ensures upstreams != [] ==>
        var saved := if old(curLoopIndex) == -1 then |upstreams| - 1 else old(curLoopIndex);
        && 1 <= |tried| <= |upstreams|
        && (forall k :: 0 <= k < |tried| ==> tried[k] == Visited(saved, k, |upstreams|))
        && tried[0] == (if saved + 1 == |upstreams| then 0 else saved + 1)
        && (forall k :: 0 <= k < |tried| - 1 ==>
              tried[k + 1] == if tried[k] + 1 == |upstreams| then 0 else tried[k] + 1)
        && (forall k :: 0 <= k < |tried| - 1 ==> !connected(k))
        && curLoopIndex == tried[|tried| - 1]
        && (ret == SLS_OK <==> connected(|tried| - 1))
        && (ret != SLS_OK ==> ret == SLS_ERROR && |tried| == |upstreams| && curLoopIndex == saved)
    {
      ret, tried := SLS_ERROR, [];
      if |upstreams| == 0 {
        return;
      }
      if curLoopIndex == -1 {
        curLoopIndex := |upstreams| - 1;
      }
      var index := curLoopIndex;
      index := index + 1;
      while true
        invariant 0 <= curLoopIndex < |upstreams| && |tried| < |upstreams|
        invariant curLoopIndex == if old(curLoopIndex) == -1 then |upstreams| - 1 else old(curLoopIndex)
        invariant index == curLoopIndex + 1 + |tried| || index == curLoopIndex + 1 + |tried| - |upstreams|
        invariant 0 <= index <= |upstreams|
        invariant forall k :: 0 <= k < |tried| ==> tried[k] == Visited(curLoopIndex, k, |upstreams|)
        invariant forall k :: 0 <= k < |tried| ==> !connected(k)
        decreases |upstreams| - |tried|
      {
        if index >= |upstreams| {
          index := 0;
        }
        ret := if connected(|tried|) then SLS_OK else SLS_ERROR;
        tried := tried + [index];
        if ret == SLS_OK {
          break;
        }
        if index == curLoopIndex {
          break;
        }
        index := index + 1;
      }
      curLoopIndex := index;
    }
  }
}
