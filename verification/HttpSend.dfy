/** The output side of slscore/HttpClient.cpp: requests are queued in a byte queue and written to a TCP socket that
    may take any part of what it is offered. */
module HttpSend {
  import opened Bytes
  import opened ByteQueueModel

  const HTTP_DATA_SIZE := 4096

  /** The socket. `send` takes a prefix of the chunk, or nothing; `overran` notes a result larger than the chunk. */
  class TcpSocket {
    ghost var sent: seq<byte>
    ghost var overran: bool

    constructor ()
      ensures sent == [] && !overran
    {
      sent, overran := [], false;
    }

    method Write(chunk: seq<byte>, outcome: int) returns (n: int)
      modifies this
      ensures n == outcome
      ensures sent == old(sent) + chunk[..Min(Max(0, n), |chunk|)]
      ensures overran == (old(overran) || n > |chunk|)
    {
      sent := sent + chunk[..Min(Max(0, outcome), |chunk|)];
      overran := overran || outcome > |chunk|;
      return outcome;
    }
  }

  class HttpClient {
    const outArray: ByteQueue
    const outData: array<byte>
    var outPos: int
    var outDataLen: int

    ghost predicate Valid()
      reads this, outArray, outArray.arrayData
    {
      && outData.Length == HTTP_DATA_SIZE && outData != outArray.arrayData
      && 0 <= outPos && 0 <= outDataLen && outPos + outDataLen <= HTTP_DATA_SIZE
      && outArray.Valid()
    }

    ghost function Staged(): seq<byte>
      reads this, outData, outArray, outArray.arrayData
      requires Valid()
    {
      outData[outPos..outPos + outDataLen]
    }

    /** What the client still has to send: the staged remainder, then the queue. */
    ghost function Pending(): seq<byte>
      reads this, outData, outArray, outArray.arrayData
      requires Valid()
    {
      Staged() + outArray.Contents()
    }

    constructor ()
      ensures Valid() && Pending() == []
      ensures fresh(outArray) && fresh(outArray.arrayData) && fresh(outData)
    {
      outArray := new ByteQueue();
      outData := new byte[HTTP_DATA_SIZE];
      outPos, outDataLen := 0, 0;
    }

    /** The start of a request (`open`, `close`) empties the queue but not the staging buffer: a new request begins
        clean exactly when the previous one had nothing staged. */
    method ClearQueue()
      requires Valid()
      modifies outArray
      ensures Valid() && outArray.arrayData == old(outArray.arrayData) && outArray.dataSize == old(outArray.dataSize)
      ensures outArray.Contents() == [] && Staged() == old(Staged())
      ensures Pending() == old(Staged())
      ensures Pending() == [] <==> old(outDataLen) == 0
    {
      outArray.Clear();
    }

    /** `write_http_header` and `write_string`. A request that does not fit the queue makes it grow: its bytes are there
        in order, but what can be sent is still a queue only in the one case that `ByteQueue.Put` states. */
    method Enqueue(data: array<byte>, len: int) returns (ret: int)
      requires Valid() && 0 <= len <= data.Length && data != outArray.arrayData
      modifies outArray, outArray.arrayData
      ensures ret == if len > 0 then len else SLS_ERROR
      ensures len <= old(outArray.dataSize - outArray.dataCount) ==>
        && outArray.arrayData == old(outArray.arrayData)
        && outArray.dataSize == old(outArray.dataSize)
        && Valid() && Pending() == old(Pending()) + old(data[..len])
        && outArray.Contents() == old(outArray.Contents()) + old(data[..len])
      ensures len > old(outArray.dataSize - outArray.dataCount) && len > 0 ==>
        && fresh(outArray.arrayData) && outArray.InRange()
        && 0 <= outArray.dataCount <= outArray.dataSize
        && outArray.arrayData[..outArray.dataCount] == old(outArray.Contents()) + old(data[..len])
        && (Valid() <==> old(outArray.dataCount == outArray.dataSize) && len >= GROWTH)
        && (Valid() ==> Pending() == old(Pending()) + old(data[..len]))
    {
      ret := outArray.Put(data, len);
    }

    /** No byte is lost, repeated or reordered, however the socket splits the writes. `outcomes` are the results of
        the successive socket writes; a call ends when everything is sent or a write falls short. */
    method Send(sock: TcpSocket, outcomes: nat -> int) returns (ret: int, ghost short: bool)
      requires Valid()
      modifies this, sock, outData, outArray
      ensures Valid() && outArray.arrayData == old(outArray.arrayData)
      ensures old(sock.sent) <= sock.sent
      ensures sock.sent + Pending() == old(sock.sent) + old(Pending())
      ensures Pending() != [] ==> short || sock.overran
      ensures !sock.overran ==> ret == |sock.sent| - old(|sock.sent|)
      ensures old(outDataLen == 0 && |outArray.Contents()| <= HTTP_DATA_SIZE) ==> Pending() == Staged()
    {
      ret := SLS_OK;
      short := false;
      var i := 0;
      while true
        invariant Valid() && outArray.arrayData == old(outArray.arrayData) && 0 <= i
        invariant old(sock.sent) <= sock.sent
        invariant sock.sent + Pending() == old(sock.sent) + old(Pending())
        invariant !sock.overran ==> ret == |sock.sent| - old(|sock.sent|)
        invariant old(outDataLen == 0 && |outArray.Contents()| <= HTTP_DATA_SIZE) ==>
            outArray.Contents() == [] || (outDataLen == 0 && |outArray.Contents()| <= HTTP_DATA_SIZE)
        modifies this, sock, outData, outArray
        decreases |Pending()|
      {
        if outDataLen <= 0 {
          var empty := Refill();
          if empty {
            break;
          }
        }
        var n, more := Offer(sock, outcomes(i));
        i := i + 1;
        if n > 0 {
          ret := ret + n;
        }
        if !more {
          short := true;
          break;
        }
      }
    }

    /** Stages up to 4096 queued bytes; `empty` if there are none. */
    method Refill() returns (empty: bool)
      requires Valid() && outDataLen == 0
      modifies this`outPos, this`outDataLen, outData, outArray
      ensures Valid() && outArray.arrayData == old(outArray.arrayData)
      ensures Pending() == old(Pending())
      ensures if empty then Pending() == [] else outDataLen > 0
      ensures old(|outArray.Contents()|) <= HTTP_DATA_SIZE ==> outArray.Contents() == []
    {
      var count := outArray.Count();
      if count == 0 {
        return true;
      }
      ghost var queued := outArray.Contents();
      outPos := 0;
      outDataLen := outArray.GetInline(outData, HTTP_DATA_SIZE);
      assert outData[..outDataLen] == queued[..outDataLen];
      return outDataLen <= 0;
    }

    /** One socket write and what `send` makes of its result; `more` if the loop goes on. */
    method Offer(sock: TcpSocket, outcome: int) returns (n: int, more: bool)
      requires Valid() && outDataLen > 0
      modifies this`outPos, this`outDataLen, sock
      ensures Valid() && n == outcome
      ensures sock.sent + Pending() == old(sock.sent) + old(Pending())
      ensures sock.sent == old(sock.sent) + old(Pending())[..Min(Max(0, n), old(outDataLen))]
      ensures sock.overran == (old(sock.overran) || n > old(outDataLen))
      ensures more ==> |Pending()| < old(|Pending()|)
      ensures more <==> n == old(outDataLen)
    {
      var staged := outData[outPos..outPos + outDataLen];
      ghost var sent0, queued := sock.sent, outArray.Contents();
      n := sock.Write(staged, outcome);
      Resplit(sent0, staged, Min(Max(0, n), |staged|), queued);
      if n <= 0 {
        return n, false;
      }
      if n < outDataLen {
        outPos := outPos + n;
        outDataLen := outDataLen - n;
        assert outData[outPos..outPos + outDataLen] == staged[n..];
        return n, false;
      }
      more := n == outDataLen;
      outPos := 0;
      outDataLen := 0;
      assert outData[outPos..outPos + outDataLen] == staged[|staged|..];
    }

    lemma Resplit(sent: seq<byte>, staged: seq<byte>, n: nat, queued: seq<byte>)
      requires n <= |staged|
      ensures (sent + staged[..n]) + (staged[n..] + queued) == sent + (staged + queued)
      ensures staged[..n] == (staged + queued)[..n]
    {
    }

    /** `open`, once the connection is there: the queue is emptied, the request is queued and sent as far as the socket
        takes it. Exactly if the last request has left something staged, other bytes go out before it. */
    method Open(request: array<byte>, len: int, sock: TcpSocket, outcomes: nat -> int) returns (ret: int)
      requires Valid() && 0 < len <= request.Length && len <= outArray.dataSize
      requires request != outArray.arrayData && request != outData
      modifies this, sock, outData, outArray, outArray.arrayData
      ensures Valid() && outArray.arrayData == old(outArray.arrayData) && request[..] == old(request[..])
      ensures sock.sent + Pending() == old(sock.sent) + (old(Staged()) + request[..len])
      ensures sock.sent + Pending() == old(sock.sent) + request[..len] <==> old(outDataLen) == 0
      ensures old(outDataLen) == 0 && len <= HTTP_DATA_SIZE ==> Pending() == Staged()
    {
      ghost var sent, staged := sock.sent, Staged();
      assert staged == [] <==> outDataLen == 0;
      ClearQueue();
      hide Pending, Staged, ByteQueue.Contents;
      var _ := Enqueue(request, len);
      ghost var short;
      ret, short := Send(sock, outcomes);
      NothingInFront(sent, staged, request[..len]);
    }

    lemma NothingInFront(sent: seq<byte>, staged: seq<byte>, request: seq<byte>)
      ensures sent + (staged + request) == sent + request <==> staged == []
    {
      assert |sent + (staged + request)| == |sent + request| <==> |staged| == 0;
      if staged == [] {
        assert staged + request == request;
      }
    }

    /** Two requests, each on a connection of its own, by a client with nothing staged: what the first connection did
        not take goes out on the second, in front of the second request. */
    method Reopen(first: array<byte>, firstSock: TcpSocket, firstOutcomes: nat -> int,
                  second: array<byte>, secondSock: TcpSocket, secondOutcomes: nat -> int)
      returns (ghost rest: seq<byte>)
      requires Valid() && outDataLen == 0 && firstSock != secondSock
      requires 0 < first.Length <= HTTP_DATA_SIZE && first.Length <= outArray.dataSize
      requires 0 < second.Length <= outArray.dataSize
      requires outArray.arrayData != first && outArray.arrayData != second && outData != first && outData != second
      modifies this, firstSock, secondSock, outData, outArray, outArray.arrayData
      ensures Valid()
      ensures firstSock.sent + rest == old(firstSock.sent) + old(first[..])
      ensures secondSock.sent + Pending() == old(secondSock.sent) + (rest + old(second[..]))
    {
      var _ := Open(first, first.Length, firstSock, firstOutcomes);
      rest := Staged();
      var _ := Open(second, second.Length, secondSock, secondOutcomes);
    }
  }
}
