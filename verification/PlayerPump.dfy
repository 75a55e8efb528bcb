/** The pump of slscore/SLSRole.cpp (`handler_write_data`) that moves a publisher's stream to one player. */
module PlayerPump {
  import opened Bytes
  import opened Common
  import opened RecycleRing
  import opened TsParser
  import opened MapDataModel
  import RecycleRuns

  const DATA_BUFF_SIZE := 100 * 1316

  /** A player against its publisher's channel: where it reads, and what it has fetched but not yet sent. */
  datatype PlayerState = PlayerState(reader: Reader, staged: seq<byte>)

  predicate SanePlayer(p: PlayerState, c: Channel) {
    c.stream.Some? && p.reader.At? ==> p.reader.pos <= p.reader.seen <= |c.stream.value|
  }

  /** The fetch at the head of the pump: only once everything staged has been sent. The first one hands out the
      preamble, if there is a parser for the key, and joins the stream at its end. */
  function Refilled(p: PlayerState, c: Channel): PlayerState
    requires SanePlayer(p, c)
  {
    if p.staged != [] || c.stream.None? then p
    else
      var stream := c.stream.value;
      match p.reader
      case Fresh =>
        PlayerState(At(|stream|, |stream|), if c.info.Some? then c.info.value.tsData else [])
      case At(_, _) =>
        var f := Fetch(|stream|, DEFAULT_MAX_DATA_SIZE, p.reader, DATA_BUFF_SIZE, TS_UDP_LEN);
        RecycleRuns.FetchStays(|stream|, DEFAULT_MAX_DATA_SIZE, p.reader, DATA_BUFF_SIZE, TS_UDP_LEN, false);
        PlayerState(f.reader, if f.len > 0 then stream[f.from..f.from + f.len] else [])
  }

  lemma NothingRefilled(p: PlayerState, c: Channel)
    requires SanePlayer(p, c) && p.staged != []
    ensures Refilled(p, c) == p
  {
  }

  /** A fetch of the pump hands out whole blocks, and fails never. */
  lemma FetchedBlocks(total: nat, r: Reader)
    requires r.At? && r.pos <= r.seen <= total
    ensures var f := Fetch(total, DEFAULT_MAX_DATA_SIZE, r, DATA_BUFF_SIZE, TS_UDP_LEN);
      0 <= f.len <= DATA_BUFF_SIZE && f.len % TS_UDP_LEN == 0
  {
    var f := Fetch(total, DEFAULT_MAX_DATA_SIZE, r, DATA_BUFF_SIZE, TS_UDP_LEN);
    if total > r.pos {
      CopyLenBounds(Ready(total, r.pos, DEFAULT_MAX_DATA_SIZE), DATA_BUFF_SIZE, TS_UDP_LEN);
    }
    if f.len >= 0 {
      ModIsRemainder(f.len, TS_UDP_LEN);
    }
  }

  /** The SRT socket, as the pump sees it: a write of one block is taken whole or refused. */
  class Socket {
    var sent: seq<byte>
    var refusals: nat

    constructor ()
      ensures sent == [] && refusals == 0
    {
      sent, refusals := [], 0;
    }

    method Write(block: seq<byte>) returns (ret: int)
      modifies this
      ensures ret <= |block|
      ensures if ret == |block| then sent == old(sent) + block && refusals == old(refusals)
              else sent == old(sent) && refusals == old(refusals) + 1
    {
      if * {
        sent := sent + block;
        ret := |block|;
      } else {
        refusals := refusals + 1;
        ret := -1;
      }
    }
  }

  class Player {
    const data: array<byte>
    var dataLen: int
    var dataPos: int
    const mapDataId: ReadId
    var mapDataKey: string

    ghost predicate Valid()
      reads this
    {
      && data.Length == DATA_BUFF_SIZE
      && 0 <= dataPos <= dataLen <= DATA_BUFF_SIZE
      && dataLen % TS_UDP_LEN == 0 && dataPos % TS_UDP_LEN == 0
      && (dataLen > 0 ==> dataPos < dataLen)
    }

    ghost function Staged(): seq<byte>
      reads this, data
      requires Valid()
    {
      data[dataPos..dataLen]
    }

    constructor (key: string)
      ensures Valid() && Staged() == [] && mapDataKey == key
      ensures fresh(data) && fresh(mapDataId) && mapDataId.Value() == Cursor(0, 0, true)
    {
      data := new byte[DATA_BUFF_SIZE];
      mapDataId := new ReadId();
      dataLen, dataPos := 0, 0;
      mapDataKey := key;
    }

    /** One call of the pump. `k` blocks went out: all that was staged unless a write was refused. */
    method HandlerWriteData(mapData: MapData, sock: Socket, httpPending: bool, ghost r: Reader)
      returns (ret: int, ghost k: nat)
      requires Valid() && mapData.Valid()
      requires this !in mapData.Repr && data !in mapData.Repr && mapDataId !in mapData.Repr && sock !in mapData.Repr
      requires Follows(mapDataId.Value(), r, DEFAULT_MAX_DATA_SIZE)
      requires SanePlayer(PlayerState(r, Staged()), mapData.View(mapDataKey))
      modifies this, data, mapDataId, sock
      ensures Valid() && mapData.Valid() && mapDataKey == old(mapDataKey)
      ensures forall key :: mapData.View(key) == old(mapData.View(key))
      ensures httpPending || mapDataKey == "" ==>
        && ret == (if httpPending then SLS_OK else SLS_ERROR)
        && sock.sent == old(sock.sent) && Staged() == old(Staged())
        && mapDataId.Value() == old(mapDataId.Value())
      ensures !httpPending && mapDataKey != "" ==>
        var p := old(Refilled(PlayerState(r, Staged()), mapData.View(mapDataKey)));
        && Follows(mapDataId.Value(), p.reader, DEFAULT_MAX_DATA_SIZE)
        && k * TS_UDP_LEN <= |p.staged|
        && sock.sent == old(sock.sent) + p.staged[..k * TS_UDP_LEN]
        && Staged() == p.staged[k * TS_UDP_LEN..]
        && (Staged() != [] ==> sock.refusals == old(sock.refusals) + 1)
        && ret == if Staged() != [] then SLS_OK else k * TS_UDP_LEN
    {
      hide Follows, Refilled, MapData.Valid, MapData.View, SanePlayer;
      ghost var p, c := PlayerState(r, Staged()), mapData.View(mapDataKey);
      k := 0;
      if httpPending {
        return SLS_OK, 0;
      }
      if mapDataKey == "" {
        return SLS_ERROR, 0;
      }
      if dataLen >= TS_UDP_LEN {
        NothingRefilled(p, c);
      }
      if dataLen < TS_UDP_LEN {
        ret := Fetch(mapData, r);
        if ret < 0 {
          return SLS_OK, 0;
        }
      }
      ret, k := SendStaged(sock);
    }

    /** The fetch at the head of the pump. */
    method Fetch(mapData: MapData, ghost r: Reader) returns (ret: int)
      requires Valid() && Staged() == [] && mapData.Valid()
      requires this !in mapData.Repr && data !in mapData.Repr && mapDataId !in mapData.Repr
      requires Follows(mapDataId.Value(), r, DEFAULT_MAX_DATA_SIZE)
      requires SanePlayer(PlayerState(r, []), mapData.View(mapDataKey))
      modifies this`dataPos, this`dataLen, data, mapDataId
      ensures Valid() && mapData.Valid()
      ensures forall key :: mapData.View(key) == old(mapData.View(key))
      ensures
        var p := old(Refilled(PlayerState(r, []), mapData.View(mapDataKey)));
        && Follows(mapDataId.Value(), p.reader, DEFAULT_MAX_DATA_SIZE)
        && Staged() == p.staged && (ret < 0 ==> Staged() == [])
    {
      hide RecycleRing.Fetch, Follows, RingState;
      ghost var c, was := mapData.View(mapDataKey), data[..];
      ret := mapData.Get(mapDataKey, data, DATA_BUFF_SIZE, mapDataId, TS_UDP_LEN, r);
      BlocksFetched(c, r, ret, mapDataId.Value(), data[..], was);
      if ret >= 0 {
        dataPos := 0;
        dataLen := ret;
      }
    }

    /** What one fetch leaves in the staging buffer: whole blocks. */
    lemma BlocksFetched(c: Channel, r: Reader, ret: int, cursor: Cursor, out: seq<byte>, was: seq<byte>)
      requires SanePlayer(PlayerState(r, []), c) && |out| == |was| == DATA_BUFF_SIZE
      requires c.info.Some? ==> WellSized(c.info.value)
      requires c.stream.None? ==> ret == SLS_ERROR
      requires c.stream.Some? && r.At? ==>
        Delivers(c.stream.value, DEFAULT_MAX_DATA_SIZE, r, DATA_BUFF_SIZE, TS_UDP_LEN, ret, cursor, out, was)
      requires c.stream.Some? && r.Fresh? ==>
        var preamble := if c.info.Some? then c.info.value.tsData else [];
        ret == |preamble| && out == preamble + was[|preamble|..]
      ensures c.stream.Some? ==>
        && 0 <= ret <= DATA_BUFF_SIZE && ret % TS_UDP_LEN == 0
        && out[..ret] == Refilled(PlayerState(r, []), c).staged
        && (r.At? ==> Follows(cursor, Refilled(PlayerState(r, []), c).reader, DEFAULT_MAX_DATA_SIZE))
    {
      if c.stream.Some? && r.At? {
        FetchedBlocks(|c.stream.value|, r);
      }
    }

    /** The write loop of the pump and what follows it. */
    method SendStaged(sock: Socket) returns (ret: int, ghost k: nat)
      requires data.Length == DATA_BUFF_SIZE && 0 <= dataPos <= dataLen <= DATA_BUFF_SIZE
      requires dataLen % TS_UDP_LEN == 0 && dataPos % TS_UDP_LEN == 0
      modifies this`dataPos, this`dataLen, sock
      ensures Valid()
      ensures
        var staged := old(data[dataPos..dataLen]);
        && k * TS_UDP_LEN <= |staged|
        && sock.sent == old(sock.sent) + staged[..k * TS_UDP_LEN]
        && Staged() == staged[k * TS_UDP_LEN..]
        && (Staged() != [] ==> sock.refusals == old(sock.refusals) + 1)
        && ret == if Staged() != [] then SLS_OK else k * TS_UDP_LEN
    {
      ghost var staged := data[dataPos..dataLen];
      k := 0;
      var writeSize := 0;
      var remainer := dataLen - dataPos;
      while remainer >= TS_UDP_LEN
        invariant k * TS_UDP_LEN <= |staged|
        invariant dataPos == old(dataPos) + k * TS_UDP_LEN && dataLen == old(dataLen)
        invariant remainer == dataLen - dataPos && writeSize == k * TS_UDP_LEN
        invariant sock.sent == old(sock.sent) + staged[..k * TS_UDP_LEN]
        invariant sock.refusals == old(sock.refusals)
        decreases remainer
      {
        var written := sock.Write(data[dataPos..dataPos + TS_UDP_LEN]);
        if written < TS_UDP_LEN {
          break;
        }
        SliceOfSlice(data[..], old(dataPos), dataLen, k * TS_UDP_LEN, (k + 1) * TS_UDP_LEN);
        dataPos := dataPos + TS_UDP_LEN;
        writeSize := writeSize + TS_UDP_LEN;
        remainer := dataLen - dataPos;
        k := k + 1;
      }
      assert data[dataPos..dataLen] == staged[k * TS_UDP_LEN..];
      if dataPos < dataLen {
        return SLS_OK, k;
      }
      dataPos, dataLen := 0, 0;
      return writeSize, k;
    }
  }
}
