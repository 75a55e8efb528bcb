/** The per-key rings and parsers of slscore/SLSMapData.cpp. Every method is one critical section of `m_rwclock`. */
module MapDataModel {
  import opened Bytes
  import opened Common
  import opened RecycleRing
  import opened TsParser
  import opened TsInfoModel

  /** What one key stands for: the stream of its ring, if it has one, and its parser, if any packet came. */
  datatype Channel = Channel(stream: Option<seq<byte>>, info: Option<TsState>)

  /** The channel after a datagram: `len` bytes of `data`; `blank` is a fresh parser. */
  function Published(c: Channel, data: seq<byte>, len: int, blank: TsState): Channel
    requires c.stream.Some? && len <= |data| && |data| % TS_PACK_LEN == 0
    requires WellSized(blank) && (c.info.Some? ==> WellSized(c.info.value))
  {
    Channel(
      Some(c.stream.value + if 0 < len <= DEFAULT_MAX_DATA_SIZE then data[..len] else []),
      Some(CheckInfo(if c.info.Some? then c.info.value else blank, data, len, 0)))
  }

  class MapData {
    var mapArray: map<string, RecycleArray>
    var mapTsInfo: map<string, TsInfo>
    ghost var Repr: set<object>

    ghost predicate Valid()
      reads this, Repr
    {
      && this in Repr
      && (forall k :: k in mapArray ==>
            mapArray[k] in Repr && mapArray[k].arrayData in Repr
            && mapArray[k].Valid() && mapArray[k].dataSize == DEFAULT_MAX_DATA_SIZE)
      && (forall k :: k in mapTsInfo ==>
            mapTsInfo[k] in Repr && mapTsInfo[k].tsData in Repr && mapTsInfo[k].Valid())
      && (forall j, k :: j in mapArray && k in mapArray && j != k ==>
            mapArray[j] != mapArray[k] && mapArray[j].arrayData != mapArray[k].arrayData)
      && (forall j, k :: j in mapTsInfo && k in mapTsInfo && j != k ==>
            mapTsInfo[j] != mapTsInfo[k] && mapTsInfo[j].tsData != mapTsInfo[k].tsData)
      && (forall j, k :: j in mapArray && k in mapTsInfo ==> mapArray[j].arrayData != mapTsInfo[k].tsData)
    }

    ghost function View(key: string): Channel
      reads this, Repr
      requires Valid()
    {
      Channel(if key in mapArray then Some(mapArray[key].published) else None,
              if key in mapTsInfo then Some(mapTsInfo[key].Value()) else None)
    }

    constructor ()
      ensures Valid() && fresh(Repr)
      ensures forall key :: View(key) == Channel(None, None)
    {
      mapArray, mapTsInfo := map[], map[];
      Repr := {this};
    }

    method Add(key: string) returns (ret: int)
      requires Valid()
      modifies Repr
      ensures Valid() && fresh(Repr - old(Repr)) && ret == SLS_OK
      ensures View(key) == old(View(key)).(stream := if key in old(mapArray) then old(View(key)).stream else Some([]))
      ensures forall k :: k != key ==> View(k) == old(View(k))
    {
      hide RecycleArray.Valid, TsInfo.Valid, TsInfo.Value;
      if key in mapArray {
        return SLS_OK;
      }
      var dataArray := new RecycleArray();
      mapArray := mapArray[key := dataArray];
      Repr := Repr + {dataArray, dataArray.arrayData};
      return SLS_OK;
    }

    method Remove(key: string) returns (ret: int)
      requires Valid()
      modifies Repr
      ensures Valid() && Repr == old(Repr)
      ensures ret == if key in old(mapArray) then SLS_OK else SLS_ERROR
      ensures View(key) == Channel(None, None)
      ensures forall k :: k != key ==> View(k) == old(View(k))
    {
      ret := SLS_ERROR;
      mapTsInfo := mapTsInfo - {key};
      if key in mapArray {
        mapArray := mapArray - {key};
        return SLS_OK;
      }
    }

    method IsExist(key: string) returns (r: bool)
      requires Valid()
      ensures r == View(key).stream.Some?
    {
      return key in mapArray;
    }

    /** `blankPat` and `blankPmt` stand for the uninitialised buffers of a new `ts_info`. */
    method Put(key: string, data: array<byte>, len: int, blankPat: seq<byte>, blankPmt: seq<byte>) returns (ret: int)
      requires Valid() && data !in Repr && len <= data.Length && data.Length % TS_PACK_LEN == 0
      requires |blankPat| == |blankPmt| == TS_PACK_LEN
      modifies Repr
      ensures Valid() && fresh(Repr - old(Repr)) && data[..] == old(data[..])
      ensures key !in old(mapArray) ==> ret == SLS_ERROR && View(key) == old(View(key))
      ensures key in old(mapArray) ==>
        && ret == (if 0 < len <= DEFAULT_MAX_DATA_SIZE then len else SLS_ERROR)
        && View(key) == Published(old(View(key)), data[..], len, Init(blankPat, blankPmt, true))
      ensures forall k :: k != key ==> View(k) == old(View(k))
    {
      hide CheckInfo, Init;
      if key !in mapArray {
        return SLS_ERROR;
      }
      ret := PutArray(key, data, len);
      FindInfo(key, blankPat, blankPmt);
      CheckInfoOf(key, data[..], len);
    }

    method PutArray(key: string, data: array<byte>, len: int) returns (ret: int)
      requires Valid() && key in mapArray && data !in Repr && len <= data.Length
      modifies Repr
      ensures Valid() && Repr == old(Repr) && mapArray == old(mapArray)
      ensures ret == if 0 < len <= DEFAULT_MAX_DATA_SIZE then len else SLS_ERROR
      ensures View(key) == old(View(key)).(stream :=
        Some(old(View(key)).stream.value + if 0 < len <= DEFAULT_MAX_DATA_SIZE then data[..len] else []))
      ensures forall k :: k != key ==> View(k) == old(View(k))
    {
      hide RingState;
      ret := mapArray[key].Put(data, len);
    }

    /** The `ts_info` of the key, made now if this is its first datagram. */
    method FindInfo(key: string, blankPat: seq<byte>, blankPmt: seq<byte>)
      requires Valid() && |blankPat| == |blankPmt| == TS_PACK_LEN
      modifies this
      ensures Valid() && fresh(Repr - old(Repr)) && mapArray == old(mapArray) && key in mapTsInfo
      ensures View(key) == old(View(key)).(info :=
        if key in old(mapTsInfo) then old(View(key)).info else Some(Init(blankPat, blankPmt, true)))
      ensures forall k :: k != key ==> View(k) == old(View(k))
    {
      hide RingState, Init, RecycleArray.Valid, TsInfo.Valid;
      if key !in mapTsInfo {
        var ti := NewInfo(blankPat, blankPmt);
        mapTsInfo := mapTsInfo[key := ti];
        Repr := Repr + {ti, ti.tsData};
      }
    }

    static method NewInfo(blankPat: seq<byte>, blankPmt: seq<byte>) returns (ti: TsInfo)
      requires |blankPat| == |blankPmt| == TS_PACK_LEN
      ensures fresh(ti) && fresh(ti.tsData) && ti.Valid() && ti.Value() == Init(blankPat, blankPmt, true)
    {
      hide NullPackets;
      ti := new TsInfo(blankPat, blankPmt);
      ti.needSpsPps := true;
    }

    method CheckInfoOf(key: string, data: seq<byte>, len: int)
      requires Valid() && key in mapTsInfo && len <= |data| && |data| % TS_PACK_LEN == 0
      modifies Repr
      ensures Valid() && Repr == old(Repr) && mapArray == old(mapArray)
      ensures View(key) == old(View(key)).(info := Some(CheckInfo(old(View(key)).info.value, data, len, 0)))
      ensures forall k :: k != key ==> View(k) == old(View(k))
    {
      hide RingState, CheckInfo;
      var _ := mapTsInfo[key].CheckTsInfo(data, len);
    }

    method Get(key: string, dst: array<byte>, len: int, readId: ReadId, aligned: int, ghost r: Reader)
      returns (ret: int)
      requires Valid() && dst !in Repr && readId !in Repr && len <= dst.Length
      requires Follows(readId.Value(), r, DEFAULT_MAX_DATA_SIZE)
      requires r.At? && key in mapArray ==> r.seen <= |mapArray[key].published|
      modifies readId, dst
      ensures Valid() && forall k :: View(k) == old(View(k))
      ensures key !in mapArray ==> ret == SLS_ERROR && readId.Value() == old(readId.Value()) && dst[..] == old(dst[..])
      ensures key in mapArray && r.At? ==>
        Delivers(View(key).stream.value, DEFAULT_MAX_DATA_SIZE, r, len, aligned, ret, readId.Value(),
                 dst[..], old(dst[..]))
      ensures key in mapArray && r.Fresh? ==>
        var preamble := if View(key).info.Some? && len >= TS_UDP_LEN then View(key).info.value.tsData else [];
        && ret == |preamble|
        && dst[..] == preamble + old(dst[|preamble|..])
        && Follows(readId.Value(), At(|View(key).stream.value|, |View(key).stream.value|), DEFAULT_MAX_DATA_SIZE)
    {
      hide RingState, Fetch;
      if key !in mapArray {
        return SLS_ERROR;
      }
      var first := readId.bFirst;
      ret := mapArray[key].Get(dst, len, readId, aligned, r);
      if first {
        FirstGet(mapArray[key].published, len, aligned, ret, readId.Value(), dst[..], old(dst[..]));
        ret := GetTsInfo(key, dst, len);
      }
    }

    lemma FirstGet(stream: seq<byte>, len: int, aligned: int, ret: int, c: Cursor, out: seq<byte>, was: seq<byte>)
      requires Delivers(stream, DEFAULT_MAX_DATA_SIZE, Fresh, len, aligned, ret, c, out, was)
      ensures out == was && Follows(c, At(|stream|, |stream|), DEFAULT_MAX_DATA_SIZE)
    {
      assert out == stream[|stream|..|stream|] + was[0..];
    }

    method GetTsInfo(key: string, dst: array<byte>, len: int) returns (ret: int)
      requires Valid() && dst !in Repr && len <= dst.Length
      modifies dst
      ensures Valid() && forall k :: View(k) == old(View(k))
      ensures
        var preamble := if View(key).info.Some? && len >= TS_UDP_LEN then View(key).info.value.tsData else [];
        ret == |preamble| && dst[..] == preamble + old(dst[|preamble|..])
    {
      hide RingState;
      ret := 0;
      if key in mapTsInfo {
        var ti := mapTsInfo[key];
        if len >= TS_UDP_LEN {
          CopyBytes(dst, 0, ti.tsData, 0, TS_UDP_LEN);
          ret := TS_UDP_LEN;
          assert dst[..TS_UDP_LEN] == ti.tsData[..];
          assert dst[..] == dst[..TS_UDP_LEN] + dst[TS_UDP_LEN..];
        }
      }
    }
  }
}
