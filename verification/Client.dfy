/** class ClientImpl of src/SSDB_impl.cpp: a request is sent, flushed and answered. */
module Client {
  import opened Text
  import opened Buffers
  import opened Framing
  import opened Kernels
  import opened Links
  import opened Serving
  import opened RedisReplies

  /** How far a request gets: not all of it is sent, or response() is called and does `v`. */
  datatype Progress = Unsent | Asked(v: Service) {
    function Got(): string {
      if Unsent? then "" else v.got
    }
  }

  /** What response() has done, in terms of `all` the bytes that it has looked at. */
  ghost predicate Answers(v: Service, all: string, noblock: bool) {
    if Starred(all) then exists e :: ServesRequests(v, all, e, noblock) else ServesPackets(v, all, noblock)
  }

  class ClientImpl {
    const link: Link
    var resp: seq<string>

    constructor (link: Link)
      ensures this.link == link && resp == []
    {
      this.link, resp := link, [];
    }

    /**
     Everything buffered goes out before the answer is awaited, and resp_ holds the records of the
     first packet among the bytes received: the views still read as those records while they are
     copied. Without an answer resp_ stays as it was. As long as no Redis request comes in, the link
     is fit for the next request.
     */
    method Request(req: seq<string>) returns (ok: bool, ghost p: Progress)
      requires link.Valid() && req != [] && Representable(req) && link.redis == null
      modifies this`resp, link`recvData, link`redis
      modifies link.input, link.input.buf, link.output, link.output.buf, link.kernel
      ensures link.Valid()
      ensures link.input.buf == old(link.input.buf) || fresh(link.input.buf)
      ensures link.output.buf == old(link.output.buf) || fresh(link.output.buf)
      ensures link.redis == null || fresh(link.redis)
      ensures !Starred(old(link.input.Contents()) + p.Got()) ==> link.redis == null
      ensures link.kernel.received == old(link.kernel.received) + p.Got()
      ensures old(link.kernel.sent) <= link.kernel.sent
      ensures link.kernel.sent + link.output.Contents()
           == old(link.kernel.sent) + old(link.output.Contents()) + Encode(req)
      ensures if ok then p.Asked? && p.v.answer.Delivered? && resp == p.v.answer.texts else resp == old(resp)
      ensures p.Unsent? <==> Capacity(old(link.kernel.outgoing)) < old(link.output.size) + |Encode(req)|
      ensures match p
              case Unsent => !ok && link.input.View() == old(link.input.View()) && link.redis == null
              case Asked(v) =>
                && link.output.Contents() == ""
                && Answers(v, old(link.input.Contents()) + v.got, link.noblock)
                && ok == v.answer.Delivered? && (v.answer.Stopped? ==> link.kernel.stopped)
                && link.input.View() == v.session.window
    {
      hide Encode, Answers, SendWindow, AllWithin, Starred, Capacity;
      p := Unsent;
      SendEncodes(link.output.View(), req);
      ghost var before, out := link.kernel.sent, link.output.Contents();
      var r := link.Send(req);
      assert link.output.View().contents == out + Encode(req);
      assert before + (out + Encode(req)) == before + out + Encode(req);
      assert link.kernel.received + "" == link.kernel.received;
      var n := link.Flush();
      if n == -1 {
        return false, p;
      }
      assert link.kernel.sent + "" == link.kernel.sent;
      ghost var v;
      ok, v := Await();
      p := Asked(v);
      assert link.kernel.sent + "" == link.kernel.sent;
    }

    /** resp_ is filled from the views of what response() returns. */
    method Await() returns (ok: bool, ghost v: Service)
      requires link.Valid()
      modifies this`resp, link`recvData, link`redis, link.redis, link.input, link.input.buf, link.kernel
      ensures link.Valid() && link.kernel.sent == old(link.kernel.sent)
      ensures link.input.buf == old(link.input.buf) || fresh(link.input.buf)
      ensures link.redis == old(link.redis) || fresh(link.redis)
      ensures !Starred(old(link.input.Contents()) + v.got) ==> link.redis == old(link.redis)
      ensures link.kernel.received == old(link.kernel.received) + v.got
      ensures Answers(v, old(link.input.Contents()) + v.got, link.noblock)
      ensures ok == v.answer.Delivered? && (v.answer.Stopped? ==> link.kernel.stopped)
      ensures link.input.View() == v.session.window
      ensures resp == if ok then v.answer.texts else old(resp)
    {
      hide AllWithin, Strings, Serve, ServesRequests, ServesPackets, Starred;
      ok, v := link.Response();
      if ok {
        CopyViews();
      }
    }

    /** The views are copied while the memory they point into is still untouched. */
    method CopyViews()
      requires AllWithin(link.recvData, link.input.buf[..])
      modifies this`resp
      ensures resp == Strings(link.recvData, link.input.buf[..])
    {
      var mem := link.input.buf[..];
      ghost var all := Strings(link.recvData, mem);
      resp := [];
      for i := 0 to |link.recvData|
        invariant resp == all[..i]
      {
        assert all[..i + 1] == all[..i] + [link.recvData[i].String(mem)];
        resp := resp + [link.recvData[i].String(mem)];
      }
      assert all[..|all|] == all;
    }

    /** `kss` lists the map in iteration order. */
    method MultiZSet(name: string, kss: seq<(string, int)>) returns (ok: bool, ghost p: Progress)
      requires link.Valid() && link.redis == null && Representable(MultiZSetCommand(name, kss))
      modifies this`resp, link`recvData, link`redis
      modifies link.input, link.input.buf, link.output, link.output.buf, link.kernel
      ensures link.Valid()
      ensures link.input.buf == old(link.input.buf) || fresh(link.input.buf)
      ensures link.output.buf == old(link.output.buf) || fresh(link.output.buf)
      ensures link.redis == null || fresh(link.redis)
      ensures !Starred(old(link.input.Contents()) + p.Got()) ==> link.redis == null
      ensures link.kernel.received == old(link.kernel.received) + p.Got()
      ensures old(link.kernel.sent) <= link.kernel.sent
      ensures link.kernel.sent + link.output.Contents()
           == old(link.kernel.sent) + old(link.output.Contents()) + Encode(MultiZSetCommand(name, kss))
      ensures if ok then p.Asked? && p.v.answer.Delivered? && resp == p.v.answer.texts else resp == old(resp)
      ensures p.Unsent? <==>
                Capacity(old(link.kernel.outgoing)) < old(link.output.size) + |Encode(MultiZSetCommand(name, kss))|
      ensures match p
              case Unsent => !ok && link.input.View() == old(link.input.View()) && link.redis == null
              case Asked(v) =>
                && link.output.Contents() == ""
                && Answers(v, old(link.input.Contents()) + v.got, link.noblock)
                && ok == v.answer.Delivered? && (v.answer.Stopped? ==> link.kernel.stopped)
                && link.input.View() == v.session.window
    {
      hide Encode, Answers, StrInt64, Starred;
      var flat: seq<string> := [];
      for i := 0 to |kss|
        invariant flat + Flatten(kss[i..]) == Flatten(kss)
      {
        assert kss[i..][1..] == kss[i + 1..];
        flat := flat + [kss[i].0];
        flat := flat + [StrInt64(kss[i].1)];
      }
      assert kss[|kss|..] == [] && flat + [] == flat;
      ok, p := Request(["multi_zset", name] + flat);
    }
  }

  // ------------------------------------------------------------ a map on the wire

  function Flatten(kss: seq<(string, int)>): seq<string> {
    if kss == [] then [] else [kss[0].0, StrInt64(kss[0].1)] + Flatten(kss[1..])
  }

  function MultiZSetCommand(name: string, kss: seq<(string, int)>): seq<string> {
    ["multi_zset", name] + Flatten(kss)
  }

  /** What a receiver rebuilds from a flat list of keys and numbers. */
  function Rebuild(flat: seq<string>): map<string, int> {
    if |flat| < 2 then map[] else Rebuild(flat[2..])[flat[0] := StrToInt64(flat[1])]
  }

  /** `kss` lists the map `m`, each key once, in any order. */
  predicate Lists(kss: seq<(string, int)>, m: map<string, int>) {
    && (forall i :: 0 <= i < |kss| ==> kss[i].0 in m && m[kss[i].0] == kss[i].1)
    && (forall i, j :: 0 <= i < j < |kss| ==> kss[i].0 != kss[j].0)
    && (forall k :: k in m ==> exists i :: 0 <= i < |kss| && kss[i].0 == k)
  }

  predicate Int64s(kss: seq<(string, int)>) {
    forall i :: 0 <= i < |kss| ==> -INT64_LIMIT <= kss[i].1 < INT64_LIMIT
  }

  lemma {:induction false} RebuildFlattened(kss: seq<(string, int)>, m: map<string, int>)
    requires Lists(kss, m) && Int64s(kss)
    ensures Rebuild(Flatten(kss)) == m
    decreases |kss|
  {
    hide StrInt64, StrToInt64, Rebuild;
    if kss == [] {
      assert m == map[];
      RebuildNothing();
    } else {
      var k, v := kss[0].0, kss[0].1;
      var rest := map x | x in m && x != k :: m[x];
      TailLists(kss, m);
      RebuildFlattened(kss[1..], rest);
      Int64RoundTrip(v, Clear);
      RebuildCons(k, StrInt64(v), Flatten(kss[1..]));
      PutBack(m, k);
    }
  }

  lemma RebuildNothing()
    ensures Rebuild([]) == map[]
  {
  }

  lemma RebuildCons(k: string, v: string, flat: seq<string>)
    ensures Rebuild([k, v] + flat) == Rebuild(flat)[k := StrToInt64(v)]
  {
    assert ([k, v] + flat)[2..] == flat;
  }

  lemma PutBack(m: map<string, int>, k: string)
    requires k in m
    ensures (map x | x in m && x != k :: m[x])[k := m[k]] == m
  {
  }

  lemma TailLists(kss: seq<(string, int)>, m: map<string, int>)
    requires kss != [] && Lists(kss, m)
    ensures Lists(kss[1..], map x | x in m && x != kss[0].0 :: m[x])
  {
    var rest := map x | x in m && x != kss[0].0 :: m[x];
    var t := kss[1..];
    assert forall i :: 0 <= i < |t| ==> t[i] == kss[i + 1];
    forall k | k in rest
      ensures exists i :: 0 <= i < |t| && t[i].0 == k
    {
      var i :| 0 <= i < |kss| && kss[i].0 == k;
      assert t[i - 1].0 == k;
    }
  }

  /**
   A map of int64 values, flattened into a command, framed by send and parsed by recv, is rebuilt
   exactly, whatever follows on the stream - as long as the command fits the packet limit.
   */
  lemma MapSurvivesTheWire(name: string, kss: seq<(string, int)>, m: map<string, int>, rest: string)
    requires Lists(kss, m) && Int64s(kss) && Sendable(MultiZSetCommand(name, kss))
    ensures var o := Parse(Encode(MultiZSetCommand(name, kss)) + rest);
            && o.Packet? && o.records == ["multi_zset", name] + Flatten(kss)
            && Rebuild(o.records[2..]) == m
  {
    hide Parse, Encode, Flatten, Rebuild, Lists, Int64s;
    var p := MultiZSetCommand(name, kss);
    RoundTrip(p, rest);
    RebuildFlattened(kss, m);
    assert p[2..] == Flatten(kss);
  }
}
