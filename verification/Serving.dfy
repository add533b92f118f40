/**
 Link::recv and Link::response as functions of the input buffer and of what the system will do:
 both message formats, with errno, buffer space and the end of the stream.
 */
module Serving {
  import opened Text
  import opened Buffers
  import opened Framing
  import opened Kernels
  import opened RedisRequests
  import opened RedisCommands

  /** Who parsed a message; the Redis link keeps the description of the command for its reply. */
  datatype Origin = Native | Redis(desc: Option<RequestDesc>)

  /** recv's result: NULL or not, and the texts of the list, which is empty while not ready. */
  datatype Reception = Reception(ok: bool, texts: seq<string>, origin: Origin, window: Window, errno: Errno)

  function ReceiveNative(w: Window, errno: Errno): Reception
    requires w.Valid()
  {
    ParseBounds(w.contents);
    match Parse(w.contents)
    case Error => Reception(false, [], Native, w, errno)
    case NotReady => Reception(true, [], Native, w.Reclaim(), errno)
    case Packet(records, n) => Reception(true, records, Native, w.Decr(n), errno)
  }

  function ReceiveRedis(w: Window, errno: Errno): Reception
    requires w.Valid() && w.contents != ""
  {
    ScanRequestBounds(w.contents, errno);
    match ScanRequest(w.contents, errno)
    case Scan(Bad, e) => Reception(false, [], Native, w, e)
    case Scan(Wait, e) => Reception(true, [], Native, w.Reclaim(), e)
    case Scan(Args(args, n), e) =>
      var cmd := Lower(args[0]);
      var c := Convert(Lookup(cmd), cmd, args, e);
      Reception(true, c.command, Redis(Lookup(cmd)), w.Decr(n), c.errno)
  }

  function Receive(w: Window, errno: Errno): (r: Reception)
    requires w.Valid()
  {
    if w.contents == "" then Reception(true, [], Native, w, errno)
    else if Starred(w.contents) then ReceiveRedis(w, errno)
    else ReceiveNative(w, errno)
  }

  /** What a call of recv leaves: less input after a message, the same input otherwise. */
  lemma ReceiveBounds(w: Window, errno: Errno)
    requires w.Valid()
    ensures var r := Receive(w, errno);
            && r.window.Valid() && r.window.total >= w.total
            && (r.ok && r.texts != [] ==> |r.window.contents| < |w.contents|)
            && (!r.ok || r.texts == [] ==> r.window.contents == w.contents)
            && (r.ok && r.texts == [] && w.total >= ZERO_BUFFER_SIZE ==> ReadableWindow(r.window).Space() > 0)
  {
    hide Parse, ScanRequest, Convert, Lookup, Lower,
      Window.Reclaim, ReadableWindow, RecvWindow;
    if w.total >= ZERO_BUFFER_SIZE {
      NoStall(w);
    }
    ParseBounds(w.contents);
    if w.contents != "" {
      ScanRequestBounds(w.contents, errno);
    }
  }

  // ------------------------------------------------------------ response

  datatype Session = Session(window: Window, script: seq<ReadEvent>, errno: Errno) {
    predicate Valid() {
      window.Valid() && window.total >= ZERO_BUFFER_SIZE
    }
  }

  /** A message, malformed input, or a read that returned no count after delivering `last`. */
  datatype Answer = Delivered(texts: seq<string>, origin: Origin) | Refused | Stopped(last: string)

  datatype Service = Service(answer: Answer, session: Session, got: string) {
    function After(first: string): Service {
      this.(got := first + got)
    }
  }

  /** The read that follows when recv has left the window `w`. */
  function ReadInto(w: Window, script: seq<ReadEvent>, noblock: bool, errno: Errno): Run
    requires w.Valid() && ReadableWindow(w).Space() >= 0
  {
    ReadMany(script, ReadableWindow(w).Space(), noblock, errno, 0)
  }

  /** The session after that read. */
  function Fed(w: Window, run: Run): Session
    requires w.Valid() && |run.bytes| <= ReadableWindow(w).Space()
  {
    Session(ReadableWindow(w).Incr(run.bytes), run.script, run.errno)
  }

  /** response() on a link whose input and system are in the state `s`. */
  function Serve(s: Session, noblock: bool): Service
    requires s.Valid()
    decreases Weight(s.script)
  {
    var r := Receive(s.window, s.errno);
    ReceiveBounds(s.window, s.errno);
    if !r.ok then Service(Refused, Session(r.window, s.script, r.errno), "")
    else if r.texts != [] then Service(Delivered(r.texts, r.origin), Session(r.window, s.script, r.errno), "")
    else
      var run := ReadInto(r.window, s.script, noblock, r.errno);
      ReadManyBounds(s.script, ReadableWindow(r.window).Space(), noblock, r.errno, 0);
      var fed := Fed(r.window, run);
      if run.ret <= 0 then Service(Stopped(run.bytes), fed, run.bytes)
      else Serve(fed, noblock).After(run.bytes)
  }

  lemma {:induction false} ServeBounds(s: Session, noblock: bool)
    requires s.Valid()
    ensures var v := Serve(s, noblock);
            && v.session.Valid()
            && |v.session.window.contents| + Weight(v.session.script)
               <= |s.window.contents| + Weight(s.script)
            && (v.answer.Delivered? ==>
                  |v.session.window.contents| + Weight(v.session.script)
                  < |s.window.contents| + Weight(s.script))
    decreases Weight(s.script)
  {
    hide Receive, ReadMany, Weight;
    var r := Receive(s.window, s.errno);
    ReceiveBounds(s.window, s.errno);
    if r.ok && r.texts == [] {
      var run := ReadInto(r.window, s.script, noblock, r.errno);
      ReadManyBounds(s.script, ReadableWindow(r.window).Space(), noblock, r.errno, 0);
      if run.ret > 0 {
        ServeBounds(Fed(r.window, run), noblock);
      }
    }
  }

  /**
   What response() makes of `all`, everything it looked at, when that is not a Redis request: it
   delivers the first packet and keeps the rest, or it refuses malformed bytes, or - having found no
   packet in all that came before the last read - it stops with that read.
   */
  predicate ServesPackets(v: Service, all: string, noblock: bool) {
    match v.answer
    case Delivered(texts, origin) => origin == Native && Delivers(all, texts, v.session.window.contents)
    case Refused => Parse(all) == Error && v.session.window.contents == all
    case Stopped(last) =>
      && v.session.window.contents == all
      && EndsWith(v.got, last) && EndsWith(all, last)
      && Parse(all[..|all| - |last|]) == NotReady
      && (last != "" ==> noblock)
  }

  predicate EndsWith(s: string, t: string) {
    |t| <= |s| && s[|s| - |t|..] == t
  }

  lemma {:induction false} ServeNative(s: Session, noblock: bool)
    requires s.Valid()
    ensures var all := s.window.contents + Serve(s, noblock).got;
            !Starred(all) ==> ServesPackets(Serve(s, noblock), all, noblock)
    decreases Weight(s.script)
  {
    hide Receive, ServesPackets, ReadMany, Weight, ReadableWindow, Starred;
    var w := s.window;
    var r := Receive(w, s.errno);
    ReceiveBounds(w, s.errno);
    PacketReceived(w, s.errno);
    StaysStarred(w.contents, Serve(s, noblock).got);
    if !r.ok || r.texts != [] {
      PacketAnswered(s, noblock);
    } else {
      var run := ReadInto(r.window, s.script, noblock, r.errno);
      ReadManyBounds(s.script, ReadableWindow(r.window).Space(), noblock, r.errno, 0);
      if run.ret <= 0 {
        PacketAwaited(s, noblock);
      } else {
        var v := Serve(Fed(r.window, run), noblock);
        ServeNative(Fed(r.window, run), noblock);
        Assoc(w.contents, run.bytes, v.got);
        MoreGot(v, run.bytes);
      }
    }
  }

  lemma PacketAnswered(s: Session, noblock: bool)
    requires s.Valid() && (!Receive(s.window, s.errno).ok || Receive(s.window, s.errno).texts != [])
    ensures var all := s.window.contents + Serve(s, noblock).got;
            !Starred(all) ==> ServesPackets(Serve(s, noblock), all, noblock)
  {
    hide Receive, Delivers, Parse, Starred;
    ReceiveBounds(s.window, s.errno);
    PacketReceived(s.window, s.errno);
    assert s.window.contents + "" == s.window.contents;
  }

  lemma PacketAwaited(s: Session, noblock: bool)
    requires s.Valid()
    requires var r := Receive(s.window, s.errno);
             && r.ok && r.texts == [] && r.window.Valid() && ReadableWindow(r.window).Space() >= 0
             && ReadInto(r.window, s.script, noblock, r.errno).ret <= 0
    ensures var all := s.window.contents + Serve(s, noblock).got;
            !Starred(all) ==> ServesPackets(Serve(s, noblock), all, noblock)
  {
    hide Receive, Parse, ReadMany, Weight, ReadableWindow, Starred;
    var w := s.window;
    var r := Receive(w, s.errno);
    ReceiveBounds(w, s.errno);
    PacketReceived(w, s.errno);
    StaysStarred(w.contents, Serve(s, noblock).got);
    var run := ReadInto(r.window, s.script, noblock, r.errno);
    ReadManyBounds(s.script, ReadableWindow(r.window).Space(), noblock, r.errno, 0);
    assert (w.contents + run.bytes)[..|w.contents|] == w.contents;
  }

  /** What a read brings before the rest of a call changes only what the call has got. */
  lemma MoreGot(v: Service, first: string)
    ensures forall all: string, noblock: bool :: ServesPackets(v, all, noblock) ==> ServesPackets(v.After(first), all, noblock)
    ensures forall all: string, e: Errno, noblock: bool :: all != "" && ServesRequests(v, all, e, noblock) ==>
              ServesRequests(v.After(first), all, e, noblock)
  {
    hide Parse, ScanRequest, DeliversCommand, Delivers;
  }

  lemma PacketReceived(w: Window, errno: Errno)
    requires w.Valid()
    ensures var r := Receive(w, errno);
            if w.contents == "" then r.ok && r.texts == [] && Parse(w.contents) == NotReady
            else if Starred(w.contents) then true
            else if !r.ok then Parse(w.contents) == Error
            else if r.texts == [] then Parse(w.contents) == NotReady
            else r.origin == Native && Delivers(w.contents, r.texts, r.window.contents)
  {
    hide Parse, Window.Reclaim;
    ParseNothing();
    ParseBounds(w.contents);
  }

  /** The request that starts `all`, parsed with `before` in errno and converted, and what is left. */
  predicate DeliversCommand(all: string, before: Errno, texts: seq<string>, origin: Origin, rest: string,
                            after: Errno)
    requires all != ""
  {
    match ScanRequest(all, before)
    case Scan(Args(args, n), e) =>
      && args != [] && n <= |all| && rest == all[n..]
      && origin == Redis(Lookup(Lower(args[0])))
      && Converted(texts, after) == Convert(Lookup(Lower(args[0])), Lower(args[0]), args, e)
    case _ => false
  }

  /** What response() makes of `all`, a stream of requests, when the last recv found `e` in errno. */
  predicate ServesRequests(v: Service, all: string, e: Errno, noblock: bool)
    requires all != ""
  {
    match v.answer
    case Delivered(texts, origin) =>
      DeliversCommand(all, e, texts, origin, v.session.window.contents, v.session.errno)
    case Refused =>
      ScanRequest(all, e) == Scan(Bad, v.session.errno) && v.session.window.contents == all
    case Stopped(last) =>
      && v.session.window.contents == all
      && EndsWith(v.got, last) && EndsWith(all, last)
      && (|last| == |all| || ScanRequest(all[..|all| - |last|], e).request == Wait)
      && (last != "" ==> noblock)
  }

  /**
   The same for Redis requests; response() converts exactly one of them. The errno that the last
   recv found is the one at the start, unless something that is not EINVAL has been put over it.
   */
  lemma {:induction false} ServeRedis(s: Session, noblock: bool) returns (e: Errno)
    requires s.Valid()
    ensures var all := s.window.contents + Serve(s, noblock).got;
            Starred(all) ==> ServesRequests(Serve(s, noblock), all, e, noblock)
    ensures KeptOrMasked(s.errno, e)
    decreases Weight(s.script)
  {
    hide Receive, DeliversCommand, ScanRequest, ReadMany, Weight, ReadableWindow, Starred;
    var w := s.window;
    var r := Receive(w, s.errno);
    e := s.errno;
    ReceiveBounds(w, s.errno);
    RedisReceived(w, s.errno);
    StaysStarred(w.contents, Serve(s, noblock).got);
    assert w.contents + "" == w.contents;
    if r.ok && r.texts == [] {
      WaitKeepsErrno(w, s.errno);
      var run := ReadInto(r.window, s.script, noblock, r.errno);
      ReadManyBounds(s.script, ReadableWindow(r.window).Space(), noblock, r.errno, 0);
      ReadManyErrno(s.script, ReadableWindow(r.window).Space(), noblock, r.errno, 0);
      if run.ret <= 0 {
        assert (w.contents + run.bytes)[..|w.contents|] == w.contents;
      } else {
        var v := Serve(Fed(r.window, run), noblock);
        e := ServeRedis(Fed(r.window, run), noblock);
        Assoc(w.contents, run.bytes, v.got);
        MoreGot(v, run.bytes);
      }
    }
  }

  lemma WaitKeepsErrno(w: Window, errno: Errno)
    requires w.Valid()
    ensures var r := Receive(w, errno);
            r.ok && r.texts == [] ==> KeptOrMasked(errno, r.errno)
  {
    hide Parse, ScanRequest, Convert, Lookup, Lower, Window.Reclaim;
    if w.contents != "" {
      ScanKeepsErrno(w.contents, errno);
    }
  }

  lemma RedisReceived(w: Window, errno: Errno)
    requires w.Valid()
    ensures var r := Receive(w, errno);
            if w.contents == "" then r.ok && r.texts == []
            else if !Starred(w.contents) then true
            else if !r.ok then ScanRequest(w.contents, errno) == Scan(Bad, r.errno)
            else if r.texts == [] then ScanRequest(w.contents, errno).request == Wait
            else DeliversCommand(w.contents, errno, r.texts, r.origin, r.window.contents, r.errno)
  {
    hide ScanRequest, Convert, Lookup, Lower, Window.Reclaim;
    if w.contents != "" {
      ScanRequestBounds(w.contents, errno);
    }
  }

  lemma StaysStarred(s: string, t: string)
    ensures s != "" ==> (Starred(s) <==> Starred(s + t))
  {
  }

  lemma ParseNothing()
    ensures Parse("") == NotReady
  {
  }
}
