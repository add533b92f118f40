/**
 Successive calls of response() on a blocking link to which a client sends pipelined requests. The
 system may cut the bytes anywhere, and EINTR in the middle of a request puts another errno over the
 one that the conversions of the requests before it have left.
 */
module RequestStreams {
  import opened Text
  import opened Buffers
  import opened Framing
  import opened Kernels
  import opened RedisCommands
  import opened RedisRequests
  import opened ErrnoCarriesOver
  import opened Serving
  import opened Responses
  import opened RedisSessions

  /** When recv asks for more and something is still to arrive, response() goes on with that. */
  lemma ServeGoesOn(s: Session) returns (s': Session)
    requires s.Valid() && Receive(s.window, s.errno).ok && Receive(s.window, s.errno).texts == []
    requires Arrived(s.script) != ""
    ensures s'.Valid() && Weight(s'.script) < Weight(s.script) && Incoming(s') == Incoming(s)
    ensures Serve(s, false).answer == Serve(s', false).answer && Serve(s, false).session == Serve(s', false).session
    ensures KeptOrMasked(Receive(s.window, s.errno).errno, s'.errno)
    ensures Uninterrupted(s.script) ==> s'.errno == Receive(s.window, s.errno).errno && Uninterrupted(s'.script)
  {
    hide Receive, ReadMany, Weight, ReadableWindow, Arrived, Uninterrupted;
    var r := Receive(s.window, s.errno);
    ReceiveBounds(s.window, s.errno);
    var space := ReadableWindow(r.window).Space();
    ReadManyBounds(s.script, space, false, r.errno, 0);
    ReadManyErrno(s.script, space, false, r.errno, 0);
    ArrivedRun(s.script, space, r.errno);
    var run := ReadInto(r.window, s.script, false, r.errno);
    s' := Fed(r.window, run);
    Assoc(s.window.contents, run.bytes, Arrived(run.script));
  }

  lemma ServeStops(s: Session)
    requires s.Valid() && Receive(s.window, s.errno).ok && Receive(s.window, s.errno).texts == []
    requires Arrived(s.script) == ""
    ensures Serve(s, false).answer == Stopped("")
    ensures Serve(s, false).session.window.contents == s.window.contents == Incoming(s)
  {
    hide Receive, ReadMany, Weight, ReadableWindow, Arrived;
    var r := Receive(s.window, s.errno);
    ReceiveBounds(s.window, s.errno);
    var space := ReadableWindow(r.window).Space();
    ReadManyBounds(s.script, space, false, r.errno, 0);
    ArrivedRun(s.script, space, r.errno);
    assert s.window.contents + "" == s.window.contents;
  }

  /** What response() makes of the request `args` with `more` behind it, when it is parsed with `e`. */
  predicate RequestServed(s: Session, args: seq<string>, more: string, e: Errno)
    requires s.Valid() && args != []
  {
    var v := Serve(s, false);
    ServeBounds(s, false);
    && v.session.Valid()
    && if e == Invalid then v.answer == Refused && Incoming(v.session) == Incoming(s)
       else
         && v.answer == Delivered(Converting(args, Clear).command, Redis(Lookup(Lower(args[0]))))
         && Incoming(v.session) == more && v.session.errno == Converting(args, e).errno
  }

  /**
   A well-formed request at the start of what arrives is delivered, converted, and exactly what is
   behind it stays - however its bytes are cut, unless errno is EINVAL when it is parsed.
   */
  lemma {:induction false} RequestDelivered(s: Session, args: seq<string>, more: string) returns (e: Errno)
    requires s.Valid() && WellSized(args) && Incoming(s) == EncodeRequest(args) + more
    ensures KeptOrMasked(s.errno, e) && RequestServed(s, args, more, e)
    ensures Uninterrupted(s.script) ==> e == s.errno && Uninterrupted(Serve(s, false).session.script)
    decreases Weight(s.script)
  {
    hide Receive, EncodeRequest, Converting, Lookup, Lower, Arrived, Uninterrupted, ReadMany, Weight, ReadableWindow;
    var w, text := s.window, EncodeRequest(args);
    ServeBounds(s, false);
    ReceiveBounds(w, s.errno);
    e := s.errno;
    if |w.contents| >= |text| {
      Divide(w.contents, Arrived(s.script), text, more);
      RequestReceived(w, args, w.contents[|text|..], e);
      CommandIgnoresErrno(args, e);
    } else {
      DividePart(w.contents, Arrived(s.script), text, more);
      PartReceived(w, args, |w.contents|, e);
      if Receive(w, e).ok {
        var s' := ServeGoesOn(s);
        e := RequestDelivered(s', args, more);
      }
    }
  }

  lemma Divide(a: string, b: string, text: string, more: string)
    requires a + b == text + more && |a| >= |text|
    ensures a == text + a[|text|..] && a[|text|..] + b == more
  {
    assert a[..|text|] == (a + b)[..|text|] == text;
    assert (a + b)[|text|..] == more;
  }

  lemma DividePart(a: string, b: string, text: string, more: string)
    requires a + b == text + more && |a| < |text|
    ensures a == text[..|a|] && b != ""
  {
    assert a == (a + b)[..|a|] == (text + more)[..|a|];
  }

  /** A request that never arrives in full is waited for, unless it is refused for an errno of EINVAL. */
  lemma {:induction false} PartWaitedFor(s: Session, args: seq<string>, k: nat) returns (e: Errno)
    requires s.Valid() && WellSized(args) && k < |EncodeRequest(args)| && Incoming(s) == EncodeRequest(args)[..k]
    ensures KeptOrMasked(s.errno, e) && (Uninterrupted(s.script) ==> e == s.errno)
    ensures var v := Serve(s, false);
            if e == Invalid && '\n' in Incoming(s) then v.answer == Refused && Incoming(v.session) == Incoming(s)
            else v.answer == Stopped("") && v.session.window.contents == Incoming(s)
    decreases Weight(s.script)
  {
    hide Receive, EncodeRequest, Arrived, Uninterrupted, ReadMany, Weight, ReadableWindow;
    var w, text := s.window, EncodeRequest(args);
    ReceiveBounds(w, s.errno);
    e := s.errno;
    assert w.contents == Incoming(s)[..|w.contents|] == text[..|w.contents|];
    PartReceived(w, args, |w.contents|, e);
    if Receive(w, e).ok {
      if Arrived(s.script) == "" {
        ServeStops(s);
      } else {
        var s' := ServeGoesOn(s);
        e := PartWaitedFor(s', args, k);
      }
    }
  }

  /** An errno that has been put over EINVAL stays over whatever the conversions leave. */
  lemma MaskStays(args: seq<string>, before: Errno, e: Errno)
    requires args != [] && KeptOrMasked(before, e)
    ensures KeptOrMasked(Converting(args, before).errno, Converting(args, e).errno)
  {
    hide Converting, NumbersOf;
    ErrnoOfConversion(args, before);
    ErrnoOfConversion(args, e);
    MaskStaysOver(NumbersOf(args), before, e);
  }

  lemma {:induction false} MaskStaysOver(ts: seq<string>, before: Errno, e: Errno)
    requires KeptOrMasked(before, e)
    ensures KeptOrMasked(ErrnoAfterAll(ts, before), ErrnoAfterAll(ts, e))
    decreases |ts|
  {
    if ts != [] {
      hide ReadNumber, Strtol;
      MaskStaysOver(ts[1..], ErrnoAfterWhole(ts[0], before), ErrnoAfterWhole(ts[0], e));
    }
  }

  /** The answers to `rs` and `tail`; without interruptions (`calm`) errno is `before` at the start. */
  predicate RequestsServed(s: Session, rs: seq<seq<string>>, tail: string, before: Errno, calm: bool)
    requires s.Valid() && AllWellSized(rs)
  {
    var c := ServeAll(s);
    var m := |c.messages|;
    && HandledCount(rs, before) <= m <= |rs|
    && c.messages == CommandsOf(rs[..m])
    && (calm ==>
          m == HandledCount(rs, before)
          && (c.last == Refused <==>
                ErrnoAfterRequests(rs[..m], before) == Invalid && '\n' in EncodeRequests(rs[m..]) + tail))
    && if c.last == Refused then
         && Incoming(c.session) == EncodeRequests(rs[m..]) + tail && '\n' in Incoming(c.session)
         && ErrnoAfterRequests(rs[..m], before) == Invalid
       else m == |rs| && c.last == Stopped("") && c.session.window.contents == tail
  }

  lemma {:induction false} RequestsAnswered(s: Session, rs: seq<seq<string>>, last: seq<string>, k: nat,
                                            before: Errno, calm: bool)
    requires s.Valid() && AllWellSized(rs) && WellSized(last) && k < |EncodeRequest(last)|
    requires Incoming(s) == EncodeRequests(rs) + EncodeRequest(last)[..k]
    requires KeptOrMasked(before, s.errno) && (calm ==> Uninterrupted(s.script) && s.errno == before)
    ensures RequestsServed(s, rs, EncodeRequest(last)[..k], before, calm)
    decreases |rs|
  {
    hide Serve, EncodeRequest, Converting, Lookup, Lower, Incoming, Uninterrupted;
    var tail := EncodeRequest(last)[..k];
    ServeBounds(s, false);
    if rs == [] {
      assert EncodeRequests(rs) + tail == tail && rs[..0] == rs[0..] == [];
      var _ := PartWaitedFor(s, last, k);
    } else {
      var r, more := rs[0], rs[1..];
      assert EncodeRequests(rs) + tail == EncodeRequest(r) + (EncodeRequests(more) + tail);
      var e := RequestDelivered(s, r, EncodeRequests(more) + tail);
      if e == Invalid {
        assert rs[0..] == rs;
        HasHeading(r, EncodeRequests(more) + tail);
      } else {
        var s' := Serve(s, false).session;
        MaskStays(r, before, e);
        RequestsAnswered(s', more, last, k, Converting(r, before).errno, calm);
        TakeOneMore(rs, |ServeAll(s').messages|);
      }
    }
  }

  lemma HasHeading(args: seq<string>, more: string)
    requires WellSized(args)
    ensures '\n' in EncodeRequest(args) + more
  {
    hide ScanRequest, EncodeRequest;
    RequestRoundTrip(args, more, Invalid);
    RequestRoundTrip(args, more, Clear);
    ErrnoOnEntry(EncodeRequest(args) + more, Invalid);
  }

  /**
   On a blocking link, of a pipelined stream broken off anywhere inside its last request, successive
   calls of response() return the converted requests in order, however the system cuts the bytes: at
   least those up to and including the first that leaves EINVAL, and exactly those if nothing
   interrupts. The rest is kept; it is refused only where EINVAL is left, and waited for otherwise.
   */
  lemma ResponsesAreTheRequests(s: Session, rs: seq<seq<string>>, last: seq<string>, k: nat)
    requires s.Valid() && AllWellSized(rs) && WellSized(last) && k < |EncodeRequest(last)|
    requires Incoming(s) == EncodeRequests(rs) + EncodeRequest(last)[..k]
    ensures RequestsServed(s, rs, EncodeRequest(last)[..k], s.errno, Uninterrupted(s.script))
  {
    hide RequestsServed, Incoming, EncodeRequest, Uninterrupted;
    RequestsAnswered(s, rs, last, k, s.errno, Uninterrupted(s.script));
  }

  /** In particular all of them, if no request leaves EINVAL and errno is not EINVAL at the start. */
  lemma AllRequestsAnswered(s: Session, rs: seq<seq<string>>, last: seq<string>, k: nat)
    requires s.Valid() && AllWellSized(rs) && WellSized(last) && k < |EncodeRequest(last)|
    requires Incoming(s) == EncodeRequests(rs) + EncodeRequest(last)[..k]
    requires HandledCount(rs, s.errno) == |rs| && ErrnoAfterRequests(rs, s.errno) != Invalid
    ensures var c := ServeAll(s);
            && c.messages == CommandsOf(rs) && c.last == Stopped("")
            && c.session.window.contents == EncodeRequest(last)[..k]
  {
    hide Incoming, EncodeRequest, ServeAll, HandledCount, ErrnoAfterRequests;
    ResponsesAreTheRequests(s, rs, last, k);
    assert rs[..|rs|] == rs;
  }

  // ------------------------------------------------------------ an interruption that helps

  /** The first read is interrupted and then goes on: what recv finds in errno is no longer EINVAL. */
  lemma InterruptedFirst(s: Session, next: seq<string>)
    requires s.Valid() && s.window.contents == "" && WellSized(next)
    requires s.script == [ReadFails(Interrupted), Arrives(EncodeRequest(next))]
    ensures RequestServed(s, next, "", Other)
  {
    hide ReadMany, ReadableWindow, EncodeRequest, RequestServed;
    var space := ReadableWindow(s.window).Space();
    ReceiveBounds(s.window, s.errno);
    assert Receive(s.window, s.errno) == Reception(true, [], Native, s.window, s.errno);
    ReadManyBounds(s.script, space, false, s.errno, 0);
    var run := ReadInto(s.window, s.script, false, s.errno);
    assert s.script[1..] == [Arrives(EncodeRequest(next))];
    StartsWithStar(next, "");
    assert EncodeRequest(next) + "" == EncodeRequest(next);
    InterruptedRead(s.script, space, s.errno);
    var s' := Fed(s.window, run);
    assert Incoming(s') == run.bytes + Arrived(run.script);
    var _ := RequestDelivered(s', next, "");
    SameServed(s, s', next);
  }

  lemma SameServed(s: Session, s': Session, args: seq<string>)
    requires s.Valid() && s'.Valid() && args != []
    requires Serve(s, false).answer == Serve(s', false).answer && Serve(s, false).session == Serve(s', false).session
    requires RequestServed(s', args, "", Other)
    ensures RequestServed(s, args, "", Other)
  {
    hide Serve, Converting, Lookup, Lower;
    ServeBounds(s, false);
  }

  lemma InterruptedRead(script: seq<ReadEvent>, space: nat, errno: Errno)
    requires space > 0 && |script| == 2 && script[0] == ReadFails(Interrupted)
    requires script[1].Arrives? && script[1].bytes != ""
    ensures var run := ReadMany(script, space, false, errno, 0);
            run.ret > 0 && run.errno == Other && run.bytes + Arrived(run.script) == script[1].bytes
  {
    var run := ReadMany(script, space, false, errno, 0);
    assert run == ReadMany(script[1..], space, false, Other, 0);
    ReadManyErrno(script[1..], space, false, Other, 0);
    ArrivedRun(script[1..], space, Other);
    assert script[1..] == [script[1]] && script[1..][1..] == [];
    assert Arrived(script[1..]) == script[1].bytes + "";
  }

  /**
   After `ZRANGE k 0 end` the request behind it is refused if it arrives undisturbed, and answered
   if the read that brings it has been interrupted.
   */
  lemma InterruptionLetsThrough(next: seq<string>)
    requires WellSized(next)
    ensures var range := ["ZRANGE", "k", "0", "end"];
            var w := Window(0, |EncodeRequest(range)| + 8 * 1024, EncodeRequest(range));
            var calm := Session(w, [Arrives(EncodeRequest(next))], Clear);
            var disturbed := Session(w, [ReadFails(Interrupted), Arrives(EncodeRequest(next))], Clear);
            && |ServeAll(calm).messages| == 1 && ServeAll(calm).last == Refused
            && |ServeAll(disturbed).messages| >= 2
  {
    hide EncodeRequest, Converting, RequestServed;
    var range, e := ["ZRANGE", "k", "0", "end"], EncodeRequest(next);
    var w := Window(0, |EncodeRequest(range)| + 8 * 1024, EncodeRequest(range));
    BadRange();
    assert WellSized(range);
    CalmRefused(w, range, next);
    DisturbedAnswered(w, range, next);
  }

  lemma CalmRefused(w: Window, range: seq<string>, next: seq<string>)
    requires w.Valid() && w.total >= 8 && w.contents == EncodeRequest(range)
    requires WellSized(range) && WellSized(next) && Converting(range, Clear).errno == Invalid
    ensures var c := ServeAll(Session(w, [Arrives(EncodeRequest(next))], Clear));
            |c.messages| == 1 && c.last == Refused
  {
    hide EncodeRequest, Converting, ServeAll;
    var e, s := EncodeRequest(next), Session(w, [Arrives(EncodeRequest(next))], Clear);
    StartsWithStar(next, "");
    assert e + "" == e && s.script[1..] == [];
    assert Arrived(s.script) == e + "";
    TwoRequests(range, next);
    assert e[..0] == "" && Incoming(s) == EncodeRequest(range) + e == EncodeRequest(range) + e + "";
    ResponsesAreTheRequests(s, [range, next], next, 0);
    HasHeading(next, "");
  }

  lemma TwoRequests(a: seq<string>, b: seq<string>)
    requires WellSized(a) && WellSized(b) && Converting(a, Clear).errno == Invalid
    ensures EncodeRequests([a, b]) == EncodeRequest(a) + EncodeRequest(b)
    ensures [a, b][..1] == [a] && [a, b][1..] == [b] && EncodeRequests([b]) == EncodeRequest(b)
    ensures HandledCount([a, b], Clear) == 1 && ErrnoAfterRequests([a], Clear) == Invalid
  {
    hide EncodeRequest, Converting;
    assert [a, b][1..] == [b] && [b][1..] == [] && [a][1..] == [];
    assert EncodeRequests([b]) == EncodeRequest(b) + "";
    assert HandledCount([b], Invalid) == 0;
    assert ErrnoAfterRequests([], Invalid) == Invalid;
  }

  lemma DisturbedAnswered(w: Window, range: seq<string>, next: seq<string>)
    requires w.Valid() && w.total >= 8 && w.contents == EncodeRequest(range)
    requires WellSized(range) && WellSized(next) && Converting(range, Clear).errno == Invalid
    ensures var s := Session(w, [ReadFails(Interrupted), Arrives(EncodeRequest(next))], Clear);
            |ServeAll(s).messages| >= 2
  {
    hide EncodeRequest, Converting, Receive;
    var s := Session(w, [ReadFails(Interrupted), Arrives(EncodeRequest(next))], Clear);
    assert w.contents + "" == w.contents;
    RequestReceived(w, range, "", Clear);
    ReceiveBounds(w, Clear);
    var s' := Serve(s, false).session;
    ServeBounds(s, false);
    InterruptedFirst(s', next);
    ServeBounds(s', false);
  }
}
