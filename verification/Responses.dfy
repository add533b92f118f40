/**
 Successive calls of response() on one link, and when a message that has arrived is not returned.
 A blocking link delivers the packets of everything that arrives, however the system cuts it up; a
 non-blocking link may give up on a packet that it has already read.
 */
module Responses {
  import opened Text
  import opened Buffers
  import opened Framing
  import opened Kernels
  import opened Serving
  import opened RedisRequests
  import Streams

  // ------------------------------------------------------------ a blocking link

  /** What the system delivers before the first read that stops: no bytes, EWOULDBLOCK or an error. */
  function Arrived(script: seq<ReadEvent>): string {
    if script == [] then ""
    else
      match script[0]
      case Arrives(bytes) => if bytes == "" then "" else bytes + Arrived(script[1..])
      case ReadFails(f) => if f == Interrupted then Arrived(script[1..]) else ""
  }

  /** All bytes that response() may still look at. */
  function Incoming(s: Session): string {
    s.window.contents + Arrived(s.script)
  }

  /** response() again and again, until it returns no message. */
  datatype Conversation = Conversation(messages: seq<seq<string>>, last: Answer, session: Session) {
    function After(message: seq<string>): Conversation {
      this.(messages := [message] + messages)
    }
  }

  function ServeAll(s: Session): Conversation
    requires s.Valid()
    decreases |s.window.contents| + Weight(s.script)
  {
    var v := Serve(s, false);
    ServeBounds(s, false);
    match v.answer
    case Delivered(texts, _) => ServeAll(v.session).After(texts)
    case _ => Conversation([], v.answer, v.session)
  }

  lemma ArrivedOne(script: seq<ReadEvent>, want: nat, errno: Errno)
    requires want > 0
    ensures var r := ReadOne(script, want, errno);
            if r.result.Moved? && r.bytes != "" then Arrived(script) == r.bytes + Arrived(r.script)
            else if r.result == Failed(Interrupted) then Arrived(script) == Arrived(r.script)
            else Arrived(script) == ""
  {
    if script != [] && script[0].Arrives? && |script[0].bytes| > want {
      var bytes, r := script[0].bytes, ReadOne(script, want, errno);
      assert r.script[1..] == script[1..];
      assert bytes == bytes[..want] + bytes[want..];
      assert Arrived(script) == bytes[..want] + (bytes[want..] + Arrived(script[1..]));
    }
  }

  lemma {:induction false} ArrivedRun(script: seq<ReadEvent>, space: nat, errno: Errno)
    requires space > 0
    ensures var run := ReadMany(script, space, false, errno, 0);
            if run.ret > 0 then Arrived(script) == run.bytes + Arrived(run.script)
            else Arrived(script) == "" && run.bytes == ""
    decreases Weight(script)
  {
    hide Weight, ReadOne, Arrived;
    ArrivedOne(script, space, errno);
    var r := ReadOne(script, space, errno);
    if r.result == Failed(Interrupted) {
      ArrivedRun(r.script, space, r.errno);
    }
  }

  /** What arrives behind the bytes that response() has looked at. */
  function Behind(v: Service): string {
    if v.answer.Stopped? then "" else Arrived(v.session.script)
  }

  /** No byte is lost or reordered between the system and the answers. */
  lemma {:induction false} ServeConserves(s: Session)
    requires s.Valid()
    ensures var v := Serve(s, false);
            && Incoming(s) == s.window.contents + v.got + Behind(v)
            && (v.answer.Stopped? ==> v.answer == Stopped(""))
    decreases Weight(s.script)
  {
    hide Receive, ReadMany, Weight, ReadableWindow, Arrived;
    var w := s.window;
    var r := Receive(w, s.errno);
    ReceiveBounds(w, s.errno);
    assert w.contents + "" == w.contents;
    if r.ok && r.texts == [] {
      var run := ReadInto(r.window, s.script, false, r.errno);
      ReadManyBounds(s.script, ReadableWindow(r.window).Space(), false, r.errno, 0);
      ArrivedRun(s.script, ReadableWindow(r.window).Space(), r.errno);
      if run.ret > 0 {
        var v := Serve(Fed(r.window, run), false);
        ServeConserves(Fed(r.window, run));
        Assoc(w.contents, run.bytes, v.got);
        Assoc(w.contents, run.bytes, Arrived(run.script));
        Assoc(w.contents + run.bytes, v.got, Behind(v));
      }
    }
  }

  /** A delivered packet is the next one of the stream, whatever arrives behind it. */
  lemma DeliversNext(all: string, texts: seq<string>, rest: string, more: string)
    requires all != "" && !Starred(all) && Delivers(all, texts, rest)
    ensures Streams.Drain(all + more) == Streams.Drain(rest + more).After([texts])
  {
    hide Parse;
    ParseStable(all, more);
    ParseBounds(all);
    assert (all + more)[0] == all[0];
    assert (all + more)[Parse(all).consumed..] == rest + more;
  }

  lemma RefusesNext(all: string, more: string)
    requires all != "" && !Starred(all) && Parse(all) == Error
    ensures Streams.Drain(all + more) == Streams.Receiver([], all + more, Streams.Failed)
  {
    hide Parse;
    ParseStable(all, more);
    assert (all + more)[0] == all[0];
  }

  /**
   On a blocking link, successive calls of response() return the packets of everything that
   arrives, one by one, up to the first Redis request, if any. Without one they end as the stream
   does: with an error where recv refuses what comes next, or waiting, with what is no packet yet
   left in the buffer. Verdicts says which texts those are.
   */
  lemma {:induction false} ResponsesAreTheStream(s: Session)
    requires s.Valid()
    ensures var c, d := ServeAll(s), Streams.Drain(Incoming(s));
            && d.packets <= c.messages
            && (d.mode == Streams.Failed ==>
                  c.messages == d.packets && c.last == Refused && Incoming(c.session) == d.rest)
            && (d.mode == Streams.Waiting ==>
                  c.messages == d.packets && c.last == Stopped("") && c.session.window.contents == d.rest)
    decreases |s.window.contents| + Weight(s.script)
  {
    hide Serve, Parse, Delivers, Streams.Drain, Arrived, Weight;
    var v := Serve(s, false);
    var all, more := s.window.contents + v.got, Behind(v);
    ServeBounds(s, false);
    ServeConserves(s);
    ServeNative(s, false);
    ParseNothing();
    assert all + "" == all;
    if Starred(all) {
      StarredStops(all, more);
    } else {
      match v.answer {
        case Delivered(texts, _) =>
          DeliversSomething(all, texts, v.session.window.contents);
          DeliversNext(all, texts, v.session.window.contents, more);
          ResponsesAreTheStream(v.session);
        case Refused =>
          RefusesNext(all, more);
        case Stopped(_) =>
          WaitsForMore(all);
      }
    }
  }

  lemma StarredStops(all: string, more: string)
    requires Starred(all)
    ensures Streams.Drain(all + more).packets == [] && Streams.Drain(all + more).mode == Streams.Redis
  {
    assert (all + more)[0] == all[0];
  }

  lemma WaitsForMore(all: string)
    requires !Starred(all) && Parse(all) == NotReady
    ensures Streams.Drain(all) == Streams.Receiver([], all, Streams.Waiting)
  {
    hide Parse;
  }

  lemma DeliversSomething(all: string, texts: seq<string>, rest: string)
    requires Delivers(all, texts, rest)
    ensures all != ""
  {
    hide Parse;
    ParseNothing();
  }

  /** However the system cuts the same bytes, and however often it interrupts: the same packets. */
  lemma ResponsesIgnoreCuts(s: Session, s': Session)
    requires s.Valid() && s'.Valid() && Incoming(s) == Incoming(s')
    requires Streams.Drain(Incoming(s)).mode != Streams.Redis
    ensures ServeAll(s).messages == ServeAll(s').messages && ServeAll(s).last == ServeAll(s').last
  {
    hide Streams.Drain, ServeAll, Incoming;
    ResponsesAreTheStream(s);
    ResponsesAreTheStream(s');
  }

  // ------------------------------------------------------------ a non-blocking link

  /** The state in which response() calls recv for the last time. */
  function LastRecv(s: Session, noblock: bool): (l: Session)
    requires s.Valid()
    ensures l.Valid()
    decreases Weight(s.script)
  {
    ReceiveBounds(s.window, s.errno);
    var r := Receive(s.window, s.errno);
    if !r.ok || r.texts != [] then s
    else
      ReadManyBounds(s.script, ReadableWindow(r.window).Space(), noblock, r.errno, 0);
      var run := ReadInto(r.window, s.script, noblock, r.errno);
      if run.ret <= 0 then s else LastRecv(Fed(r.window, run), noblock)
  }

  /** A whole message has arrived: a packet, or a request that is read with a clear errno. */
  predicate Complete(all: string) {
    if Starred(all) then ScanRequest(all, Clear).request.Args? else Parse(all).Packet?
  }

  /** recv asks for more, and the system breaks off after `bytes`, before the buffer is full. */
  predicate ReadBreaksOff(s: Session, bytes: string)
    requires s.Valid()
  {
    var r := Receive(s.window, s.errno);
    ReceiveBounds(s.window, s.errno);
    && r.ok && r.texts == []
    && bytes != "" && |bytes| < ReadableWindow(r.window).Space() && BreaksOffAfter(s.script, bytes)
  }

  ghost predicate BreaksOffComplete(s: Session)
    requires s.Valid()
  {
    exists bytes :: ReadBreaksOff(s, bytes) && Complete(s.window.contents + bytes)
  }

  lemma IncompleteWhenNotReady(w: Window, errno: Errno)
    requires w.Valid()
    ensures var r := Receive(w, errno);
            r.ok && r.texts == [] ==> !Complete(w.contents)
  {
    hide Receive, Parse, ScanRequest, Delivers, DeliversCommand;
    PacketReceived(w, errno);
    RedisReceived(w, errno);
    if w.contents != "" {
      ErrnoOnEntry(w.contents, errno);
    }
  }

  lemma BrokenOffRead(s: Session, noblock: bool)
    requires s.Valid()
    requires Receive(s.window, s.errno).ok && Receive(s.window, s.errno).texts == []
    ensures var r := Receive(s.window, s.errno);
            var run := (ReceiveBounds(s.window, s.errno); ReadInto(r.window, s.script, noblock, r.errno));
            (run.ret <= 0 && Complete(s.window.contents + run.bytes))
            <==> noblock && BreaksOffComplete(s)
  {
    hide Receive, Complete, ReadMany, BreaksOffAfter, ReadableWindow;
    var r := Receive(s.window, s.errno);
    ReceiveBounds(s.window, s.errno);
    IncompleteWhenNotReady(s.window, s.errno);
    assert s.window.contents + "" == s.window.contents;
    var run, space := ReadInto(r.window, s.script, noblock, r.errno), ReadableWindow(r.window).Space();
    CountDroppedIff(s.script, space, noblock, r.errno, run.bytes);
    if run.ret <= 0 && Complete(s.window.contents + run.bytes) {
      assert ReadBreaksOff(s, run.bytes);
    }
    if noblock && BreaksOffComplete(s) {
      var bytes :| ReadBreaksOff(s, bytes) && Complete(s.window.contents + bytes);
      CountDroppedIff(s.script, space, noblock, r.errno, bytes);
    }
  }

  lemma NothingBreaksOff(s: Session)
    requires s.Valid() && (!Receive(s.window, s.errno).ok || Receive(s.window, s.errno).texts != [])
    ensures !BreaksOffComplete(s)
  {
  }

  /**
   response() gives up although a whole message is in its buffer, exactly if the link does not block
   and the bytes that complete the message are followed, in the same read, by the end of the stream
   or by an error, while the buffer has room left. This never happens on a blocking link.
   */
  lemma {:induction false} GivesUpOnMessageIff(s: Session, noblock: bool)
    requires s.Valid()
    ensures var v, l := Serve(s, noblock), LastRecv(s, noblock);
            (v.answer.Stopped? && Complete(v.session.window.contents))
            <==> noblock && BreaksOffComplete(l)
    decreases Weight(s.script)
  {
    hide Receive, Complete, ReadMany, BreaksOffComplete, ReadableWindow, Weight;
    var r := Receive(s.window, s.errno);
    ReceiveBounds(s.window, s.errno);
    if !r.ok || r.texts != [] {
      NothingBreaksOff(s);
    } else {
      BrokenOffRead(s, noblock);
      var run := ReadInto(r.window, s.script, noblock, r.errno);
      ReadManyBounds(s.script, ReadableWindow(r.window).Space(), noblock, r.errno, 0);
      if run.ret > 0 {
        GivesUpOnMessageIff(Fed(r.window, run), noblock);
      }
    }
  }

  /**
   For example, a peer that sends one packet and closes: a blocking link returns the packet, a
   non-blocking one returns nothing.
   */
  lemma PacketGivenUp(p: seq<string>)
    requires Sendable(p) && |Encode(p)| < 8 * 1024
    ensures var s := Session(Window(0, ZERO_BUFFER_SIZE, ""), [Arrives(Encode(p))], Clear);
            && Serve(s, true).answer == Stopped(Encode(p))
            && Serve(s, false).answer == Delivered(p, Native)
  {
    hide Parse, Encode, Weight;
    var e, w := Encode(p), Window(0, ZERO_BUFFER_SIZE, "");
    var s := Session(w, [Arrives(e)], Clear);
    EncodeStartsWithDigit(p);
    assert Receive(w, Clear) == Reception(true, [], Native, w, Clear);
    assert ReadableWindow(w) == Window(0, 8 * 1024, "");
    OneArrival(e, 8 * 1024);
    assert "" + e == e;
    var fed := Session(Window(0, 8 * 1024, e), [], Clear);
    RoundTrip(p, "");
    assert e + "" == e;
    assert Serve(fed, false).answer == Delivered(p, Native);
  }

  lemma OneArrival(e: string, space: nat)
    requires 0 < |e| < space
    ensures ReadMany([Arrives(e)], space, true, Clear, 0) == Run(0, e, [], Clear)
    ensures ReadMany([Arrives(e)], space, false, Clear, 0) == Run(|e|, e, [], Clear)
  {
    var script := [Arrives(e)];
    assert ReadOne(script, space, Clear) == Reading(Moved(|e|), e, [], Clear);
    assert ReadMany([], space - |e|, true, Clear, |e|) == Run(0, "", [], Clear);
    assert e + "" == e;
  }
}
