/**
 Two native Links joined by a byte channel. Each step is one call of a Link method, as its
 contract in Links describes it; how many bytes a read or write moves is up to the environment.
 */
module Fifo {
  import opened Text
  import opened Buffers
  import opened Framing

  datatype Step =
    | Send(packet: seq<string>)
    | Write(n: nat, failed: bool)
    | Read(n: nat)
    | Recv

  datatype System = System(
    output: Window,          // of the sender
    channel: string,
    input: Window,           // of the receiver
    sent: seq<seq<string>>,
    received: seq<seq<string>>,
    failed: bool)            // recv returned NULL, or took the stream for Redis
  {
    predicate Valid() {
      output.Valid() && input.Valid() && input.total >= ZERO_BUFFER_SIZE
    }

    function Pending(): string {
      input.contents + channel + output.contents
    }
  }

  function Init(): System {
    System(Window(0, ZERO_BUFFER_SIZE, ""), "", Window(0, ZERO_BUFFER_SIZE, ""), [], [], false)
  }

  predicate Enabled(s: System, e: Step)
    requires s.Valid()
  {
    match e
    case Send(p) => Sendable(p)
    case Write(n, _) => n <= |s.output.contents|
    case Read(n) => n <= |s.channel| && n <= ReadableWindow(s.input).Space()
    case Recv => true
  }

  function Next(s: System, e: Step): (s': System)
    requires s.Valid() && Enabled(s, e)
    ensures s'.Valid()
  {
    match e
    case Send(p) =>
      s.(output := SendWindow(s.output, p), sent := s.sent + [p])
    case Write(n, failed) =>
      s.(output := if failed then Awake(s.output).Decr(n) else WrittenWindow(s.output, n),
         channel := s.channel + s.output.contents[..n])
    case Read(n) =>
      s.(input := ReadableWindow(s.input).Incr(s.channel[..n]), channel := s.channel[n..])
    case Recv =>
      if s.input.contents == "" then s
      else if Starred(s.input.contents) then s.(failed := true)
      else
        match Parse(s.input.contents)
        case NotReady => s.(input := RecvWindow(s.input))
        case Error => s.(failed := true)
        case Packet(records, _) => s.(input := RecvWindow(s.input), received := s.received + [records])
  }

  predicate AllEnabled(s: System, steps: seq<Step>)
    requires s.Valid()
    decreases |steps|
  {
    steps == [] || (Enabled(s, steps[0]) && AllEnabled(Next(s, steps[0]), steps[1..]))
  }

  function Run(s: System, steps: seq<Step>): (s': System)
    requires s.Valid() && AllEnabled(s, steps)
    ensures s'.Valid()
    decreases |steps|
  {
    if steps == [] then s else Run(Next(s, steps[0]), steps[1..])
  }

  // --------------------------------------------------------------- invariant

  function EncodeAll(ps: seq<seq<string>>): string {
    if ps == [] then "" else Encode(ps[0]) + EncodeAll(ps[1..])
  }

  predicate AllSendable(ps: seq<seq<string>>) {
    forall i :: 0 <= i < |ps| ==> Sendable(ps[i])
  }

  /** Packets sent but not yet received. */
  function Missing(s: System): seq<seq<string>>
    requires |s.received| <= |s.sent|
  {
    s.sent[|s.received|..]
  }

  predicate Inv(s: System) {
    && s.Valid() && !s.failed && AllSendable(s.sent)
    && s.received <= s.sent
    && s.Pending() == EncodeAll(Missing(s))
  }

  lemma {:induction false} EncodeAllDistributes(ps: seq<seq<string>>, qs: seq<seq<string>>)
    ensures EncodeAll(ps + qs) == EncodeAll(ps) + EncodeAll(qs)
  {
    if ps == [] {
      assert ps + qs == qs;
    } else {
      assert (ps + qs)[1..] == ps[1..] + qs;
      EncodeAllDistributes(ps[1..], qs);
    }
  }

  lemma HeadFirst(ps: seq<seq<string>>)
    ensures EncodeAll(ps) == if ps == [] then "" else Encode(ps[0]) + EncodeAll(ps[1..])
    ensures |ps| == 1 ==> EncodeAll(ps) == Encode(ps[0])
  {
    hide Encode;
  }

  lemma SendKeepsInv(s: System, p: seq<string>)
    requires Inv(s) && Sendable(p)
    ensures Inv(Next(s, Send(p)))
  {
    assert Representable(p);
    hide Encode, SendWindow, Sendable, EncodeAll;
    SendEncodes(s.output, p);
    MissingAfterSend(s.sent, |s.received|, p);
    EncodeAllDistributes(Missing(s), [p]);
    HeadFirst([p]);
    SentPending(s, p);
    AllSendableAfter(s.sent, p);
  }

  lemma AllSendableAfter(ps: seq<seq<string>>, p: seq<string>)
    requires AllSendable(ps) && Sendable(p)
    ensures AllSendable(ps + [p])
  {
    hide Sendable;
  }

  lemma SentPending(s: System, p: seq<string>)
    requires s.Valid() && Sendable(p)
    ensures Next(s, Send(p)).Pending() == s.Pending() + Encode(p)
  {
    SendEncodes(s.output, p);
    hide SendWindow, Encode, Sendable;
    var i, c, o := s.input.contents, s.channel, s.output.contents;
    assert i + c + (o + Encode(p)) == i + c + o + Encode(p);
  }

  lemma MissingAfterSend(sent: seq<seq<string>>, n: nat, p: seq<string>)
    requires n <= |sent|
    ensures (sent + [p])[n..] == sent[n..] + [p]
    ensures (sent + [p])[..n] == sent[..n]
  {
  }

  lemma MoveKeepsInv(s: System, e: Step)
    requires Inv(s) && (e.Write? || e.Read?) && Enabled(s, e)
    ensures Inv(Next(s, e))
  {
    hide Encode, Sendable;
    var s' := Next(s, e);
    assert s'.Pending() == s.Pending();
  }

  /** What recv makes of the unread part of a stream of packets, cut at any byte. */
  lemma ParseOfStream(s: string, more: string, ps: seq<seq<string>>)
    requires s != "" && AllSendable(ps) && s + more == EncodeAll(ps)
    ensures ps != [] && s[0] != '*'
    ensures |s| < |Encode(ps[0])| ==> Parse(s) == NotReady
    ensures |s| >= |Encode(ps[0])| ==>
              && Parse(s) == Packet(ps[0], |Encode(ps[0])|)
              && s[|Encode(ps[0])|..] + more == EncodeAll(ps[1..])
  {
    hide Parse, Encode, EncodeAll, EncodeRecords;
    HeadFirst(ps);
    assert |s + more| > 0;
    var p, tail := ps[0], EncodeAll(ps[1..]);
    assert Sendable(p);
    EncodeStartsWithDigit(p);
    CutInto(s, more, Encode(p), tail);
    assert s[0] == (s + more)[0] == Encode(p)[0];
    if |s| < |Encode(p)| {
      PrefixNotReady(p, |s|);
    } else {
      RoundTrip(p, s[|Encode(p)|..]);
    }
  }

  lemma CutInto(s: string, more: string, a: string, b: string)
    requires s + more == a + b
    ensures |s| < |a| ==> s == a[..|s|]
    ensures |s| >= |a| ==> s == a + s[|a|..] && s[|a|..] + more == b
  {
    if |s| < |a| {
      assert (s + more)[..|s|] == s && (a + b)[..|s|] == a[..|s|];
    } else {
      assert (s + more)[..|a|] == s[..|a|] && (a + b)[..|a|] == a;
      assert (s + more)[|a|..] == s[|a|..] + more && (a + b)[|a|..] == b;
    }
  }

  lemma RecvKeepsInv(s: System)
    requires Inv(s)
    ensures Inv(Next(s, Recv))
  {
    hide Parse, Encode, Sendable;
    var c := s.input.contents;
    if c != "" {
      var ps := Missing(s);
      assert c + (s.channel + s.output.contents) == s.Pending();
      ParseOfStream(c, s.channel + s.output.contents, ps);
      var s' := Next(s, Recv);
      if Parse(c).Packet? {
        var k := |Encode(ps[0])|;
        ParseBounds(c);
        assert s'.received == s.received + [s.sent[|s.received|]];
        assert Missing(s') == ps[1..];
        assert s'.Pending() == c[k..] + (s.channel + s.output.contents);
      }
    }
  }

  lemma NextKeepsInv(s: System, e: Step)
    requires Inv(s) && Enabled(s, e)
    ensures Inv(Next(s, e))
  {
    hide Inv, Next;
    match e
    case Send(p) => SendKeepsInv(s, p);
    case Write(_, _) => MoveKeepsInv(s, e);
    case Read(_) => MoveKeepsInv(s, e);
    case Recv => RecvKeepsInv(s);
  }

  lemma {:induction false} RunKeepsInv(s: System, steps: seq<Step>)
    requires Inv(s) && AllEnabled(s, steps)
    ensures Inv(Run(s, steps))
    decreases |steps|
  {
    hide Next, Enabled;
    if steps != [] {
      NextKeepsInv(s, steps[0]);
      RunKeepsInv(Next(s, steps[0]), steps[1..]);
    }
  }

  // ------------------------------------------------------------ main results

  /**
   Safety of every run: the receiver never fails, it has received a prefix of what was sent, and
   every byte sent is either part of a received packet or still on its way, in order.
   */
  lemma FifoSafety(steps: seq<Step>)
    requires AllEnabled(Init(), steps)
    ensures var s := Run(Init(), steps);
            && !s.failed
            && s.received <= s.sent
            && EncodeAll(s.received) + s.input.contents + s.channel + s.output.contents
            == EncodeAll(s.sent)
            && (s.Pending() == "" ==> s.received == s.sent)
  {
    hide Encode, Next, Enabled, Sendable, RecvWindow, SendWindow;
    assert Inv(Init());
    RunKeepsInv(Init(), steps);
    var s := Run(Init(), steps);
    assert s.received + Missing(s) == s.sent;
    EncodeAllDistributes(s.received, Missing(s));
    assert EncodeAll(s.received) + s.Pending() ==
           EncodeAll(s.received) + s.input.contents + s.channel + s.output.contents;
    NothingMissing(Missing(s));
  }

  lemma NothingMissing(ps: seq<seq<string>>)
    requires AllSendable(ps)
    ensures ps != [] ==> EncodeAll(ps) != ""
  {
    if ps != [] {
      assert Sendable(ps[0]);
      EncodeStartsWithDigit(ps[0]);
    }
  }

  /** Once nothing is left to move, a recv that asks for more means that everything has arrived. */
  lemma DrainedMeansDelivered(s: System)
    requires Inv(s) && s.channel == "" && s.output.contents == ""
    requires s.input.contents == "" || Parse(s.input.contents) == NotReady
    ensures s.received == s.sent
  {
    hide Parse, Encode;
    var ps, c := Missing(s), s.input.contents;
    assert c + "" == c == c + s.channel + s.output.contents;
    NothingMissing(ps);
    if c != "" {
      ParseOfStream(c, "", ps);
    }
  }

  /**
   No reachable state is stuck: from each there is a run that delivers everything sent so far.
   It never needs more room than read finds.
   */
  lemma {:induction false} CanDeliver(s: System) returns (steps: seq<Step>)
    requires Inv(s)
    ensures AllEnabled(s, steps)
    ensures Run(s, steps).received == Run(s, steps).sent == s.sent
    decreases |s.output.contents|, |s.channel|, |s.input.contents|
  {
    hide Parse, Encode, Sendable;
    var c := s.input.contents;
    if s.output.contents != "" {
      steps := DeliverAfter(s, Write(|s.output.contents|, false));
    } else if c != "" && Parse(c) != NotReady {
      ParseOfStream(c, s.channel + s.output.contents, Missing(s));
      ParseBounds(c);
      steps := DeliverAfter(s, Recv);
    } else if s.channel != "" {
      NoStall(s.input);
      NextKeepsInv(s, Recv);
      var s' := Next(s, Recv);
      var room := ReadableWindow(s'.input).Space();
      var rest := DeliverAfter(s', Read(if |s.channel| < room then |s.channel| else room));
      steps := [Recv] + rest;
      assert steps[1..] == rest;
    } else {
      DrainedMeansDelivered(s);
      steps := [];
    }
  }

  lemma {:induction false} DeliverAfter(s: System, e: Step) returns (steps: seq<Step>)
    requires Inv(s) && Enabled(s, e) && !e.Send?
    requires var t := Next(s, e);
             || |t.output.contents| < |s.output.contents|
             || (|t.output.contents| == |s.output.contents| && |t.channel| < |s.channel|)
             || (|t.output.contents| == |s.output.contents| && |t.channel| == |s.channel|
                 && |t.input.contents| < |s.input.contents|)
    ensures AllEnabled(s, steps)
    ensures Run(s, steps).received == Run(s, steps).sent == s.sent
    decreases |s.output.contents|, |s.channel|, |s.input.contents|, 0
  {
    hide Parse, Encode, Sendable;
    NextKeepsInv(s, e);
    var rest := CanDeliver(Next(s, e));
    steps := [e] + rest;
    assert steps[1..] == rest;
  }
}
