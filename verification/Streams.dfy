/**
 A receiver that calls recv until it asks for more, fed with one chunk of bytes at a time.
 The chunks are arbitrary bytes, well-formed or not.
 */
module Streams {
  import opened Framing

  /** Waiting for bytes, failed for good, or handed over to the Redis parser by a leading '*'. */
  datatype Mode = Waiting | Failed | Redis

  datatype Receiver = Receiver(packets: seq<seq<string>>, rest: string, mode: Mode) {

    function After(first: seq<seq<string>>): Receiver {
      this.(packets := first + packets)
    }

    function Receive(chunk: string): Receiver {
      if mode == Waiting then Drain(rest + chunk).After(packets) else this.(rest := rest + chunk)
    }
  }

  function Drain(s: string): Receiver
    decreases |s|
  {
    if s == "" then Receiver([], s, Waiting)
    else if Starred(s) then Receiver([], s, Redis)
    else
      match Parse(s)
      case NotReady => Receiver([], s, Waiting)
      case Error => Receiver([], s, Failed)
      case Packet(records, n) =>
        ParseBounds(s);
        Drain(s[n..]).After([records])
  }

  function ReceiveAll(r: Receiver, chunks: seq<string>): Receiver
    decreases |chunks|
  {
    if chunks == [] then r else ReceiveAll(r.Receive(chunks[0]), chunks[1..])
  }

  function Joined(chunks: seq<string>): string {
    if chunks == [] then "" else chunks[0] + Joined(chunks[1..])
  }

  lemma {:induction false} DrainExtends(s: string, t: string)
    ensures Drain(s + t) == Drain(s).Receive(t)
    decreases |s|
  {
    hide Parse;
    if s == "" {
      assert s + t == t;
    } else {
      assert (s + t)[0] == s[0];
      if s[0] != '*' && Parse(s) != NotReady {
        ParseStable(s, t);
        if Parse(s).Packet? {
          var n := Parse(s).consumed;
          ParseBounds(s);
          assert (s + t)[n..] == s[n..] + t;
          DrainExtends(s[n..], t);
        }
      }
    }
  }

  lemma {:induction false} ReceiveAllIsDrain(s: string, chunks: seq<string>)
    ensures ReceiveAll(Drain(s), chunks) == Drain(s + Joined(chunks))
    decreases |chunks|
  {
    hide Drain, Receiver.Receive;
    if chunks == [] {
      assert s + "" == s;
    } else {
      DrainExtends(s, chunks[0]);
      ReceiveAllIsDrain(s + chunks[0], chunks[1..]);
      assert s + Joined(chunks) == s + chunks[0] + Joined(chunks[1..]);
    }
  }

  /** However a stream is cut into reads, the receiver ends with the same packets, rest and mode. */
  lemma FragmentationIndependence(chunks: seq<string>, chunks': seq<string>)
    requires Joined(chunks) == Joined(chunks')
    ensures ReceiveAll(Drain(""), chunks) == ReceiveAll(Drain(""), chunks')
    ensures ReceiveAll(Drain(""), chunks) == Drain(Joined(chunks))
  {
    ReceiveAllIsDrain("", chunks);
    ReceiveAllIsDrain("", chunks');
    assert "" + Joined(chunks) == Joined(chunks);
  }
}
