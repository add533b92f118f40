/**
 The system side of a socket: a script, chosen freely, of what each read and write call will do.
 A script that has run out stands for a closed connection.
 */
module Kernels {
  import opened Text
  import opened Buffers

  datatype ReadEvent = Arrives(bytes: string) | ReadFails(failure: Failure)
  datatype WriteEvent = Accepts(n: nat) | WriteFails(failure: Failure)

  /** EINTR, EWOULDBLOCK, or any other errno; the last one may even be EINVAL. */
  datatype Failure = Interrupted | WouldBlock | Broken(errno: Errno)

  /** What read(2) and write(2) return: a byte count or -1. */
  datatype Result = Moved(n: nat) | Failed(failure: Failure)

  function ErrnoOf(f: Failure): Errno {
    if f.Broken? then f.errno else Other
  }

  function Weight(script: seq<ReadEvent>): nat {
    if script == [] then 0
    else Weight(script[1..]) + match script[0]
                               case Arrives(bytes) => 1 + |bytes|
                               case ReadFails(_) => 1
  }

  // ---------------------------------------------------------------- what the script determines

  datatype Reading = Reading(result: Result, bytes: string, script: seq<ReadEvent>, errno: Errno)

  /** One read of up to `want` bytes. No bytes without a failure means the end of the stream. */
  function ReadOne(script: seq<ReadEvent>, want: nat, errno: Errno): (r: Reading)
    requires want > 0
    ensures |r.bytes| <= want && r.result.Moved? == (r.result == Moved(|r.bytes|))
    ensures r.result.Failed? ==> r.bytes == ""
    ensures Weight(r.script) + |r.bytes| <= Weight(script)
    ensures if script == [] then r.result == Moved(0) else Weight(r.script) < Weight(script)
  {
    if script == [] then Reading(Moved(0), "", [], errno)
    else
      match script[0]
      case ReadFails(f) => Reading(Failed(f), "", script[1..], ErrnoOf(f))
      case Arrives(bytes) =>
        if |bytes| <= want then Reading(Moved(|bytes|), bytes, script[1..], errno)
        else
          var left := [Arrives(bytes[want..])] + script[1..];
          assert left[1..] == script[1..];
          Reading(Moved(want), bytes[..want], left, errno)
  }

  /** Reads until the loop of Link::read ends: what it returns, and what has been read. */
  datatype Run = Run(ret: int, bytes: string, script: seq<ReadEvent>, errno: Errno) {
    function After(first: string): Run {
      this.(bytes := first + bytes)
    }
  }

  function ReadMany(script: seq<ReadEvent>, space: nat, noblock: bool, errno: Errno, ret: nat): Run
    decreases Weight(script)
  {
    if space == 0 then Run(ret, "", script, errno)
    else
      var r := ReadOne(script, space, errno);
      match r.result
      case Failed(Interrupted) => ReadMany(r.script, space, noblock, r.errno, ret)
      case Failed(WouldBlock) => Run(ret, "", r.script, r.errno)
      case Failed(Broken(_)) => Run(-1, "", r.script, r.errno)
      case Moved(n) =>
        if n == 0 then Run(0, "", r.script, r.errno)
        else if !noblock then Run(ret + n, r.bytes, r.script, r.errno)
        else ReadMany(r.script, space - n, noblock, r.errno, ret + n).After(r.bytes)
  }

  lemma {:induction false} ReadManyBounds(script: seq<ReadEvent>, space: nat, noblock: bool, errno: Errno, ret: nat)
    ensures var run := ReadMany(script, space, noblock, errno, ret);
            && |run.bytes| <= space
            && Weight(run.script) + |run.bytes| <= Weight(script)
            && (run.ret > 0 ==> run.ret == ret + |run.bytes|)
            && (run.ret <= 0 && !noblock ==> run.bytes == "")
    decreases Weight(script)
  {
    hide ReadOne, Weight;
    if space > 0 {
      var r := ReadOne(script, space, errno);
      match r.result
      case Failed(Interrupted) => ReadManyBounds(r.script, space, noblock, r.errno, ret);
      case Moved(n) =>
        if n > 0 && noblock {
          ReadManyBounds(r.script, space - n, noblock, r.errno, ret + n);
        }
      case _ =>
    }
  }

  /** Nothing in the script but arrivals and failures other than EINTR. */
  predicate Uninterrupted(script: seq<ReadEvent>) {
    forall i :: 0 <= i < |script| ==> script[i] != ReadFails(Interrupted)
  }

  lemma ReadOneErrno(script: seq<ReadEvent>, want: nat, errno: Errno)
    requires want > 0
    ensures var r := ReadOne(script, want, errno);
            && (r.result.Moved? ==> r.errno == errno)
            && (r.result.Failed? && !r.result.failure.Broken? ==> r.errno == Other)
            && (Uninterrupted(script) ==> Uninterrupted(r.script) && r.result != Failed(Interrupted))
  {
  }

  /** A read that returns bytes leaves errno alone, or sets it to EINTR or EWOULDBLOCK. */
  lemma {:induction false} ReadManyErrno(script: seq<ReadEvent>, space: nat, noblock: bool, errno: Errno, ret: nat)
    ensures var run := ReadMany(script, space, noblock, errno, ret);
            && (run.ret > 0 ==> KeptOrMasked(errno, run.errno))
            && (Uninterrupted(script) ==> Uninterrupted(run.script))
            && (Uninterrupted(script) && !noblock && ret == 0 && run.ret > 0 ==> run.errno == errno)
    decreases Weight(script)
  {
    hide ReadOne, Weight, Uninterrupted;
    if space > 0 {
      ReadOneErrno(script, space, errno);
      var r := ReadOne(script, space, errno);
      match r.result
      case Failed(Interrupted) => ReadManyErrno(r.script, space, noblock, r.errno, ret);
      case Moved(n) =>
        if n > 0 && noblock {
          ReadManyErrno(r.script, space - n, noblock, r.errno, ret + n);
        }
      case _ =>
    }
  }

  /** The script delivers exactly `bytes`, uninterrupted by EWOULDBLOCK, and then ends or fails. */
  predicate BreaksOffAfter(script: seq<ReadEvent>, bytes: string) {
    if script == [] then bytes == ""
    else
      match script[0]
      case Arrives(b) =>
        if b == "" then bytes == "" else b <= bytes && BreaksOffAfter(script[1..], bytes[|b|..])
      case ReadFails(Interrupted) => BreaksOffAfter(script[1..], bytes)
      case ReadFails(WouldBlock) => false
      case ReadFails(Broken(_)) => bytes == ""
  }

  /**
   The loop of Link::read returns no count although it has read something, exactly on a
   non-blocking link when the end of the stream, or an error, follows the bytes without a pause
   and before the buffer is full.
   */
  lemma CountDroppedIff(script: seq<ReadEvent>, space: nat, noblock: bool, errno: Errno, bytes: string)
    ensures var run := ReadMany(script, space, noblock, errno, 0);
            (run.ret <= 0 && run.bytes == bytes != "")
            <==> noblock && bytes != "" && |bytes| < space && BreaksOffAfter(script, bytes)
  {
    if noblock {
      BreaksOff(script, space, errno, 0, bytes);
    } else {
      ReadManyBounds(script, space, noblock, errno, 0);
    }
  }

  lemma {:induction false} BreaksOff(script: seq<ReadEvent>, space: nat, errno: Errno, ret: nat, bytes: string)
    ensures var run := ReadMany(script, space, true, errno, ret);
            (ret > 0 || bytes != "") ==>
              ((run.ret <= 0 && run.bytes == bytes) <==> |bytes| < space && BreaksOffAfter(script, bytes))
    decreases Weight(script)
  {
    if space > 0 && script != [] {
      var r := ReadOne(script, space, errno);
      match script[0]
      case ReadFails(f) =>
        if f == Interrupted {
          BreaksOff(r.script, space, r.errno, ret, bytes);
        }
      case Arrives(b) =>
        if b != "" {
          ArrivalStep(script, space, errno, ret, bytes);
        }
    }
  }

  lemma ArrivalStep(script: seq<ReadEvent>, space: nat, errno: Errno, ret: nat, bytes: string)
    requires space > 0 && script != [] && script[0].Arrives? && script[0].bytes != ""
    ensures var run := ReadMany(script, space, true, errno, ret);
            (run.ret <= 0 && run.bytes == bytes) <==> |bytes| < space && BreaksOffAfter(script, bytes)
    decreases Weight(script), 0
  {
    hide ReadMany, Weight;
    var b := script[0].bytes;
    LongArrival(script, bytes);
    if |b| < space {
      ShortArrival(script, space, errno, ret);
      var more := ReadMany(script[1..], space - |b|, true, errno, ret + |b|);
      BreaksOff(script[1..], space - |b|, errno, ret + |b|, if b <= bytes then bytes[|b|..] else "");
      Appended(b, more.bytes, bytes);
    } else {
      FullBuffer(script, space, errno, ret);
    }
  }

  lemma ShortArrival(script: seq<ReadEvent>, space: nat, errno: Errno, ret: nat)
    requires script != [] && script[0].Arrives? && 0 < |script[0].bytes| < space
    ensures var b := script[0].bytes;
            && Weight(script[1..]) < Weight(script)
            && ReadMany(script, space, true, errno, ret)
               == ReadMany(script[1..], space - |b|, true, errno, ret + |b|).After(b)
  {
  }

  lemma Appended(b: string, more: string, bytes: string)
    ensures b + more == bytes <==> b <= bytes && more == bytes[|b|..]
  {
    if b <= bytes {
      assert bytes == b + bytes[|b|..];
    }
  }

  lemma FullBuffer(script: seq<ReadEvent>, space: nat, errno: Errno, ret: nat)
    requires space > 0 && script != [] && script[0].Arrives? && |script[0].bytes| >= space
    ensures ReadMany(script, space, true, errno, ret).ret > 0
  {
    var r := ReadOne(script, space, errno);
    assert r.result == Moved(space);
    assert ReadMany(r.script, 0, true, r.errno, ret + space).ret == ret + space;
  }

  lemma LongArrival(script: seq<ReadEvent>, bytes: string)
    requires script != [] && script[0].Arrives? && script[0].bytes != ""
    ensures BreaksOffAfter(script, bytes) ==> |bytes| >= |script[0].bytes|
  {
  }

  /** The first event of a script that is not an interruption. */
  function FirstEvent(script: seq<ReadEvent>): ReadEvent {
    if script == [] then Arrives("")
    else if script[0] == ReadFails(Interrupted) then FirstEvent(script[1..])
    else script[0]
  }

  /**
   What Link::read returns on a blocking link with room for something: -1 for an error, 0 for the end
   and for EWOULDBLOCK, and otherwise the number of bytes, as many as fit.
   */
  lemma {:induction false} BlockingReadReturns(script: seq<ReadEvent>, space: nat, errno: Errno)
    requires space > 0
    ensures ReadMany(script, space, false, errno, 0).ret ==
            match FirstEvent(script)
            case Arrives(bytes) => if |bytes| <= space then |bytes| else space
            case ReadFails(Broken(_)) => -1
            case ReadFails(_) => 0
    decreases |script|
  {
    if script != [] && script[0] == ReadFails(Interrupted) {
      BlockingReadReturns(script[1..], space, Other);
    }
  }

  // ---------------------------------------------------------------- writing

  datatype Writing = Writing(result: Result, taken: nat, script: seq<WriteEvent>, errno: Errno)

  /** One write of `size` bytes, of which the first `taken` are accepted. */
  function WriteOne(script: seq<WriteEvent>, size: nat, errno: Errno): (w: Writing)
    ensures w.taken <= size && (w.result.Moved? ==> w.result == Moved(w.taken))
    ensures w.result.Failed? ==> w.taken == 0
    ensures |w.script| < |script| || (script == w.script == [] && w.result == Failed(Broken(Other)))
  {
    if script == [] then Writing(Failed(Broken(Other)), 0, [], Other)
    else
      match script[0]
      case WriteFails(f) => Writing(Failed(f), 0, script[1..], ErrnoOf(f))
      case Accepts(n) =>
        var m := if n < size then n else size;
        Writing(Moved(m), m, script[1..], errno)
  }

  /** Writes until the loop of Link::write ends: what it returns, and how many bytes have gone. */
  datatype Delivery = Delivery(ret: int, taken: nat, script: seq<WriteEvent>, errno: Errno) {
    function After(first: nat): Delivery {
      this.(taken := first + taken)
    }
  }

  function WriteMany(script: seq<WriteEvent>, size: nat, noblock: bool, errno: Errno, ret: nat): Delivery
    decreases |script|
  {
    if size == 0 then Delivery(ret, 0, script, errno)
    else
      var w := WriteOne(script, size, errno);
      match w.result
      case Failed(Interrupted) => WriteMany(w.script, size, noblock, w.errno, ret)
      case Failed(WouldBlock) => Delivery(ret, 0, w.script, w.errno)
      case Failed(Broken(_)) => Delivery(-1, 0, w.script, w.errno)
      case Moved(n) =>
        if n == 0 then Delivery(ret, 0, w.script, w.errno)
        else if !noblock then Delivery(ret + n, n, w.script, w.errno)
        else WriteMany(w.script, size - n, noblock, w.errno, ret + n).After(n)
  }

  /** How many bytes the system is ready to take before the connection breaks, in as many calls as it needs. */
  function Capacity(script: seq<WriteEvent>): nat {
    if script == [] then 0
    else
      match script[0]
      case Accepts(n) => n + Capacity(script[1..])
      case WriteFails(Broken(_)) => 0
      case WriteFails(_) => Capacity(script[1..])
  }

  lemma CapacityStep(script: seq<WriteEvent>, size: nat, errno: Errno)
    ensures var w := WriteOne(script, size, errno);
            if w.result.Failed? && w.result.failure.Broken? then Capacity(script) == 0
            else if w.taken == size then Capacity(script) >= size
            else Capacity(script) == w.taken + Capacity(w.script)
  {
  }

  /** A call of Link::write fails exactly when the connection breaks before everything has gone. */
  lemma {:induction false} WriteManyTakes(script: seq<WriteEvent>, size: nat, noblock: bool, errno: Errno, ret: nat)
    ensures var d := WriteMany(script, size, noblock, errno, ret);
            && d.taken <= size && (d.ret == -1 || d.ret == ret + d.taken)
            && (d.ret == -1 ==> d.taken == Capacity(script) < size)
            && (d.ret != -1 ==> if d.taken == size then Capacity(script) >= size
                                else Capacity(script) == d.taken + Capacity(d.script))
            && (d.ret != -1 && size > 0 ==> |d.script| < |script|)
    decreases |script|
  {
    hide WriteOne, Capacity;
    if size > 0 {
      CapacityStep(script, size, errno);
      var w := WriteOne(script, size, errno);
      match w.result
      case Failed(Interrupted) => WriteManyTakes(w.script, size, noblock, w.errno, ret);
      case Moved(n) =>
        if n > 0 && noblock {
          WriteManyTakes(w.script, size - n, noblock, w.errno, ret + n);
        }
      case _ =>
    }
  }

  class Kernel {
    var errno: Errno
    var incoming: seq<ReadEvent>
    var outgoing: seq<WriteEvent>
    ghost var received: string   // every byte that a read has handed out
    ghost var sent: string       // every byte that a write has accepted
    ghost var stopped: bool      // the latest read gave no bytes, and was not just interrupted

    constructor (incoming: seq<ReadEvent>, outgoing: seq<WriteEvent>)
      ensures this.incoming == incoming && this.outgoing == outgoing
      ensures errno == Clear && received == "" && sent == "" && !stopped
    {
      errno, this.incoming, this.outgoing := Clear, incoming, outgoing;
      received, sent, stopped := "", "", false;
    }

    /** Does what the script says, and reports it. */
    method Read(mem: array<char>, slot: nat, want: nat) returns (r: Result)
      requires want > 0 && slot + want <= mem.Length
      modifies this`errno, this`incoming, this`received, this`stopped, mem
      ensures var e := ReadOne(old(incoming), want, old(errno));
              && r == e.result && incoming == e.script && errno == e.errno
              && received == old(received) + e.bytes
              && slot + |e.bytes| <= mem.Length && mem[slot..slot + |e.bytes|] == e.bytes
      ensures mem[..slot] == old(mem[..slot])
      ensures mem[..] == Put(old(mem[..]), slot, ReadOne(old(incoming), want, old(errno)).bytes)
      ensures stopped <==> if r.Moved? then r.n == 0 else r.failure != Interrupted
    {
      if incoming == [] {
        stopped := true;
        PutNothing(mem[..], slot);
        assert mem[slot..slot + 0] == "" && received + "" == received;
        return Moved(0);
      }
      match incoming[0] {
        case Arrives(bytes) =>
          var n := if |bytes| <= want then |bytes| else want;
          Store(mem, slot, bytes[..n]);
          received := received + bytes[..n];
          stopped := n == 0;
          if n == |bytes| {
            assert bytes[..n] == bytes;
            incoming := incoming[1..];
          } else {
            incoming := [Arrives(bytes[n..])] + incoming[1..];
          }
          r := Moved(n);
        case ReadFails(f) =>
          incoming := incoming[1..];
          errno := ErrnoOf(f);
          stopped := f != Interrupted;
          r := Failed(f);
          PutNothing(mem[..], slot);
          assert mem[slot..slot + 0] == "" && received + "" == received;
      }
    }

    method Write(data: string) returns (r: Result)
      requires data != ""
      modifies this`errno, this`outgoing, this`sent
      ensures var w := WriteOne(old(outgoing), |data|, old(errno));
              r == w.result && outgoing == w.script && errno == w.errno && sent == old(sent) + data[..w.taken]
    {
      assert sent + data[..0] == sent;
      if outgoing == [] {
        errno := Other;
        return Failed(Broken(Other));
      }
      match outgoing[0] {
        case Accepts(n) =>
          var m := if n < |data| then n else |data|;
          sent := sent + data[..m];
          r := Moved(m);
        case WriteFails(f) =>
          errno := ErrnoOf(f);
          r := Failed(f);
      }
      outgoing := outgoing[1..];
    }
  }
}
