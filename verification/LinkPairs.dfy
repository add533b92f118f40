/**
 Two Link objects, the output of one joined to the input of the other: what their methods do is what
 the transition system says, step by step.
 */
module LinkPairs {
  import opened Text
  import opened Buffers
  import opened Framing
  import opened Kernels
  import opened Serving
  import opened Links
  import opened Fifo

  class LinkPair {
    const sender: Link
    const receiver: Link
    ghost var sent: seq<seq<string>>
    ghost var received: seq<seq<string>>

    /** Two links as their constructor leaves them, on sockets over which nothing has gone yet. */
    constructor (sender: Link, receiver: Link)
      requires sender.Valid() && receiver.Valid() && sender != receiver && sender.kernel != receiver.kernel
      requires sender.output != receiver.input && sender.output.buf != receiver.input.buf
      requires sender.redis == null && receiver.redis == null
      requires sender.output.View() == receiver.input.View() == Window(0, ZERO_BUFFER_SIZE, "")
      requires sender.kernel.sent == "" == receiver.kernel.received
      ensures this.sender == sender && this.receiver == receiver
      ensures Valid() && State() == Init() && Inv(State())
    {
      this.sender, this.receiver, sent, received := sender, receiver, [], [];
    }

    /** The two links share nothing but the bytes: what one has read, the other has written before. */
    ghost predicate Valid()
      reads this, sender, receiver, sender.input, sender.output, receiver.input, receiver.output
      reads sender.kernel, receiver.kernel
    {
      && sender.Valid() && receiver.Valid() && sender != receiver && sender.kernel != receiver.kernel
      && sender.output != receiver.input && sender.output.buf != receiver.input.buf
      && sender.redis == null && receiver.redis == null
      && receiver.kernel.received <= sender.kernel.sent
    }

    /** Written, and not yet read. */
    ghost function Channel(): string
      requires Valid()
      reads this, sender, receiver, sender.input, sender.output, receiver.input, receiver.output
      reads sender.kernel, receiver.kernel
    {
      sender.kernel.sent[|receiver.kernel.received|..]
    }

    ghost function State(): System
      requires Valid()
      reads this, sender, receiver, sender.input, sender.output, receiver.input, receiver.output
      reads sender.kernel, receiver.kernel, sender.output.buf, receiver.input.buf
    {
      System(sender.output.View(), Channel(), receiver.input.View(), sent, received, false)
    }

    method Send(packet: seq<string>)
      requires Valid() && Inv(State()) && Sendable(packet)
      modifies this, sender.output, sender.output.buf
      ensures Valid() && State() == Next(old(State()), Step.Send(packet)) && Inv(State())
    {
      hide Inv, SendWindow;
      NextKeepsInv(State(), Step.Send(packet));
      var _ := sender.Send(packet);
      sent := sent + [packet];
    }

    /** What has been written is in the channel. */
    method WriteToChannel() returns (ret: int, ghost n: nat)
      requires Valid()
      modifies sender.output, sender.output.buf, sender.kernel
      ensures Valid() && n <= |old(sender.output.Contents())|
      ensures sender.output.View() == if ret == -1 then Awake(old(sender.output.View())).Decr(n)
                                      else WrittenWindow(old(sender.output.View()), n)
      ensures Channel() == old(Channel()) + old(sender.output.Contents())[..n]
    {
      hide WrittenWindow, Awake, Window.Decr, WriteMany;
      ghost var start, out := sender.kernel.sent, sender.output.Contents();
      ret, n := sender.Write();
      Behind(start, out[..n], |receiver.kernel.received|);
    }

    method Write() returns (ret: int, ghost n: nat)
      requires Valid() && Inv(State())
      modifies sender.output, sender.output.buf, sender.kernel
      ensures Valid() && n <= |old(sender.output.Contents())|
      ensures State() == Next(old(State()), Step.Write(n, ret == -1)) && Inv(State())
    {
      hide Inv, Next, WrittenWindow, Awake, Window.Decr;
      ghost var s := State();
      ret, n := WriteToChannel();
      WriteIs(s, n, ret == -1);
    }

    /** A read hands out what is in the channel, however much of it. */
    method Read() returns (ret: int, ghost chunk: string)
      requires Valid() && Inv(State())
      requires ReadInto(receiver.input.View(), receiver.kernel.incoming, receiver.noblock,
                        receiver.kernel.errno).bytes <= Channel()
      modifies receiver.input, receiver.input.buf, receiver.kernel
      ensures Valid() && Enabled(old(State()), Step.Read(|chunk|))
      ensures State() == Next(old(State()), Step.Read(|chunk|)) && Inv(State())
    {
      hide Inv, ReadableWindow, ReadMany;
      ghost var s, start := State(), |receiver.kernel.received|;
      ret, chunk := receiver.Read();
      NextKeepsInv(s, Step.Read(|chunk|));
    }

    /** A packet is the next one that has not been received; nothing ever fails. */
    method Recv() returns (ok: bool)
      requires Valid() && Inv(State())
      modifies this`received, receiver`recvData, receiver`redis, receiver.input, receiver.input.buf
      modifies receiver.kernel`errno
      ensures Valid() && ok && State() == Next(old(State()), Step.Recv) && Inv(State())
    {
      hide Inv, Next, Receive, AllWithin, Strings;
      RecvIs(State(), receiver.kernel.errno);
      ok := receiver.Recv();
      if ok && receiver.recvData != [] {
        received := received + [Strings(receiver.recvData, receiver.input.buf[..])];
      }
    }
  }

  lemma WriteIs(s: System, n: nat, failed: bool)
    requires Inv(s) && n <= |s.output.contents|
    ensures Inv(Next(s, Write(n, failed)))
    ensures Next(s, Write(n, failed))
         == s.(output := if failed then Awake(s.output).Decr(n) else WrittenWindow(s.output, n),
               channel := s.channel + s.output.contents[..n])
  {
    hide WrittenWindow, Awake, EncodeAll;
    NextKeepsInv(s, Write(n, failed));
  }

  /** In every reachable state recv succeeds, and takes the input for a native packet. */
  lemma RecvIs(s: System, errno: Errno)
    requires Inv(s)
    ensures !Starred(s.input.contents) && Inv(Next(s, Recv))
    ensures var r := Receive(s.input, errno);
            && r.ok && r.errno == errno
            && Next(s, Recv) == s.(input := r.window,
                                   received := if r.texts == [] then s.received else s.received + [r.texts])
  {
    hide Parse, EncodeAll, Window.Reclaim;
    NextKeepsInv(s, Recv);
    ParseBounds(s.input.contents);
  }

  lemma Behind(a: string, b: string, n: nat)
    requires n <= |a|
    ensures (a + b)[n..] == a[n..] + b
  {
  }
}
