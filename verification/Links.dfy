/** class Link of src/net/link.h and link.cpp: buffered reading, writing and packet framing. */
module Links {
  import opened Text
  import opened Buffers
  import opened Framing
  import opened Kernels
  import opened RedisLinks
  import opened Serving
  import RedisRequests
  import opened RedisCommands
  import RedisReplies

  class Link {
    const kernel: Kernel
    const noblock: bool
    const input: Buffer
    const output: Buffer
    var recvData: seq<Bytes>
    var redis: RedisLink?

    ghost predicate Valid()
      reads this, input, output
    {
      && input.Valid() && output.Valid() && input != output && input.buf != output.buf
      && input.total >= ZERO_BUFFER_SIZE
    }

    constructor (kernel: Kernel, noblock: bool)
      ensures Valid() && fresh(input) && fresh(output) && fresh(input.buf) && fresh(output.buf)
      ensures this.kernel == kernel && this.noblock == noblock && redis == null && recvData == []
      ensures input.View() == output.View() == Window(0, ZERO_BUFFER_SIZE, "")
    {
      this.kernel, this.noblock := kernel, noblock;
      recvData, redis := [], null;
      var i := new Buffer(ZERO_BUFFER_SIZE);
      var o := new Buffer(ZERO_BUFFER_SIZE);
      input, output := i, o;
    }

    // ---------------------------------------------------------------- sending

    method SendRecords(packet: seq<string>)
      requires Valid() && Representable(packet)
      modifies output, output.buf
      ensures Valid() && (output.buf == old(output.buf) || fresh(output.buf))
      ensures output.View() == SendWindow(old(output.View()), packet)
    {
      hide Window.AppendRecord, Window.Append;
      for i := 0 to |packet|
        invariant Valid() && (output.buf == old(output.buf) || fresh(output.buf))
        invariant AppendRecords(output.View(), packet[i..]) == AppendRecords(old(output.View()), packet)
      {
        assert packet[i..][1..] == packet[i + 1..];
        var _ := output.AppendRecord(packet[i]);
      }
      var _ := output.Append("\n");
    }

    /** The native path appends the packet; once a Redis request has been seen, replies go out as RESP. */
    method Send(packet: seq<string>) returns (ret: int)
      requires Valid() && Representable(packet)
      requires redis != null ==> RedisReplies.InRange(redis.reqDesc, redis.recvString, packet)
      modifies output, output.buf
      ensures Valid() && (output.buf == old(output.buf) || fresh(output.buf)) && ret == 0
      ensures packet != [] && redis == null ==> output.View() == SendWindow(old(output.View()), packet)
      ensures packet == [] ==> output.View() == old(output.View())
      ensures redis != null ==>
                output.Contents() == old(output.Contents())
                                     + RedisReplies.Respond(redis.reqDesc, redis.recvString, packet)
    {
      hide RedisReplies.OkText;
      ret := 0;
      if packet == [] {
        return;
      }
      if redis != null {
        redis.SendResp(output, packet);
        return;
      }
      SendRecords(packet);
    }

    // ---------------------------------------------------------------- read, write, flush

    /** One ::read into the free space of the input buffer, and the incr() that goes with it. */
    method ReadOnce() returns (r: Result, ghost chunk: string)
      requires Valid() && input.Space() > 0
      modifies input, input.buf, kernel
      ensures Valid() && input.buf == old(input.buf) && kernel.sent == old(kernel.sent)
      ensures ReadOne(old(kernel.incoming), old(input.Space()), old(kernel.errno))
           == Reading(r, chunk, kernel.incoming, kernel.errno)
      ensures input.View() == old(input.View()).Incr(chunk)
      ensures input.buf[..] == Put(old(input.buf[..]), old(input.off + input.size), chunk)
      ensures kernel.received == old(kernel.received) + chunk
      ensures kernel.stopped <==> if r.Moved? then r.n == 0 else r.failure != Interrupted
    {
      ghost var slot := input.off + input.size;
      chunk := ReadOne(kernel.incoming, input.Space(), kernel.errno).bytes;
      r := kernel.Read(input.buf, input.off + input.size, input.Space());
      assert input.Contents() == old(input.Contents()) by {
        assert input.Contents() == input.buf[..slot][input.off..];
      }
      if r.Moved? {
        assert r.n == |chunk|;
        input.Incr(r.n);
      } else {
        IncrNothing(input.View());
      }
    }

    /** `chunk` has been read since the window was `w` and the memory `mem`. */
    ghost predicate HasRead(w: Window, mem: string, chunk: string)
      reads this, input, input.buf, output
    {
      && Valid() && w.Valid() && |chunk| <= w.Space() && |mem| == w.total
      && input.View() == w.Incr(chunk)
      && input.buf[..] == Put(mem, w.off + |w.contents|, chunk)
    }

    lemma NothingRead()
      requires Valid()
      ensures HasRead(input.View(), input.buf[..], "")
    {
      IncrNothing(input.View());
      PutNothing(input.buf[..], input.off + input.size);
    }

    /** One ReadOnce, after `chunk` has been read. */
    method ReadMore(ghost w: Window, ghost mem: string, ghost chunk: string)
      returns (r: Result, ghost more: string)
      requires HasRead(w, mem, chunk) && input.Space() > 0
      modifies input, input.buf, kernel
      ensures input.buf == old(input.buf) && kernel.sent == old(kernel.sent)
      ensures Valid() && HasRead(w, mem, chunk + more)
      ensures input.Space() == old(input.Space()) - |more|
      ensures ReadOne(old(kernel.incoming), old(input.Space()), old(kernel.errno))
           == Reading(r, more, kernel.incoming, kernel.errno)
      ensures kernel.received == old(kernel.received) + more
      ensures kernel.stopped <==> if r.Moved? then r.n == 0 else r.failure != Interrupted
    {
      hide ReadOne, Put;
      r, more := ReadOnce();
      IncrTwice(w, chunk, more);
      PutTwice(mem, w.off + |w.contents|, chunk, more);
    }

    method ReadLoop() returns (ret: int, ghost chunk: string)
      requires Valid()
      modifies input, input.buf, kernel
      ensures Valid() && HasRead(old(input.View()), old(input.buf[..]), chunk) && input.buf == old(input.buf)
      ensures kernel.sent == old(kernel.sent) && kernel.received == old(kernel.received) + chunk
      ensures ReadMany(old(kernel.incoming), old(input.Space()), noblock, old(kernel.errno), 0)
           == Run(ret, chunk, kernel.incoming, kernel.errno)
      ensures ret <= 0 && old(input.Space()) > 0 ==> kernel.stopped
    {
      hide Weight, ReadOne, ReadMany, Run.After, HasRead, Put, Window.Incr;
      ret, chunk := 0, "";
      ghost var w, mem, before := input.View(), input.buf[..], kernel.received;
      ghost var run := ReadMany(kernel.incoming, input.Space(), noblock, kernel.errno, 0);
      NothingRead();
      AfterNothingRead(run);
      while input.Space() > 0
        invariant Valid() && HasRead(w, mem, chunk) && input.buf == old(input.buf)
        invariant kernel.sent == old(kernel.sent) && kernel.received == before + chunk
        invariant |chunk| == ret && input.Space() == w.Space() - ret
        invariant run == ReadMany(kernel.incoming, input.Space(), noblock, kernel.errno, ret).After(chunk)
        invariant !noblock ==> ret == 0
        decreases Weight(kernel.incoming)
      {
        ReadPass(kernel.incoming, input.Space(), noblock, kernel.errno, ret, chunk);
        var r, more := ReadMore(w, mem, chunk);
        chunk := chunk + more;
        match r {
          case Failed(Interrupted) =>
            continue;
          case Failed(WouldBlock) =>
            break;
          case Failed(Broken(_)) =>
            return -1, chunk;
          case Moved(len) =>
            if len == 0 {
              return 0, chunk;
            }
            ret := ret + len;
        }
        if !noblock {
          break;
        }
      }
      ReadPass(kernel.incoming, input.Space(), noblock, kernel.errno, ret, chunk);
    }

    /** What Link::read does to the buffer before its loop. */
    method MakeReadable()
      requires Valid()
      modifies input, input.buf
      ensures Valid() && (input.buf == old(input.buf) || fresh(input.buf))
      ensures input.View() == ReadableWindow(old(input.View()))
      ensures old(input.total) != ZERO_BUFFER_SIZE ==>
                && input.buf == old(input.buf) && input.total == old(input.total)
                && input.buf[..] == AfterNice(old(input.buf[..]), old(input.off), old(input.size))
    {
      hide Window.Nice, Window.Grow, AfterNice;
      if input.total == ZERO_BUFFER_SIZE {
        var _ := input.Grow();
      }
      input.Nice();
    }

    /**
     Whatever the system calls do, exactly the bytes that the script delivers are appended to the
     contents, in order. A count that is not positive means that the last call stopped, never that
     there was no room.
     */
    method Read() returns (ret: int, ghost chunk: string)
      requires Valid()
      modifies input, input.buf, kernel
      ensures Valid() && (input.buf == old(input.buf) || fresh(input.buf))
      ensures kernel.sent == old(kernel.sent) && kernel.received == old(kernel.received) + chunk
      ensures ReadInto(old(input.View()), old(kernel.incoming), noblock, old(kernel.errno))
           == Run(ret, chunk, kernel.incoming, kernel.errno)
      ensures |chunk| <= ReadableWindow(old(input.View())).Space()
      ensures input.View() == ReadableWindow(old(input.View())).Incr(chunk)
      ensures old(input.total) != ZERO_BUFFER_SIZE ==>
                && input.buf == old(input.buf)
                && |chunk| <= SpaceToRead(input.total, old(input.off), old(input.size))
                && input.buf[..] == AfterRead(old(input.buf[..]), old(input.off), old(input.size), chunk)
      ensures ret <= 0 && ReadableWindow(old(input.View())).Space() > 0 ==> kernel.stopped
    {
      hide ReadMany, Window.Incr, ReadableWindow, AfterNice, Put;
      ghost var w, mem := input.View(), input.buf[..];
      if w.total != ZERO_BUFFER_SIZE {
        ReadableSlot(w);
      }
      MakeReadable();
      ret, chunk := ReadLoop();
    }

    /** One ::write of everything in the output buffer, and the decr() that goes with it. */
    method WriteOnce() returns (r: Result, ghost m: nat)
      requires Valid() && output.size > 0
      modifies output, kernel
      ensures Valid() && output.buf == old(output.buf)
      ensures kernel.received == old(kernel.received) && kernel.incoming == old(kernel.incoming)
      ensures WriteOne(old(kernel.outgoing), old(output.size), old(kernel.errno))
           == Writing(r, m, kernel.outgoing, kernel.errno)
      ensures m <= old(output.size) && output.View() == old(output.View()).Decr(m)
      ensures kernel.sent == old(kernel.sent) + Gone(old(output.View()), m)
    {
      m := WriteOne(kernel.outgoing, output.size, kernel.errno).taken;
      r := kernel.Write(output.Contents());
      if r.Moved? {
        output.Decr(r.n);
      } else {
        DecrNothing(output.View(), kernel.sent);
      }
    }

    /** `n` bytes have been written since the window was `w`, behind those in `before`. */
    ghost predicate HasWritten(w: Window, before: string, n: nat)
      reads this, input, output, output.buf, kernel
    {
      && Valid() && w.Valid() && n <= |w.contents| && output.View() == w.Decr(n)
      && kernel.sent == before + Gone(w, n)
    }

    lemma NothingWritten()
      requires Valid()
      ensures HasWritten(output.View(), kernel.sent, 0)
    {
      DecrNothing(output.View(), kernel.sent);
    }

    /** One WriteOnce, after `n` bytes have been written. */
    method WriteMore(ghost w: Window, ghost before: string, ghost n: nat) returns (r: Result, ghost m: nat)
      requires HasWritten(w, before, n) && output.size > 0
      modifies output, kernel
      ensures Valid() && output.buf == old(output.buf) && HasWritten(w, before, n + m)
      ensures kernel.received == old(kernel.received) && kernel.incoming == old(kernel.incoming)
      ensures output.size == old(output.size) - m
      ensures WriteOne(old(kernel.outgoing), old(output.size), old(kernel.errno))
           == Writing(r, m, kernel.outgoing, kernel.errno)
    {
      hide WriteOne, Gone;
      r, m := WriteOnce();
      DecrTwice(w, n, m, before);
    }

    method WriteLoop() returns (ret: int, ghost n: nat)
      requires Valid()
      modifies output, kernel
      ensures Valid() && output.buf == old(output.buf)
      ensures HasWritten(old(output.View()), old(kernel.sent), n)
      ensures kernel.received == old(kernel.received) && kernel.incoming == old(kernel.incoming)
      ensures WriteMany(old(kernel.outgoing), old(output.size), noblock, old(kernel.errno), 0)
           == Delivery(ret, n, kernel.outgoing, kernel.errno)
    {
      hide HasWritten, WriteOne, WriteMany, Delivery.After;
      ghost var w, before := output.View(), kernel.sent;
      ghost var d := WriteMany(kernel.outgoing, output.size, noblock, kernel.errno, 0);
      ret, n := 0, 0;
      NothingWritten();
      AfterNothingWritten(d);
      while output.size > 0
        invariant Valid() && output.buf == old(output.buf)
        invariant kernel.received == old(kernel.received) && kernel.incoming == old(kernel.incoming)
        invariant n == ret && HasWritten(w, before, n)
        invariant d == WriteMany(kernel.outgoing, output.size, noblock, kernel.errno, ret).After(n)
        decreases |kernel.outgoing|
      {
        WritePass(kernel.outgoing, output.size, noblock, kernel.errno, ret, n);
        var r, m := WriteMore(w, before, n);
        n := n + m;
        match r {
          case Failed(Interrupted) =>
            continue;
          case Failed(WouldBlock) =>
            break;
          case Failed(Broken(_)) =>
            return -1, n;
          case Moved(len) =>
            if len == 0 {
              break;
            }
            ret := ret + len;
        }
        if !noblock {
          break;
        }
      }
      WritePass(kernel.outgoing, output.size, noblock, kernel.errno, ret, n);
    }

    /**
     The `n` bytes that leave the buffer are the bytes that the system accepted, in order; how many
     they are, and what is returned, is what the script determines.
     */
    method Write() returns (ret: int, ghost n: nat)
      requires Valid()
      modifies output, output.buf, kernel
      ensures Valid() && (output.buf == old(output.buf) || fresh(output.buf))
      ensures kernel.received == old(kernel.received) && kernel.incoming == old(kernel.incoming)
      ensures WriteMany(old(kernel.outgoing), old(output.size), noblock, old(kernel.errno), 0)
           == Delivery(ret, n, kernel.outgoing, kernel.errno)
      ensures n <= old(output.size) && (ret == -1 || ret == n)
      ensures output.View() == if ret == -1 then Awake(old(output.View())).Decr(n)
                               else WrittenWindow(old(output.View()), n)
      ensures kernel.sent == old(kernel.sent) + old(output.Contents())[..n]
    {
      hide Window.Nice, Window.Grow, WriteMany;
      WriteManyTakes(kernel.outgoing, output.size, noblock, kernel.errno, 0);
      if output.total == ZERO_BUFFER_SIZE {
        var _ := output.Grow();
      }
      assert output.View() == Awake(old(output.View()));
      hide Awake, Window.Decr;
      ret, n := WriteLoop();
      if ret != -1 {
        output.Nice();
      }
    }

    /**
     Everything in the buffer is handed over, in order, unless the connection breaks before the
     system has taken it all - and then everything that it was ready to take.
     */
    method Flush() returns (len: int)
      requires Valid()
      modifies output, output.buf, kernel
      ensures Valid() && (output.buf == old(output.buf) || fresh(output.buf))
      ensures kernel.received == old(kernel.received) && kernel.incoming == old(kernel.incoming)
      ensures old(kernel.sent) <= kernel.sent
      ensures kernel.sent + output.Contents() == old(kernel.sent) + old(output.Contents())
      ensures len == if Capacity(old(kernel.outgoing)) < old(output.size) then -1 else old(output.size)
      ensures output.size == if len == -1 then old(output.size) - Capacity(old(kernel.outgoing)) else 0
    {
      hide WrittenWindow, Awake, WriteMany, Capacity;
      ghost var all, able := kernel.sent + output.Contents(), Capacity(kernel.outgoing);
      len := 0;
      while output.size > 0
        invariant Valid() && (output.buf == old(output.buf) || fresh(output.buf))
        invariant kernel.received == old(kernel.received) && kernel.incoming == old(kernel.incoming)
        invariant old(kernel.sent) <= kernel.sent && kernel.sent + output.Contents() == all
        invariant len + output.size == old(output.size)
        invariant if output.size > 0 then able == len + Capacity(kernel.outgoing) else able >= len
        decreases |kernel.outgoing|
      {
        WriteManyTakes(kernel.outgoing, output.size, noblock, kernel.errno, 0);
        ghost var before, contents := kernel.sent, output.Contents();
        var ret, n := Write();
        SplitAt(before, contents, n);
        assert output.View().contents == contents[n..];
        if ret == -1 {
          return -1;
        }
        len := len + ret;
      }
      assert output.Contents() == "";
    }

    // ---------------------------------------------------------------- recv

    /** recv's native path: NULL, not ready, or a packet whose views read as its records right then. */
    method RecvNative() returns (ok: bool)
      requires Valid() && input.size > 0
      modifies this`recvData, input, input.buf
      ensures Valid() && (input.buf == old(input.buf) || fresh(input.buf))
      ensures input.View() == RecvWindow(old(input.View()))
      ensures match Parse(old(input.Contents()))
              case Error => !ok
              case NotReady => ok && recvData == []
              case Packet(records, n) =>
                && ok && recvData != []
                && input.buf == old(input.buf) && input.buf[..] == old(input.buf[..])
                && AllWithin(recvData, input.buf[..]) && Strings(recvData, input.buf[..]) == records
    {
      hide Parse, SlicesOf, AllWithin, Strings, Window.Reclaim;
      ParseBounds(input.Contents());
      var ret, parsed;
      ghost var records;
      ret, parsed, recvData, records := PacketLoop(input.Contents(), input.off);
      if ret == -1 {
        return false;
      }
      if ret == 1 {
        SlicesRead(recvData, input.buf[..], input.off, input.size, records);
        input.Decr(parsed);
        return true;
      }
      input.Reclaim();
      recvData := [];
      ok := true;
    }

    /** The Redis request to which the next reply belongs. */
    ghost function Request(): Option<(Option<RequestDesc>, seq<string>)>
      reads this, redis
    {
      if redis == null then None else Some((redis.reqDesc, redis.recvString))
    }

    /** That request is still the one to be answered. */
    ghost predicate Keeps(request: Option<(Option<RequestDesc>, seq<string>)>)
      reads this, redis
    {
      request.Some? ==> Request() == request
    }

    method RecvRedis() returns (ok: bool)
      requires Valid() && input.size > 0
      modifies this`recvData, this`redis, redis, input, input.buf, kernel`errno
      ensures Valid() && (input.buf == old(input.buf) || fresh(input.buf))
      ensures redis != null && (redis == old(redis) || fresh(redis))
      ensures Handled(old(input.View()), old(kernel.errno), ok, kernel.errno, input.View(),
                      redis.reqDesc, redis.recvString, if ok then recvData else [])
      ensures !ok || recvData == [] ==> Keeps(old(Request()))
    {
      hide Handled;
      if redis == null {
        redis := new RedisLink();
      }
      var errno;
      ok, errno := redis.RecvReq(input, kernel.errno);
      kernel.errno := errno;
      if ok {
        recvData := redis.recvBytes;
      }
    }

    /** The views read as these texts, and a Redis command is kept for the reply. */
    ghost predicate Shows(texts: seq<string>, origin: Origin)
      reads this, input, input.buf, redis
    {
      && AllWithin(recvData, input.buf[..]) && Strings(recvData, input.buf[..]) == texts
      && (origin.Redis? ==>
            redis != null && redis.reqDesc == origin.desc && redis.recvString == texts
            && recvData == OwnAll(texts))
    }

    /**
     A first byte '*' switches to the Redis parser; anything else is parsed as a native packet. Either
     way the result, the buffer and errno are those of Receive, and the views read as its texts. A
     native packet moves nothing in memory; a Redis request leaves its description for the reply.
     */
    method Recv() returns (ok: bool)
      requires Valid()
      modifies this`recvData, this`redis, redis, input, input.buf, kernel`errno
      ensures Valid() && (input.buf == old(input.buf) || fresh(input.buf))
      ensures redis == old(redis) || fresh(redis)
      ensures var r := Receive(old(input.View()), old(kernel.errno));
              && ok == r.ok && input.View() == r.window && kernel.errno == r.errno
              && (ok ==> Shows(r.texts, r.origin) && (recvData == [] <==> r.texts == []))
      ensures !Starred(old(input.Contents())) ==> redis == old(redis)
      ensures !Starred(old(input.Contents())) || !ok || recvData == [] ==> Keeps(old(Request()))
      ensures !Starred(old(input.Contents())) && ok && recvData != [] ==>
                input.buf == old(input.buf) && input.buf[..] == old(input.buf[..])
      ensures Starred(old(input.Contents())) ==>
                && redis != null
                && Handled(old(input.View()), old(kernel.errno), ok, kernel.errno, input.View(),
                           redis.reqDesc, redis.recvString, if ok then recvData else [])
    {
      hide Parse, Handled, ReceiveRedis, Window.Reclaim, AllWithin, Strings;
      recvData := [];
      NoViews(input.buf[..]);
      if input.size == 0 {
        return true;
      }
      var data := input.Contents();
      if data[0] == '*' {
        ok := RecvRedis();
        HandledReceives(old(input.View()), old(kernel.errno), ok, kernel.errno, input.View(),
                        redis.reqDesc, redis.recvString, if ok then recvData else []);
        OwnedWithin(redis.recvString, input.buf[..]);
        NoViews(input.buf[..]);
      } else {
        ParseBounds(data);
        ok := RecvNative();
        NoViews(input.buf[..]);
      }
    }

    /** One pass of response()'s loop: a recv, and a read if that asked for more. */
    method Poll() returns (done: bool, ok: bool, ghost chunk: string)
      requires Valid()
      modifies this`recvData, this`redis, redis, input, input.buf, kernel
      ensures Valid() && (input.buf == old(input.buf) || fresh(input.buf))
      ensures redis == old(redis) || fresh(redis)
      ensures kernel.sent == old(kernel.sent) && kernel.received == old(kernel.received) + chunk
      ensures var v := Serve(Session(old(input.View()), old(kernel.incoming), old(kernel.errno)), noblock);
              var after := Session(input.View(), kernel.incoming, kernel.errno);
              if !done then v == Serve(after, noblock).After(chunk)
              else v.session == after && v.got == chunk && Answered(ok, v.answer)
      ensures !Starred(old(input.Contents())) ==> redis == old(redis)
      ensures !Starred(old(input.Contents())) || !ok ==> Keeps(old(Request()))
      ensures !done ==> !ok && input.View().contents == old(input.View()).contents + chunk
      ensures !done ==> Weight(kernel.incoming) < Weight(old(kernel.incoming))
    {
      hide Receive, ReadMany, Weight, AllWithin, Strings, Handled, ReadableWindow;
      ghost var s := Session(input.View(), kernel.incoming, kernel.errno);
      ghost var r := Receive(s.window, s.errno);
      ReceiveBounds(s.window, s.errno);
      ReadManyBounds(s.script, ReadableWindow(r.window).Space(), noblock, r.errno, 0);
      chunk := "";
      assert kernel.received + "" == kernel.received;
      ok := Recv();
      if !ok || recvData != [] {
        done := true;
        return;
      }
      var ret;
      ret, chunk := Read();
      done, ok := ret <= 0, false;
    }

    /** How the fields show an answer to the caller. */
    ghost predicate Answered(ok: bool, answer: Answer)
      reads this, input, input.buf, kernel, redis
    {
      && ok == answer.Delivered?
      && (ok ==> recvData != [] && Shows(answer.texts, answer.origin))
      && (answer.Stopped? ==> kernel.stopped)
    }

    /**
     Receive until there is a message. The answer is that of Serve, for both formats, and the views
     read as its texts. Without an answer, either recv refused what there was, or the system stopped
     delivering - response() never gives up for lack of room in the buffer.
     */
    method Response() returns (ok: bool, ghost v: Service)
      requires Valid()
      modifies this`recvData, this`redis, redis, input, input.buf, kernel
      ensures Valid() && (input.buf == old(input.buf) || fresh(input.buf))
      ensures redis == old(redis) || fresh(redis)
      ensures v == Serve(Session(old(input.View()), old(kernel.incoming), old(kernel.errno)), noblock)
      ensures kernel.sent == old(kernel.sent) && kernel.received == old(kernel.received) + v.got
      ensures v.session == Session(input.View(), kernel.incoming, kernel.errno)
      ensures Answered(ok, v.answer)
      ensures var all := old(input.Contents()) + v.got;
              !Starred(all) ==> redis == old(redis)
      ensures var all := old(input.Contents()) + v.got;
              !Starred(all) || !ok ==> Keeps(old(Request()))
      ensures var all := old(input.Contents()) + v.got;
              if Starred(all) then exists e :: KeptOrMasked(old(kernel.errno), e) && ServesRequests(v, all, e, noblock)
              else ServesPackets(v, all, noblock)
    {
      hide Serve, Weight, ServesRequests, ServesPackets, Shows;
      ghost var before, got := kernel.received, "";
      ghost var start := Session(input.View(), kernel.incoming, kernel.errno);
      v := Serve(start, noblock);
      ServeNative(start, noblock);
      var _ := ServeRedis(start, noblock);
      assert before + "" == before;
      AfterNothingServed(v);
      ghost var request := Request();
      var done := false;
      ok := false;
      while !done
        invariant Valid() && (input.buf == old(input.buf) || fresh(input.buf))
        invariant redis == old(redis) || fresh(redis)
        invariant !Starred(start.window.contents + v.got) ==> redis == old(redis)
        invariant !Starred(start.window.contents + v.got) || !ok ==> Keeps(request)
        invariant !done ==> !ok
        invariant !done ==> input.View().contents == start.window.contents + got
        invariant kernel.sent == old(kernel.sent) && kernel.received == before + got
        invariant if !done then v == Serve(Session(input.View(), kernel.incoming, kernel.errno), noblock).After(got)
                  else v.session == Session(input.View(), kernel.incoming, kernel.errno) && v.got == got
                       && Answered(ok, v.answer)
        decreases !done, Weight(kernel.incoming)
      {
        ghost var later := Serve(Session(input.View(), kernel.incoming, kernel.errno), noblock);
        Assoc(start.window.contents, got, later.got);
        StaysStarred(start.window.contents + got, later.got);
        ghost var chunk;
        done, ok, chunk := Poll();
        Assoc(before, got, chunk);
        Assoc(start.window.contents, got, chunk);
        AfterMoreServed(Serve(Session(input.View(), kernel.incoming, kernel.errno), noblock), chunk, got);
        got := got + chunk;
      }
    }
  }

  lemma NoViews(mem: seq<char>)
    ensures AllWithin([], mem) && Strings([], mem) == []
  {
  }

  /** One pass of the loop that ReadMany follows, when `chunk` has been read before it. */
  lemma ReadPass(script: seq<ReadEvent>, space: nat, noblock: bool, errno: Errno, ret: nat, chunk: string)
    ensures var run := ReadMany(script, space, noblock, errno, ret).After(chunk);
            if space == 0 then run == Run(ret, chunk, script, errno)
            else
              var r := ReadOne(script, space, errno);
              var all := chunk + r.bytes;
              match r.result
              case Failed(Interrupted) => run == ReadMany(r.script, space, noblock, r.errno, ret).After(all)
              case Failed(WouldBlock) => run == Run(ret, all, r.script, r.errno)
              case Failed(Broken(_)) => run == Run(-1, all, r.script, r.errno)
              case Moved(n) =>
                if n == 0 then run == Run(0, all, r.script, r.errno)
                else if !noblock then run == Run(ret + n, all, r.script, r.errno)
                else run == ReadMany(r.script, space - n, noblock, r.errno, ret + n).After(all)
  {
    hide ReadOne;
    assert chunk + "" == chunk;
    if space > 0 {
      var r := ReadOne(script, space, errno);
      if r.result.Moved? && 0 < r.result.n <= space {
        AfterMoreRead(ReadMany(r.script, space - r.result.n, noblock, r.errno, ret + r.result.n), r.bytes, chunk);
      }
    }
  }

  lemma ReadableSlot(w: Window)
    requires w.Valid() && w.total != ZERO_BUFFER_SIZE
    ensures var r, size := ReadableWindow(w), |w.contents|;
            && r.Space() == SpaceToRead(w.total, w.off, size)
            && r.off + size == if w.off > w.total / 2 then size else w.off + size
  {
  }

  /** The same for the loop that WriteMany follows, when `n` bytes have gone before. */
  lemma WritePass(script: seq<WriteEvent>, size: nat, noblock: bool, errno: Errno, ret: nat, n: nat)
    ensures var d := WriteMany(script, size, noblock, errno, ret).After(n);
            if size == 0 then d == Delivery(ret, n, script, errno)
            else
              var w := WriteOne(script, size, errno);
              var all := n + w.taken;
              match w.result
              case Failed(Interrupted) => d == WriteMany(w.script, size, noblock, w.errno, ret).After(all)
              case Failed(WouldBlock) => d == Delivery(ret, all, w.script, w.errno)
              case Failed(Broken(_)) => d == Delivery(-1, all, w.script, w.errno)
              case Moved(m) =>
                if m == 0 then d == Delivery(ret, all, w.script, w.errno)
                else if !noblock then d == Delivery(ret + m, all, w.script, w.errno)
                else d == WriteMany(w.script, size - m, noblock, w.errno, ret + m).After(all)
  {
    hide WriteOne;
  }

  lemma AfterNothingWritten(d: Delivery)
    ensures d.After(0) == d
  {
  }

  lemma AfterNothingRead(run: Run)
    ensures run.After("") == run
  {
    assert "" + run.bytes == run.bytes;
  }

  lemma AfterMoreRead(run: Run, more: string, first: string)
    ensures run.After(more).After(first) == run.After(first + more)
  {
    Assoc(first, more, run.bytes);
  }

  lemma AfterNothingServed(v: Service)
    ensures v.After("") == v
  {
    assert "" + v.got == v.got;
  }

  lemma AfterMoreServed(v: Service, more: string, first: string)
    ensures v.After(more).After(first) == v.After(first + more)
  {
    Assoc(first, more, v.got);
  }

  /** RecvReq's contract determines what recv returns. */
  lemma HandledReceives(w: Window, before: Errno, ok: bool, errno: Errno, after: Window,
                        desc: Option<RequestDesc>, command: seq<string>, bytes: seq<Bytes>)
    requires w.Valid() && w.contents != "" && Handled(w, before, ok, errno, after, desc, command, bytes)
    requires !ok ==> bytes == []
    ensures ReceiveRedis(w, before)
         == if bytes == [] then Reception(ok, [], Native, after, errno)
            else Reception(ok, command, Redis(desc), after, errno)
    ensures bytes != [] ==> bytes == OwnAll(command)
  {
    hide RedisRequests.ScanRequest, Convert, Lookup, Lower, Window.Reclaim;
    RedisRequests.ScanRequestBounds(w.contents, before);
  }

  lemma OwnedWithin(texts: seq<string>, mem: seq<char>)
    ensures AllWithin(OwnAll(texts), mem) && Strings(OwnAll(texts), mem) == texts
  {
  }

  lemma IncrNothing(w: Window)
    requires w.Valid()
    ensures w.Incr("") == w
  {
    assert w.contents + "" == w.contents;
  }

  lemma IncrTwice(w: Window, a: string, b: string)
    requires w.Valid() && |a| <= w.Space() && |b| <= w.Incr(a).Space()
    ensures |a + b| <= w.Space() && w.Incr(a).Incr(b) == w.Incr(a + b)
    ensures w.Incr(a + b).Space() == w.Incr(a).Space() - |b|
  {
    assert w.contents + a + b == w.contents + (a + b);
  }

  lemma SplitAt(a: string, b: string, n: nat)
    requires n <= |b|
    ensures a + b == (a + b[..n]) + b[n..]
  {
  }

  /** The first `n` bytes of the contents. */
  ghost function Gone(w: Window, n: nat): string
    requires n <= |w.contents|
  {
    w.contents[..n]
  }

  lemma DecrNothing(w: Window, sent: string)
    requires w.Valid()
    ensures w.Decr(0) == w && sent + Gone(w, 0) == sent
  {
  }

  lemma DecrTwice(w: Window, a: nat, b: nat, sent: string)
    requires w.Valid() && a <= |w.contents| && b <= |w.contents| - a
    ensures w.Decr(a).Decr(b) == w.Decr(a + b)
    ensures sent + Gone(w, a) + Gone(w.Decr(a), b) == sent + Gone(w, a + b)
  {
    assert w.contents[..a + b] == w.contents[..a] + w.contents[a..][..b];
  }

  /** The loop of recv, over the buffer's contents, which start at `base` in its memory. */
  method PacketLoop(data: string, base: nat)
    returns (ret: int, parsed: nat, recvData: seq<Bytes>, ghost records: seq<string>)
    ensures ret == -1 ==> Parse(data) == Error
    ensures ret == 0 ==> Parse(data) == NotReady
    ensures ret == 1 ==> Parse(data) == Packet(records, parsed) && SlicesOf(recvData, data, base, records)
    ensures ret == -1 || ret == 0 || ret == 1
  {
    hide Atoi, SlicesOf, Outcome.After, LineEnd, ParseFrom;
    ret, parsed, recvData, records := 0, 0, [], [];
    NoSlices(data, base);
    var head, size := 0, |data|;
    while size > 0 && (data[head] == '\n' || data[head] == '\r')
      invariant parsed == head && head + size == |data| && size >= 0
      invariant SkipBlanks(data, head) == SkipBlanks(data, 0)
    {
      head := head + 1;
      size := size - 1;
      parsed := parsed + 1;
    }
    AfterNoRecords(ParseFrom(data, head));
    assert Parse(data) == ParseFrom(data, head).After(records);
    hide Parse;
    while size > 0
      invariant parsed == head && head + size == |data| && size >= 0
      invariant SlicesOf(recvData, data, base, records)
      invariant Parse(data) == ParseFrom(data, head).After(records)
    {
      AfterUndecided(records);
      var lf := IndexFrom(data, '\n', head);
      if lf == |data| {
        NoLineFeed(data, head);
        return;
      }
      var body := lf + 1;
      var headLen := body - head;
      if headLen == 1 || (headLen == 2 && data[head] == '\r') {
        parsed := parsed + headLen;
        HeaderIsEnd(data, head, records);
        ret := 1;
        return;
      }
      if data[head] < '0' || data[head] > '9' {
        HeaderIsBad(data, head);
        ret := -1;
        return;
      }
      if headLen > 20 - 1 {
        HeaderIsBad(data, head);
        ret := -1;
        return;
      }
      var bodyLen := Atoi(data[head..lf]);
      if bodyLen < 0 {
        HeaderIsBad(data, head);
        ret := -1;
        return;
      }
      HeaderIsLength(data, head, records);
      size := size - (headLen + bodyLen);
      if size < 0 {
        return;
      }
      PushSlice(recvData, data, base, records, body, bodyLen);
      recvData := recvData + [Slice(base + body, bodyLen)];
      records := records + [data[body..body + bodyLen]];
      head := head + (headLen + bodyLen);
      parsed := parsed + (headLen + bodyLen);
      var eol := EndOfLine(data, head, size);
      if eol == 0 {
        return;
      }
      head := head + eol;
      size := size - eol;
      parsed := parsed + eol;
      if parsed > MAX_PACKET_SIZE {
        ret := -1;
        return;
      }
    }
    AfterUndecided(records);
    NoLineFeed(data, head);
  }

  lemma NoLineFeed(data: string, head: nat)
    requires head <= |data| && IndexFrom(data, '\n', head) == |data|
    ensures ParseFrom(data, head) == NotReady
  {
  }

  /** The bytes to skip after a body: LF, CRLF, or neither (yet). */
  method EndOfLine(data: string, head: nat, size: nat) returns (n: nat)
    requires head + size == |data|
    ensures n == LineEnd(data, head)
  {
    if size > 0 && data[head] == '\n' {
      n := 1;
    } else if size > 1 && data[head] == '\r' && data[head + 1] == '\n' {
      n := 2;
    } else {
      n := 0;
    }
  }

  lemma AfterUndecided(records: seq<string>)
    ensures NotReady.After(records) == NotReady && Outcome.Error.After(records) == Outcome.Error
  {
  }

  lemma HeaderIsEnd(data: string, head: nat, records: seq<string>)
    requires head <= |data|
    requires var lf := IndexFrom(data, '\n', head);
             lf < |data| && (lf == head || (lf == head + 1 && data[head] == '\r'))
    ensures ParseFrom(data, head).After(records) == Packet(records, IndexFrom(data, '\n', head) + 1)
  {
    hide Atoi;
    var lf := IndexFrom(data, '\n', head);
    assert data[head..lf] == "" || data[head..lf] == "\r";
    assert records + [] == records;
  }

  lemma HeaderIsBad(data: string, head: nat)
    requires head <= |data|
    requires var lf := IndexFrom(data, '\n', head);
             head < lf < |data| && !(lf == head + 1 && data[head] == '\r')
             && (!IsDigit(data[head]) || lf + 1 - head > 19 || Atoi(data[head..lf]) < 0)
    ensures ParseFrom(data, head) == Outcome.Error
  {
    hide Atoi;
  }

  lemma HeaderIsLength(data: string, head: nat, first: seq<string>)
    requires head <= |data|
    requires var lf := IndexFrom(data, '\n', head);
             head < lf < |data| && IsDigit(data[head]) && lf + 1 - head <= 19 && Atoi(data[head..lf]) >= 0
    ensures var lf := IndexFrom(data, '\n', head);
            var end := lf + 1 + Atoi(data[head..lf]);
            ParseFrom(data, head).After(first) ==
            if end > |data| || LineEnd(data, end) == 0 then NotReady
            else if end + LineEnd(data, end) > MAX_PACKET_SIZE then Outcome.Error
            else ParseFrom(data, end + LineEnd(data, end)).After(first + [data[lf + 1..end]])
  {
    hide Atoi, LineEnd;
    var lf := IndexFrom(data, '\n', head);
    var end := lf + 1 + Atoi(data[head..lf]);
    if end <= |data| {
      AfterOneRecord(ParseFrom(data, end + LineEnd(data, end)), data[lf + 1..end], first);
    }
  }

  lemma AfterNoRecords(o: Outcome)
    ensures o.After([]) == o
  {
    if o.Packet? {
      assert [] + o.records == o.records;
    }
  }

  lemma AfterOneRecord(o: Outcome, record: string, first: seq<string>)
    ensures o.After([record]).After(first) == o.After(first + [record])
  {
    if o.Packet? {
      assert first + ([record] + o.records) == first + [record] + o.records;
    }
  }
}
