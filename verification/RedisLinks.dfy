/** class RedisLink of src/net/link_redis.h and link_redis.cpp. */
module RedisLinks {
  import opened Text
  import opened Buffers
  import opened Resp
  import opened RedisRequests
  import opened RedisCommands
  import opened RedisReplies

  /**
   What recv_req makes of the input `w`: an error, nothing yet (with room made for more), or the
   converted request, whose views point into recv_string.
   */
  predicate Handled(w: Window, before: Errno, ok: bool, errno: Errno, after: Window,
                    desc: Option<RequestDesc>, command: seq<string>, bytes: seq<Bytes>)
    requires w.Valid() && w.contents != ""
  {
    match ScanRequest(w.contents, before)
    case Scan(Bad, e) => !ok && errno == e && after == w
    case Scan(Wait, e) => ok && errno == e && bytes == [] && after == w.Reclaim()
    case Scan(Args(args, n), e) =>
      && ok && args != [] && n <= |w.contents| && after == w.Decr(n)
      && desc == Lookup(Lower(args[0]))
      && Converted(command, errno) == Convert(desc, Lower(args[0]), args, e)
      && bytes == OwnAll(command) && bytes != []
  }

  class RedisLink {
    var cmd: string
    var reqDesc: Option<RequestDesc>
    var recvBytes: seq<Bytes>
    var recvString: seq<string>

    constructor ()
      ensures reqDesc == None && recvBytes == [] && recvString == []
    {
      cmd, reqDesc, recvBytes, recvString := "", None, [], [];
    }

    /** -1, 0 or 1, as ScanRequest says; only a complete request leaves the buffer. */
    method ParseReq(input: Buffer, before: Errno) returns (ret: int, errno: Errno)
      requires input.Valid() && input.size > 0
      modifies this`recvBytes, input
      ensures input.Valid() && input.buf == old(input.buf)
      ensures errno == ScanRequest(old(input.Contents()), before).errno
      ensures match ScanRequest(old(input.Contents()), before).request
              case Bad => ret == -1 && input.View() == old(input.View())
              case Wait => ret == 0 && input.View() == old(input.View()) && recvBytes == []
              case Args(args, n) =>
                && ret == 1 && 0 < n <= old(input.size) && input.View() == old(input.View()).Decr(n)
                && args != []
                && AllWithin(recvBytes, input.buf[..]) && Strings(recvBytes, input.buf[..]) == args
    {
      hide ScanRequest, SlicesOf, AllWithin, Strings;
      ScanRequestBounds(input.Contents(), before);
      var parsed;
      ghost var args;
      ret, errno, parsed, recvBytes, args := ScanLoop(input.Contents(), input.off, before);
      if ret == 1 {
        SlicesRead(recvBytes, input.buf[..], input.off, input.size, args);
        input.Decr(parsed);
      }
    }

    // ---------------------------------------------------------- convert_req

    method PushFrom(args: seq<string>, first: nat)
      requires first <= |args|
      modifies this`recvString
      ensures recvString == old(recvString) + args[first..]
    {
      for i := first to |args|
        invariant recvString == old(recvString) + args[first..i]
      {
        recvString := recvString + [args[i]];
      }
    }

    method PushZAdd(args: seq<string>)
      modifies this`recvString
      ensures recvString == old(recvString) + ConvertZAdd(args)
    {
      if |args| >= 2 {
        recvString := recvString + [args[1]];
        var i := 2;
        while i <= |args| - 2
          invariant 2 <= i
          invariant recvString + SwapPairs(args, i) == old(recvString) + ConvertZAdd(args)
          decreases |args| - i
        {
          SwapStep(recvString, args, i);
          recvString := recvString + [args[i + 1]];
          recvString := recvString + [args[i]];
          i := i + 2;
        }
      }
    }

    method PushZRange(args: seq<string>, before: Errno) returns (errno: Errno)
      modifies this`recvString
      ensures recvString == old(recvString) + ConvertZRange(args, before).command
      ensures errno == ConvertZRange(args, before).errno
    {
      hide StrToInt64, ErrnoAfterWhole, StrInt64, ToInt64, Lower;
      errno := before;
      if |args| >= 4 {
        var start := StrToInt64(args[2]);
        errno := ErrnoAfterWhole(args[2], errno);
        var end := StrToInt64(args[3]);
        errno := ErrnoAfterWhole(args[3], errno);
        if (start >= 0 && end >= 0) || end == -1 {
          var size := -1;
          if end != -1 {
            size := ToInt64(end - start + 1);
          }
          recvString := recvString + [args[1]];
          recvString := recvString + [args[2]];
          recvString := recvString + [StrInt64(size)];
        }
      }
      if |args| > 4 {
        recvString := recvString + [Lower(args[4])];
      }
    }

    method PushBound(bound: string, step: int, before: Errno) returns (errno: Errno)
      requires bound != ""
      modifies this`recvString
      ensures recvString == old(recvString) + [AdjustBound(bound, step)]
      ensures errno == ErrnoAfterBound(bound, before)
    {
      hide StrToInt, ErrnoAfterWhole, PrintInt;
      errno := before;
      if bound == "-inf" || bound == "+inf" {
        recvString := recvString + [""];
      } else {
        var text := bound;
        if text[0] == '(' {
          var n := ToInt32(StrToInt(text[1..]) + step);
          errno := ErrnoAfterWhole(text[1..], errno);
          text := Snprintf(32, PrintInt(n));
        }
        recvString := recvString + [text];
      }
    }

    method PushByScore(args: seq<string>, step: int, before: Errno) returns (errno: Errno)
      modifies this`recvString
      ensures recvString == old(recvString) + ConvertByScore(args, step, before).command
      ensures errno == ConvertByScore(args, step, before).errno
    {
      hide AdjustBound, ErrnoAfterBound, Lower;
      errno := before;
      var withscores, offset, count, afterLimit := "", "", "", false;
      if |args| < 4 || args[2] == "" || args[3] == "" {
        return;
      }
      assert args[4..] == args[4..][0..];
      for i := 4 to |args|
        invariant ScanOptions(Options(withscores, offset, count, afterLimit), args[i..])
               == ScanOptions(NO_OPTIONS, args[4..])
      {
        assert args[i..][1..] == args[i + 1..];
        var s := args[i];
        if afterLimit {
          if offset == "" {
            offset := s;
          } else {
            count := s;
            afterLimit := false;
          }
        }
        s := Lower(s);
        if s == "withscores" {
          withscores := s;
        } else if s == "limit" {
          afterLimit := true;
        }
      }
      recvString := recvString + [args[1]];
      recvString := recvString + [""];
      errno := PushBound(args[2], step, errno);
      errno := PushBound(args[3], -step, errno);
      recvString := recvString + [if offset == "" then "0" else offset];
      recvString := recvString + [if count == "" then "2000000000" else count];
      recvString := recvString + [withscores];
    }

    method PushConverted(strategy: Strategy, args: seq<string>, before: Errno) returns (errno: Errno)
      requires args != []
      modifies this`recvString
      ensures recvString == old(recvString) + ConvertArgs(strategy, args, before).command
      ensures errno == ConvertArgs(strategy, args, before).errno
    {
      hide ConvertZAdd, ConvertZRange, ConvertByScore;
      errno := before;
      match strategy {
        case HKeys | HVals =>
          if |args| == 2 {
            recvString := recvString + [args[1], "", "", "2000000000"];
          }
        case SetEx | ZIncrBy =>
          if |args| == 4 {
            recvString := recvString + [args[1], args[3], args[2]];
          }
        case ZAdd =>
          PushZAdd(args);
        case RemRangeByRank | RemRangeByScore =>
          if |args| >= 4 {
            recvString := recvString + [args[1], args[2], args[3]];
            assert args[1..4] == [args[1], args[2], args[3]];
          }
        case ZRange | ZRevRange =>
          errno := PushZRange(args, errno);
        case ZRangeByScore =>
          errno := PushByScore(args, 1, errno);
        case ZRevRangeByScore =>
          errno := PushByScore(args, -1, errno);
        case _ =>
          PushFrom(args, 1);
      }
    }

    /** `args` are the texts of recv_bytes, args[0] the command as it was received. */
    method ConvertReq(args: seq<string>, before: Errno) returns (errno: Errno)
      requires args != [] && recvString == []
      modifies this`recvString, this`reqDesc
      ensures reqDesc == Lookup(cmd)
      ensures Converted(recvString, errno) == Convert(Lookup(cmd), cmd, args, before)
    {
      hide Lookup, ConvertArgs;
      errno := before;
      reqDesc := Lookup(cmd);
      if reqDesc == None {
        recvString := recvString + [cmd];
        PushFrom(args, 1);
      } else {
        recvString := recvString + [reqDesc.value.ssdbCmd];
        errno := PushConverted(reqDesc.value.strategy, args, errno);
      }
    }

    /** NULL, an empty list, or the converted request, which lives in recv_string. */
    method RecvReq(input: Buffer, before: Errno) returns (ok: bool, errno: Errno)
      requires input.Valid() && input.size > 0
      modifies this, input, input.buf
      ensures input.Valid() && (input.buf == old(input.buf) || fresh(input.buf))
      ensures Handled(old(input.View()), before, ok, errno, input.View(), reqDesc, recvString,
                      if ok then recvBytes else [])
      ensures !ok || recvBytes == [] ==> reqDesc == old(reqDesc) && recvString == old(recvString) && cmd == old(cmd)
      ensures input.total >= old(input.total)
    {
      hide ScanRequest, Convert, Lookup, Lower;
      ScanRequestBounds(input.Contents(), before);
      var ret;
      ret, errno := ParseReq(input, before);
      if ret == -1 {
        return false, errno;
      }
      if recvBytes == [] {
        input.Reclaim();
        return true, errno;
      }
      var args := Strings(recvBytes, input.buf[..]);
      cmd := Lower(args[0]);
      recvString := [];
      errno := ConvertReq(args, errno);
      recvBytes := [];
      for i := 0 to |recvString|
        modifies this`recvBytes
        invariant recvBytes == OwnAll(recvString[..i])
      {
        assert recvString[..i + 1] == recvString[..i] + [recvString[i]];
        recvBytes := recvBytes + [Owned(recvString[i])];
      }
      assert recvString[..|recvString|] == recvString;
      ok := true;
    }

    // ------------------------------------------------------------ send_resp

    /** Appends exactly the text of Respond to the output. */
    method SendResp(output: Buffer, resp: seq<string>)
      requires output.Valid() && InRange(reqDesc, recvString, resp)
      modifies output, output.buf
      ensures output.Valid() && (output.buf == old(output.buf) || fresh(output.buf)) && output.off == old(output.off)
      ensures output.Contents() == old(output.Contents()) + Respond(reqDesc, recvString, resp)
    {
      hide OkText, LineText;
      if resp == [] {
        return;
      }
      if IsError(resp[0]) {
        AppendLine(output, "-ERR ", Second(resp));
      } else if resp[0] == "noauth" {
        AppendLine(output, "-NOAUTH ", Second(resp));
      } else if resp[0] == "not_found" {
        AppendText(output, "$-1\r\n");
      } else if resp[0] != "ok" {
        AppendLine(output, "-ERR ", "server error");
      } else if reqDesc == None {
        AppendLine(output, "+", "OK");
      } else {
        SendOk(output, reqDesc.value, resp);
      }
    }

    method SendOk(output: Buffer, d: RequestDesc, resp: seq<string>)
      requires output.Valid() && KeysInRange(d, recvString, resp) && resp != []
      modifies output, output.buf
      ensures output.Valid() && (output.buf == old(output.buf) || fresh(output.buf)) && output.off == old(output.off)
      ensures output.Contents() == old(output.Contents()) + OkText(d, recvString, resp)
    {
      hide EntriesText, Merge, Items, WithScores, LineText, BulkText;
      if d.strategy == Ping {
        AppendLine(output, "+", "PONG");
      } else if d.replyType == Status {
        AppendLine(output, "+", "OK");
      } else if d.strategy == MGet || d.strategy == HMGet {
        if |resp| % 2 != 1 {
          AppendText(output, "*0");
        } else {
          SendMerged(output, recvString, FirstKey(d.strategy), resp);
        }
      } else if d.replyType == Bulk {
        if |resp| >= 2 {
          AppendBulk(output, resp[1]);
        } else {
          AppendText(output, "$0\r\n");
        }
      } else if d.replyType == Int {
        if |resp| >= 2 {
          AppendLine(output, ":", resp[1]);
        } else {
          AppendText(output, "$0\r\n");
        }
      } else {
        SendItems(output, resp, WithScores(d.strategy, recvString));
      }
    }
  }

  /**
   recv_req on a well-formed request, whatever follows it: the converted command, the rest left in
   the buffer - and an error instead exactly when errno was EINVAL on entry.
   */
  lemma WellFormedRequestHandled(w: Window, before: Errno, ok: bool, errno: Errno, after: Window,
                                 desc: Option<RequestDesc>, command: seq<string>, bytes: seq<Bytes>,
                                 args: seq<string>, rest: string)
    requires w.Valid() && WellSized(args) && w.contents == EncodeRequest(args) + rest
    requires w.contents != "" && Handled(w, before, ok, errno, after, desc, command, bytes)
    ensures ok <==> before != Invalid
    ensures ok ==> after.contents == rest && desc == Lookup(Lower(args[0]))
    ensures ok ==> Converted(command, errno) == Convert(desc, Lower(args[0]), args, before)
    ensures !ok ==> after == w
  {
    hide ScanRequest, EncodeRequest, Convert, Lookup, Lower;
    RequestRoundTrip(args, rest, before);
    if before != Invalid {
      var n := |EncodeRequest(args)|;
      assert (EncodeRequest(args) + rest)[n..] == rest;
    }
  }

  /** The loop of parse_req, over the buffer's contents, which start at `base` in its memory. */
  method ScanLoop(data: string, base: nat, before: Errno)
    returns (ret: int, errno: Errno, parsed: nat, recvBytes: seq<Bytes>, ghost args: seq<string>)
    requires data != ""
    ensures ret == -1 ==> ScanRequest(data, before) == Scan(Bad, errno)
    ensures ret == 0 ==> ScanRequest(data, before) == Scan(Wait, errno) && recvBytes == []
    ensures ret == 1 ==> ScanRequest(data, before) == Scan(Args(args, parsed), errno)
    ensures ret == 1 ==> SlicesOf(recvBytes, data, base, args)
    ensures ret == -1 || ret == 0 || ret == 1
  {
    hide LengthAt, ErrnoAfterStrtol, SlicesOf, Scan.After;
    recvBytes, errno, parsed, args := [], before, 0, [];
    NoSlices(data, base);
    var ptr, size := 0, |data|;
    if data[0] != '*' {
      return -1, errno, parsed, recvBytes, args;
    }
    var numArgs := 0;
    while size > 0
      invariant ptr + size == |data| && size >= 0 && parsed == ptr && numArgs >= 0
      invariant SlicesOf(recvBytes, data, base, args)
      invariant numArgs == 0 ==> ptr == 0 && size > 0 && errno == before && args == []
      invariant numArgs > 0 ==> ScanRequest(data, before) == ScanArgs(data, ptr, numArgs, errno).After(args)
    {
      var lf := IndexFrom(data, '\n', ptr);
      if lf == |data| {
        AfterWait(errno, args);
        break;
      }
      lf := lf + 1;
      size := size - (lf - ptr);
      parsed := parsed + (lf - ptr);
      var len := LengthAt(data, ptr);
      errno := ErrnoAfterStrtol(data, ptr + 1, errno);
      if errno == Invalid {
        AfterWait(errno, args);
        return -1, errno, parsed, recvBytes, args;
      }
      ptr := lf;
      if len < 0 {
        AfterWait(errno, args);
        return -1, errno, parsed, recvBytes, args;
      }
      if numArgs == 0 {
        if len <= 0 {
          return -1, errno, parsed, recvBytes, args;
        }
        numArgs := len;
        if size == 0 {
          AfterWait(errno, []);
        }
        AfterNothing(ScanArgs(data, ptr, numArgs, errno));
        continue;
      }
      if len > size - 2 {
        AfterWait(errno, args);
        break;
      }
      PushSlice(recvBytes, data, base, args, ptr, len);
      recvBytes := recvBytes + [Slice(base + ptr, len)];
      ghost var first, arg := args, data[ptr..ptr + len];
      args := args + [arg];
      ptr := ptr + (len + 2);
      size := size - (len + 2);
      parsed := parsed + (len + 2);
      numArgs := numArgs - 1;
      if numArgs == 0 {
        AfterLast(arg, ptr, errno, first);
        return 1, errno, parsed, recvBytes, args;
      }
      AfterTwice(ScanArgs(data, ptr, numArgs, errno), [arg], first);
    }
    AfterWait(errno, args);
    recvBytes := [];
    ret := 0;
  }

  function OwnAll(texts: seq<string>): (bs: seq<Bytes>)
    ensures |bs| == |texts| && forall i :: 0 <= i < |texts| ==> bs[i] == Owned(texts[i])
  {
    seq(|texts|, i requires 0 <= i < |texts| => Owned(texts[i]))
  }

  method AppendText(output: Buffer, text: string)
    requires output.Valid()
    modifies output, output.buf
    ensures output.Valid() && (output.buf == old(output.buf) || fresh(output.buf)) && output.off == old(output.off)
    ensures output.Contents() == old(output.Contents()) + text
  {
    hide Window.MakeRoom;
    var _ := output.Append(text);
  }

  method AppendLine(output: Buffer, kind: string, text: string)
    requires output.Valid()
    modifies output, output.buf
    ensures output.Valid() && (output.buf == old(output.buf) || fresh(output.buf)) && output.off == old(output.off)
    ensures output.Contents() == old(output.Contents()) + LineText(kind, text)
  {
    AppendText(output, kind);
    AppendText(output, text);
    AppendText(output, "\r\n");
    assert old(output.Contents()) + LineText(kind, text) == old(output.Contents()) + kind + text + "\r\n";
  }

  method AppendBulk(output: Buffer, val: string)
    requires output.Valid()
    modifies output, output.buf
    ensures output.Valid() && (output.buf == old(output.buf) || fresh(output.buf)) && output.off == old(output.off)
    ensures output.Contents() == old(output.Contents()) + BulkText(val)
  {
    hide Heading;
    AppendText(output, Heading('$', |val|));
    AppendText(output, val);
    AppendText(output, "\r\n");
    assert old(output.Contents()) + BulkText(val)
        == old(output.Contents()) + Heading('$', |val|) + val + "\r\n";
  }

  /** One pass of the loop: the entry for a key, and how far the response iterator moves. */
  method SendEntry(output: Buffer, recvString: seq<string>, reqIt: nat, resp: seq<string>, respIt: nat)
    returns (used: nat)
    requires output.Valid() && reqIt < |recvString| && |resp| % 2 == 1 && respIt % 2 == 1
    modifies output, output.buf
    ensures output.Valid() && (output.buf == old(output.buf) || fresh(output.buf)) && output.off == old(output.off)
    ensures output.Contents() == old(output.Contents()) + MergedText(recvString, reqIt, resp, respIt)
    ensures used == UsedItems(recvString, reqIt, resp, respIt)
    ensures used % 2 == 0
  {
    hide BulkText;
    if respIt >= |resp| {
      AppendText(output, "$-1\r\n");
      return 0;
    }
    if recvString[reqIt] != resp[respIt] {
      AppendText(output, "$-1\r\n");
      return 0;
    }
    AppendBulk(output, resp[respIt + 1]);
    return 2;
  }

  /** The two-pointer loop of MGET and HMGET. */
  method SendMerged(output: Buffer, recvString: seq<string>, first: nat, resp: seq<string>)
    requires output.Valid() && first <= |recvString| && |resp| % 2 == 1
    modifies output, output.buf
    ensures output.Valid() && (output.buf == old(output.buf) || fresh(output.buf)) && output.off == old(output.off)
    ensures output.Contents() == old(output.Contents())
         + (Heading('*', |recvString[first..]|) + EntriesText(Merge(recvString[first..], resp[1..])))
  {
    hide Heading, EntriesText, Merge, MergedText, UsedItems;
    AppendText(output, Heading('*', |recvString| - first));
    var reqIt, respIt := first, 1;
    ghost var start, done := output.Contents(), "";
    ghost var all := EntriesText(Merge(recvString[first..], resp[1..]));
    while reqIt != |recvString|
      invariant first <= reqIt <= |recvString| && 1 <= respIt <= |resp| && respIt % 2 == 1
      invariant output.Valid() && (output.buf == old(output.buf) || fresh(output.buf)) && output.off == old(output.off)
      invariant output.Contents() == start + done
      invariant done + EntriesText(Merge(recvString[reqIt..], resp[respIt..])) == all
      decreases |recvString| - reqIt
    {
      MergeStep(recvString, reqIt, resp, respIt);
      var used := SendEntry(output, recvString, reqIt, resp, respIt);
      ghost var text := MergedText(recvString, reqIt, resp, respIt);
      reqIt := reqIt + 1;
      respIt := respIt + used;
      Assoc(start, done, text);
      Assoc(done, text, EntriesText(Merge(recvString[reqIt..], resp[respIt..])));
      done := done + text;
    }
    MergeDone(recvString, resp, respIt);
    Assoc(old(output.Contents()), Heading('*', |recvString[first..]|), all);
  }

  lemma MergeDone(keys: seq<string>, resp: seq<string>, j: nat)
    requires j <= |resp| && |resp| % 2 == 1 && j % 2 == 1
    ensures EntriesText(Merge(keys[|keys|..], resp[j..])) == ""
  {
  }

  /** How far the response iterator moves for key `i`, and what is written. */
  function UsedItems(keys: seq<string>, i: nat, resp: seq<string>, j: nat): nat
    requires i < |keys|
  {
    if j < |resp| && keys[i] == resp[j] then 2 else 0
  }

  function MergedText(keys: seq<string>, i: nat, resp: seq<string>, j: nat): string
    requires i < |keys| && |resp| % 2 == 1 && j % 2 == 1
  {
    if UsedItems(keys, i, resp, j) == 2 then BulkText(resp[j + 1]) else NIL_TEXT
  }

  lemma MergeStep(keys: seq<string>, i: nat, resp: seq<string>, j: nat)
    requires i < |keys| && 1 <= j <= |resp| && |resp| % 2 == 1 && j % 2 == 1
    ensures j + UsedItems(keys, i, resp, j) <= |resp|
    ensures EntriesText(Merge(keys[i..], resp[j..]))
         == MergedText(keys, i, resp, j)
            + EntriesText(Merge(keys[i + 1..], resp[j + UsedItems(keys, i, resp, j)..]))
  {
    hide BulkText;
    assert keys[i..][1..] == keys[i + 1..];
    assert j < |resp| ==> resp[j..][2..] == resp[j + 2..];
    var m := Merge(keys[i..], resp[j..]);
    assert EntriesText(m) == EntryText(m[0]) + EntriesText(m[1..]);
    assert m[1..] == Merge(keys[i + 1..], resp[j + UsedItems(keys, i, resp, j)..]);
  }

  /** The loop of the multi-bulk replies, which skips every other item when scores are not wanted. */
  method SendItems(output: Buffer, resp: seq<string>, scores: bool)
    requires output.Valid() && resp != []
    modifies output, output.buf
    ensures output.Valid() && (output.buf == old(output.buf) || fresh(output.buf)) && output.off == old(output.off)
    ensures output.Contents() == old(output.Contents())
         + (Heading('*', if scores then |resp| - 1 else (|resp| - 1) / 2) + EntriesText(Items(resp, 1, scores)))
  {
    hide BulkText, Heading;
    AppendText(output, Heading('*', if scores then |resp| - 1 else (|resp| - 1) / 2));
    ghost var start, done, all := output.Contents(), "", EntriesText(Items(resp, 1, scores));
    var i := 1;
    while i < |resp|
      invariant 1 <= i
      invariant output.Valid() && (output.buf == old(output.buf) || fresh(output.buf)) && output.off == old(output.off)
      invariant output.Contents() == start + done
      invariant done + EntriesText(Items(resp, i, scores)) == all
      decreases |resp| - i
    {
      ItemsStep(resp, i, scores);
      Assoc(start, done, BulkText(resp[i]));
      Assoc(done, BulkText(resp[i]), EntriesText(Items(resp, i + if scores then 1 else 2, scores)));
      done := done + BulkText(resp[i]);
      AppendBulk(output, resp[i]);
      if !scores {
        i := i + 1;
      }
      i := i + 1;
    }
  }

  lemma ItemsStep(resp: seq<string>, i: nat, scores: bool)
    requires i < |resp|
    ensures EntriesText(Items(resp, i, scores))
         == BulkText(resp[i]) + EntriesText(Items(resp, i + if scores then 1 else 2, scores))
  {
    hide BulkText;
    var es := Items(resp, i, scores);
    assert es[1..] == Items(resp, i + if scores then 1 else 2, scores);
  }

  lemma SwapStep(done: seq<string>, args: seq<string>, i: nat)
    requires i + 2 <= |args|
    ensures done + SwapPairs(args, i) == done + [args[i + 1]] + [args[i]] + SwapPairs(args, i + 2)
  {
  }

  lemma AfterWait(errno: Errno, first: seq<string>)
    ensures Scan(Wait, errno).After(first) == Scan(Wait, errno)
    ensures Scan(Bad, errno).After(first) == Scan(Bad, errno)
  {
  }

  lemma AfterLast(arg: string, end: nat, errno: Errno, first: seq<string>)
    ensures Scan(Args([arg], end), errno).After(first) == Scan(Args(first + [arg], end), errno)
  {
  }

  lemma AfterNothing(s: Scan)
    ensures s.After([]) == s
  {
    if s.request.Args? {
      assert [] + s.request.args == s.request.args;
    }
  }

  lemma AfterTwice(s: Scan, second: seq<string>, first: seq<string>)
    ensures s.After(second).After(first) == s.After(first + second)
  {
    if s.request.Args? {
      assert first + (second + s.request.args) == first + second + s.request.args;
    }
  }
}
