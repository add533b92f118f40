/**
 A client that pipelines requests, and a server that calls recv until it asks for more: each request
 is parsed with the errno that the conversions of those before it have left behind.
 */
module RedisSessions {
  import opened Text
  import opened Buffers
  import opened Framing
  import opened RedisCommands
  import opened RedisRequests
  import opened ErrnoCarriesOver
  import opened Serving

  /** The converted commands that recv returns, one by one, before it fails or finds none. */
  datatype Handling = Handling(commands: seq<seq<string>>, rest: string, refused: bool) {
    function After(command: seq<string>): Handling {
      this.(commands := [command] + commands)
    }
  }

  function HandleAll(w: Window, errno: Errno): Handling
    requires w.Valid()
    decreases |w.contents|
  {
    ReceiveBounds(w, errno);
    var r := Receive(w, errno);
    if r.ok && r.texts != [] then HandleAll(r.window, r.errno).After(r.texts)
    else Handling([], w.contents, !r.ok)
  }

  predicate AllWellSized(rs: seq<seq<string>>) {
    forall i :: 0 <= i < |rs| ==> WellSized(rs[i])
  }

  function EncodeRequests(rs: seq<seq<string>>): string {
    if rs == [] then "" else EncodeRequest(rs[0]) + EncodeRequests(rs[1..])
  }

  function CommandsOf(rs: seq<seq<string>>): seq<seq<string>>
    requires AllWellSized(rs)
  {
    if rs == [] then [] else [Converting(rs[0], Clear).command] + CommandsOf(rs[1..])
  }

  /** errno once all of `rs` have been converted. */
  function ErrnoAfterRequests(rs: seq<seq<string>>, errno: Errno): Errno
    requires AllWellSized(rs)
  {
    if rs == [] then errno else ErrnoAfterRequests(rs[1..], Converting(rs[0], errno).errno)
  }

  /** How many requests come before the first moment at which errno is EINVAL. */
  function HandledCount(rs: seq<seq<string>>, errno: Errno): (m: nat)
    requires AllWellSized(rs)
    ensures m <= |rs|
  {
    if rs == [] || errno == Invalid then 0 else 1 + HandledCount(rs[1..], Converting(rs[0], errno).errno)
  }

  /** What a request is converted to does not depend on errno. */
  lemma CommandIgnoresErrno(args: seq<string>, errno: Errno)
    requires args != []
    ensures Converting(args, errno).command == Converting(args, Clear).command
  {
    hide Lookup, Lower, ErrnoAfterWhole, AdjustBound, ScanOptions, SwapPairs, ErrnoAfterBound, StrToInt64, StrInt64;
  }

  lemma {:induction false} FirstInvalid(rs: seq<seq<string>>, errno: Errno)
    requires AllWellSized(rs)
    ensures var m := HandledCount(rs, errno);
            && (forall i :: 0 <= i < m ==> ErrnoAfterRequests(rs[..i], errno) != Invalid)
            && (m < |rs| ==> ErrnoAfterRequests(rs[..m], errno) == Invalid)
    decreases |rs|
  {
    hide Converting;
    if rs != [] && errno != Invalid {
      var m, e := HandledCount(rs, errno), Converting(rs[0], errno).errno;
      FirstInvalid(rs[1..], e);
      forall i | 0 < i <= m
        ensures ErrnoAfterRequests(rs[..i], errno) == ErrnoAfterRequests(rs[1..][..i - 1], e)
      {
        assert rs[..i][1..] == rs[1..][..i - 1];
      }
    }
  }

  /** One call of recv at the start of a well-formed request. */
  lemma RequestReceived(w: Window, args: seq<string>, more: string, errno: Errno)
    requires w.Valid() && WellSized(args) && w.contents == EncodeRequest(args) + more
    ensures w.contents != "" && Starred(w.contents)
    ensures var r := Receive(w, errno);
            if errno == Invalid then !r.ok && '\n' in w.contents
            else
              && r.ok && r.texts == Converting(args, errno).command && r.texts != []
              && r.origin == Redis(Lookup(Lower(args[0])))
              && r.errno == Converting(args, errno).errno && r.window.contents == more
  {
    hide ScanRequest, EncodeRequest, Convert, Lookup, Lower;
    StartsWithStar(args, more);
    RequestRoundTrip(args, more, errno);
    RequestRoundTrip(args, more, Clear);
    ErrnoOnEntry(w.contents, errno);
    assert (EncodeRequest(args) + more)[|EncodeRequest(args)|..] == more;
  }

  lemma StartsWithStar(args: seq<string>, more: string)
    ensures EncodeRequest(args) + more != "" && (EncodeRequest(args) + more)[0] == '*'
  {
  }

  lemma NoHeadingWaits(s: string, errno: Errno)
    ensures s != "" && s[0] == '*' && '\n' !in s ==> ScanRequest(s, errno) == Scan(Wait, errno)
  {
  }

  /** One call of recv at a request of which some bytes are still missing. */
  lemma PartReceived(w: Window, args: seq<string>, k: nat, errno: Errno)
    requires w.Valid() && WellSized(args) && k < |EncodeRequest(args)| && w.contents == EncodeRequest(args)[..k]
    ensures var r := Receive(w, errno);
            if errno == Invalid && '\n' in w.contents then !r.ok
            else r.ok && r.texts == [] && r.errno == errno
  {
    hide ScanRequest, EncodeRequest, Convert, Lookup, Lower, Window.Reclaim;
    if k > 0 {
      if errno == Invalid {
        NoHeadingWaits(w.contents, errno);
      } else {
        PartialRequestWaits(args, k, errno);
      }
      StartsWithStar(args, "");
      assert w.contents[0] == (EncodeRequest(args) + "")[0];
      PartialRequestWaits(args, k, Clear);
      ErrnoOnEntry(w.contents, errno);
    }
  }

  /**
   Of a pipelined stream, broken off anywhere inside its last request, exactly the requests up to
   and including the first that leaves EINVAL come out, converted and in order - all of them if none
   does. Then recv waits for the rest of the last one, unless EINVAL is left and a heading is there:
   then it fails.
   */
  lemma {:induction false} PipelineHandled(rs: seq<seq<string>>, last: seq<string>, k: nat, w: Window, errno: Errno)
    requires AllWellSized(rs) && WellSized(last) && k < |EncodeRequest(last)|
    requires w.Valid() && w.contents == EncodeRequests(rs) + EncodeRequest(last)[..k]
    ensures var h, m := HandleAll(w, errno), HandledCount(rs, errno);
            && h.commands == CommandsOf(rs[..m])
            && h.rest == EncodeRequests(rs[m..]) + EncodeRequest(last)[..k]
            && (h.refused <==> ErrnoAfterRequests(rs[..m], errno) == Invalid && '\n' in h.rest)
    decreases |rs|
  {
    hide Receive, EncodeRequest, Converting;
    var tail := EncodeRequest(last)[..k];
    if rs == [] {
      assert EncodeRequests(rs) + tail == tail;
      PartReceived(w, last, k, errno);
    } else {
      var r, more := rs[0], rs[1..];
      assert EncodeRequests(rs) + tail == EncodeRequest(r) + (EncodeRequests(more) + tail);
      RequestReceived(w, r, EncodeRequests(more) + tail, errno);
      if errno == Invalid {
        assert rs[0..] == rs;
      } else {
        ReceiveBounds(w, errno);
        PipelineHandled(more, last, k, Receive(w, errno).window, Receive(w, errno).errno);
        CommandIgnoresErrno(r, errno);
        TakeOneMore(rs, HandledCount(more, Receive(w, errno).errno));
      }
    }
  }

  lemma TakeOneMore(rs: seq<seq<string>>, m: nat)
    requires rs != [] && m <= |rs| - 1
    ensures rs[..1 + m][1..] == rs[1..][..m] && rs[..1 + m][0] == rs[0] && rs[1 + m..] == rs[1..][m..]
  {
  }

  /**
   All requests come out exactly if errno is not EINVAL at the start and no request but the last
   leaves it, by what it reads as numbers.
   */
  lemma AllHandledIff(rs: seq<seq<string>>, errno: Errno)
    requires AllWellSized(rs) && rs != []
    ensures HandledCount(rs, errno) == |rs| <==>
            errno != Invalid &&
            forall i :: 0 <= i < |rs| - 1 ==> !LeavesInvalid(NumbersOf(rs[i]), ErrnoAfterRequests(rs[..i], errno))
  {
    hide Converting, LeavesInvalid, NumbersOf;
    FirstInvalid(rs, errno);
    forall i | 0 <= i < |rs|
      ensures ErrnoAfterRequests(rs[..i + 1], errno) == Invalid
         <==> LeavesInvalid(NumbersOf(rs[i]), ErrnoAfterRequests(rs[..i], errno))
    {
      ErrnoAfterOneMore(rs, i, errno);
      ErrnoLeftIff(rs[i], ErrnoAfterRequests(rs[..i], errno));
    }
    var m := HandledCount(rs, errno);
    if m == |rs| {
      forall i | 0 <= i < |rs| - 1
        ensures !LeavesInvalid(NumbersOf(rs[i]), ErrnoAfterRequests(rs[..i], errno))
      {
        assert ErrnoAfterRequests(rs[..i + 1], errno) != Invalid;
      }
    } else if m > 0 {
      assert ErrnoAfterRequests(rs[..(m - 1) + 1], errno) == Invalid;
      assert LeavesInvalid(NumbersOf(rs[m - 1]), ErrnoAfterRequests(rs[..m - 1], errno));
    }
  }

  lemma {:induction false} ErrnoAfterOneMore(rs: seq<seq<string>>, i: nat, errno: Errno)
    requires AllWellSized(rs) && i < |rs|
    ensures ErrnoAfterRequests(rs[..i + 1], errno) == Converting(rs[i], ErrnoAfterRequests(rs[..i], errno)).errno
    decreases i
  {
    hide Converting;
    if i == 0 {
      assert rs[..1] == [rs[0]] && rs[..1][1..] == [] && rs[..0] == [];
    } else {
      assert rs[..i + 1][1..] == rs[1..][..i] && rs[..i][1..] == rs[1..][..i - 1];
      ErrnoAfterOneMore(rs[1..], i - 1, Converting(rs[0], errno).errno);
    }
  }
}
