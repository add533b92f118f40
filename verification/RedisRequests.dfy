/** RedisLink::parse_req: the incremental parser of a Redis command, an array of bulk strings. */
module RedisRequests {
  import opened Text
  import opened Resp

  /** parse_req's results 0, -1 and 1. */
  datatype Request = Wait | Bad | Args(args: seq<string>, consumed: nat) {
    function After(first: seq<string>): Request {
      if Args? then Args(first + args, consumed) else this
    }
  }

  /** parse_req looks at errno after each strtol, so errno goes in and comes out. */
  datatype Scan = Scan(request: Request, errno: Errno) {
    function After(first: seq<string>): Scan {
      this.(request := request.After(first))
    }
  }

  /** The number behind the '*' or '$' at `ptr`, cast to int. */
  function LengthAt(s: string, ptr: nat): int
    requires ptr < |s|
  {
    ToInt32(Strtol(s, ptr + 1))
  }

  /** The rest of the loop, when `n` more arguments are wanted and the unread bytes start at `ptr`. */
  function ScanArgs(s: string, ptr: nat, n: nat, errno: Errno): Scan
    requires ptr <= |s| && n > 0
    decreases |s| - ptr
  {
    var lf := IndexFrom(s, '\n', ptr);
    if lf == |s| then Scan(Wait, errno)
    else
      var len, e := LengthAt(s, ptr), ErrnoAfterStrtol(s, ptr + 1, errno);
      var body := lf + 1;
      if e == Invalid || len < 0 then Scan(Bad, e)
      else if len > |s| - body - 2 then Scan(Wait, e)
      else if n == 1 then Scan(Args([s[body..body + len]], body + len + 2), e)
      else ScanArgs(s, body + len + 2, n - 1, e).After([s[body..body + len]])
  }

  function ScanRequest(s: string, errno: Errno): Scan
    requires s != ""
  {
    if s[0] != '*' then Scan(Bad, errno)
    else
      var lf := IndexFrom(s, '\n', 0);
      if lf == |s| then Scan(Wait, errno)
      else
        var len, e := LengthAt(s, 0), ErrnoAfterStrtol(s, 1, errno);
        if e == Invalid || len <= 0 then Scan(Bad, e)
        else ScanArgs(s, lf + 1, len, e)
  }

  lemma {:induction false} ScanArgsBounds(s: string, ptr: nat, n: nat, errno: Errno)
    requires ptr <= |s| && n > 0
    ensures var r := ScanArgs(s, ptr, n, errno).request;
            r.Args? ==> |r.args| == n && ptr < r.consumed <= |s|
    decreases |s| - ptr
  {
    hide LengthAt, ErrnoAfterStrtol;
    var lf := IndexFrom(s, '\n', ptr);
    if lf < |s| && n > 1 {
      var next := lf + 1 + LengthAt(s, ptr) + 2;
      if lf + 1 < next <= |s| {
        ScanArgsBounds(s, next, n - 1, ErrnoAfterStrtol(s, ptr + 1, errno));
      }
    }
  }

  lemma ScanRequestBounds(s: string, errno: Errno)
    requires s != ""
    ensures var r := ScanRequest(s, errno).request;
            r.Args? ==> r.args != [] && 0 < r.consumed <= |s|
  {
    hide LengthAt, ErrnoAfterStrtol, ScanArgs;
    var lf := IndexFrom(s, '\n', 0);
    if lf < |s| && LengthAt(s, 0) > 0 {
      ScanArgsBounds(s, lf + 1, LengthAt(s, 0), ErrnoAfterStrtol(s, 1, errno));
    }
  }

  // ---------------------------------------------------------------- encoding

  function EncodeArgs(args: seq<string>): string {
    if args == [] then "" else BulkText(args[0]) + EncodeArgs(args[1..])
  }

  /** A request as the section "Sending commands to a Redis server" of the protocol lays it down. */
  function EncodeRequest(args: seq<string>): string {
    Heading('*', |args|) + EncodeArgs(args)
  }

  /** The number of arguments and their lengths fit in the ints they are read into. */
  predicate WellSized(args: seq<string>) {
    args != [] && |args| < INT32_LIMIT && forall i :: 0 <= i < |args| ==> |args[i]| < INT32_LIMIT
  }

  // ---------------------------------------------------------------- round trip

  lemma HeadingParts(s: string, ptr: nat, kind: char, d: string)
    requires At(s, ptr, [kind] + d + "\r\n")
    ensures var cr := ptr + 1 + |d|;
            && cr + 2 <= |s| && s[ptr] == kind && At(s, ptr + 1, d) && s[cr] == '\r' && s[cr + 1] == '\n'
  {
    var cr := ptr + 1 + |d|;
    AtParts(s, ptr, [kind] + d, "\r\n");
    AtParts(s, ptr, [kind], d);
    AtIndex(s, ptr, [kind], 0);
    AtIndex(s, cr, "\r\n", 0);
    AtIndex(s, cr, "\r\n", 1);
  }

  lemma SmallNumber(s: string, i: nat, n: nat, errno: Errno)
    requires i <= |s| && n < INT32_LIMIT && ReadNumber(s, i).value == n
    ensures ToInt32(Strtol(s, i)) == n && ErrnoAfterStrtol(s, i, errno) == errno
  {
    hide ReadNumber;
  }

  /** How the parser reads a heading: its LF, the number, and an errno that stays as it was. */
  lemma HeadingAt(s: string, ptr: nat, kind: char, n: nat, errno: Errno)
    requires kind != '\n' && n < INT32_LIMIT && At(s, ptr, Heading(kind, n))
    ensures IndexFrom(s, '\n', ptr) + 1 == ptr + |Heading(kind, n)| <= |s|
    ensures s[ptr] == kind && LengthAt(s, ptr) == n
    ensures ErrnoAfterStrtol(s, ptr + 1, errno) == errno
  {
    hide At, IndexFrom, ReadNumber, Strtol, ToInt32, ErrnoAfterStrtol, Dec, Heading;
    HeadingIsDecimal(kind, n);
    HeadingParts(s, ptr, kind, Dec(n));
    ReadPrinted(s, ptr + 1, n);
    SmallNumber(s, ptr + 1, n, errno);
    HeadingLine(s, ptr, ptr + 1 + |Dec(n)|, Dec(n));
  }

  lemma HeadingLine(s: string, ptr: nat, cr: nat, d: string)
    requires ptr + 1 + |d| == cr && cr + 1 < |s|
    requires At(s, ptr + 1, d) && AllDigits(d) && s[ptr] != '\n' && s[cr] == '\r' && s[cr + 1] == '\n'
    ensures IndexFrom(s, '\n', ptr) == cr + 1
  {
    forall j | ptr + 1 <= j < cr
      ensures s[j] != '\n'
    {
      AtIndex(s, ptr + 1, d, j - ptr - 1);
      assert IsDigit(d[j - ptr - 1]);
    }
  }

  lemma ScanOneArg(s: string, ptr: nat, a: string, n: nat, errno: Errno)
    requires |a| < INT32_LIMIT && n > 0 && errno != Invalid && At(s, ptr, BulkText(a))
    ensures ptr + |BulkText(a)| <= |s|
    ensures ScanArgs(s, ptr, n, errno)
         == if n == 1 then Scan(Args([a], ptr + |BulkText(a)|), errno)
            else ScanArgs(s, ptr + |BulkText(a)|, n - 1, errno).After([a])
  {
    hide LengthAt, ErrnoAfterStrtol, Heading, IndexFrom;
    var body := ptr + |Heading('$', |a|)|;
    AtParts(s, ptr, Heading('$', |a|), a + "\r\n");
    AtParts(s, body, a, "\r\n");
    HeadingAt(s, ptr, '$', |a|, errno);
  }

  lemma {:induction false} ScanEncodedArgs(s: string, ptr: nat, args: seq<string>, errno: Errno)
    requires WellSized(args) && errno != Invalid && At(s, ptr, EncodeArgs(args))
    ensures ScanArgs(s, ptr, |args|, errno) == Scan(Args(args, ptr + |EncodeArgs(args)|), errno)
    decreases |args|
  {
    hide BulkText, At, ScanArgs;
    var a, more := args[0], args[1..];
    var next := ptr + |BulkText(a)|;
    AtParts(s, ptr, BulkText(a), EncodeArgs(more));
    ScanOneArg(s, ptr, a, |args|, errno);
    assert args == [a] + more;
    if more == [] {
      assert args == [a] && EncodeArgs(args) == BulkText(a) + "";
    } else {
      ScanEncodedArgs(s, next, more, errno);
    }
  }

  /**
   parse_req gives back exactly the arguments of a well-formed request and takes exactly its bytes,
   whatever follows - if and only if errno is not EINVAL on entry. If it is, the request is refused.
   */
  lemma RequestRoundTrip(args: seq<string>, rest: string, errno: Errno)
    requires WellSized(args)
    ensures EncodeRequest(args) + rest != ""
    ensures ScanRequest(EncodeRequest(args) + rest, errno)
         == Scan(if errno == Invalid then Bad else Args(args, |EncodeRequest(args)|), errno)
  {
    hide LengthAt, ErrnoAfterStrtol, Heading, ScanArgs, EncodeArgs;
    var s := EncodeRequest(args) + rest;
    assert At(s, 0, EncodeRequest(args));
    AtParts(s, 0, Heading('*', |args|), EncodeArgs(args));
    HeadingAt(s, 0, '*', |args|, errno);
    if errno != Invalid {
      ScanEncodedArgs(s, |Heading('*', |args|)|, args, errno);
    }
  }

  // ------------------------------------------------------------ errno on entry

  lemma {:induction false} ScanArgsErrno(s: string, ptr: nat, n: nat, e: Errno, e': Errno)
    requires ptr <= |s| && n > 0 && e != Invalid && e' != Invalid
    ensures ScanArgs(s, ptr, n, e).request == ScanArgs(s, ptr, n, e').request
    decreases |s| - ptr
  {
    hide LengthAt, ErrnoAfterStrtol, IndexFrom;
    NotInvalidAfter(s, ptr, e);
    NotInvalidAfter(s, ptr, e');
    var lf := IndexFrom(s, '\n', ptr);
    if lf < |s| && n > 1 {
      var next := lf + 1 + LengthAt(s, ptr) + 2;
      if lf + 1 < next <= |s| {
        ScanArgsErrno(s, next, n - 1, ErrnoAfterStrtol(s, ptr + 1, e), ErrnoAfterStrtol(s, ptr + 1, e'));
      }
    }
  }

  lemma NotInvalidAfter(s: string, ptr: nat, errno: Errno)
    requires ptr <= |s| && errno != Invalid
    ensures ptr < |s| ==> ErrnoAfterStrtol(s, ptr + 1, errno) != Invalid
  {
  }

  lemma {:induction false} ScanArgsKeepsErrno(s: string, ptr: nat, n: nat, errno: Errno)
    requires ptr <= |s| && n > 0
    ensures KeptOrMasked(errno, ScanArgs(s, ptr, n, errno).errno)
    decreases |s| - ptr
  {
    hide LengthAt, IndexFrom, Strtol, ReadNumber;
    var lf := IndexFrom(s, '\n', ptr);
    if lf < |s| && n > 1 {
      var next := lf + 1 + LengthAt(s, ptr) + 2;
      if lf + 1 < next <= |s| {
        ScanArgsKeepsErrno(s, next, n - 1, ErrnoAfterStrtol(s, ptr + 1, errno));
      }
    }
  }

  /** parse_req itself never sets EINVAL. */
  lemma ScanKeepsErrno(s: string, errno: Errno)
    requires s != ""
    ensures KeptOrMasked(errno, ScanRequest(s, errno).errno)
  {
    hide LengthAt, IndexFrom, Strtol, ReadNumber, ScanArgs;
    var lf := IndexFrom(s, '\n', 0);
    if lf < |s| && LengthAt(s, 0) > 0 {
      ScanArgsKeepsErrno(s, lf + 1, LengthAt(s, 0), ErrnoAfterStrtol(s, 1, errno));
    }
  }

  /** A number out of strtol's range is cut to -1 or 0. */
  lemma OverflowIsNoLength(s: string, ptr: nat)
    requires ptr < |s| && Strtol(s, ptr + 1) != ReadNumber(s, ptr + 1).value
    ensures LengthAt(s, ptr) <= 0
  {
  }

  /**
   For every input, well-formed or not, the errno on entry matters only if it is EINVAL - and then
   nothing that has a heading line is accepted.
   */
  lemma ErrnoOnEntry(s: string, errno: Errno)
    requires s != ""
    ensures ScanRequest(s, errno).request
         == if errno == Invalid && '\n' in s then Bad else ScanRequest(s, Clear).request
  {
    hide LengthAt, ScanArgs;
    var lf := IndexFrom(s, '\n', 0);
    if s[0] == '*' && lf < |s| {
      assert s[lf] == '\n';
      if Strtol(s, 1) != ReadNumber(s, 1).value {
        OverflowIsNoLength(s, 0);
      } else if LengthAt(s, 0) > 0 && errno != Invalid {
        ScanArgsErrno(s, lf + 1, LengthAt(s, 0), errno, Clear);
      }
    }
  }

  // ------------------------------------------------------------ partial input

  /** Cutting a heading anywhere leaves no LF to find. */
  lemma HeadingCut(w: string, ptr: nat, kind: char, n: nat, k: nat)
    requires kind != '\n' && n < INT32_LIMIT && At(w, ptr, Heading(kind, n))
    requires ptr <= k < ptr + |Heading(kind, n)|
    ensures IndexFrom(w[..k], '\n', ptr) == k
  {
    hide LengthAt;
    HeadingAt(w, ptr, kind, n, Clear);
    var lf := IndexFrom(w, '\n', ptr);
    assert forall j :: ptr <= j < k ==> w[..k][j] == w[j] != '\n';
  }

  /** A heading that has arrived in full reads the same, however much more has arrived. */
  lemma HeadingKept(w: string, ptr: nat, kind: char, n: nat, k: nat)
    requires ptr + |Heading(kind, n)| <= k <= |w| && At(w, ptr, Heading(kind, n))
    ensures At(w[..k], ptr, Heading(kind, n))
  {
    var end := ptr + |Heading(kind, n)|;
    assert w[..k][ptr..end] == w[ptr..end];
  }

  lemma ScanPartialArg(w: string, ptr: nat, a: string, k: nat, n: nat, errno: Errno)
    requires |a| < INT32_LIMIT && n > 0 && errno != Invalid && At(w, ptr, BulkText(a))
    requires ptr <= k < ptr + |BulkText(a)|
    ensures ScanArgs(w[..k], ptr, n, errno) == Scan(Wait, errno)
  {
    hide LengthAt, ErrnoAfterStrtol, Heading, IndexFrom;
    AtParts(w, ptr, Heading('$', |a|), a + "\r\n");
    if k < ptr + |Heading('$', |a|)| {
      HeadingCut(w, ptr, '$', |a|, k);
    } else {
      HeadingKept(w, ptr, '$', |a|, k);
      HeadingAt(w[..k], ptr, '$', |a|, errno);
    }
  }

  lemma {:induction false} ScanPartialArgs(w: string, ptr: nat, args: seq<string>, k: nat, errno: Errno)
    requires WellSized(args) && errno != Invalid && At(w, ptr, EncodeArgs(args))
    requires ptr <= k < ptr + |EncodeArgs(args)|
    ensures ScanArgs(w[..k], ptr, |args|, errno) == Scan(Wait, errno)
    decreases |args|
  {
    hide BulkText, ScanArgs;
    var a, more := args[0], args[1..];
    var next := ptr + |BulkText(a)|;
    AtParts(w, ptr, BulkText(a), EncodeArgs(more));
    if k < next {
      ScanPartialArg(w, ptr, a, k, |args|, errno);
    } else {
      assert w[..k][ptr..next] == w[ptr..next];
      ScanOneArg(w[..k], ptr, a, |args|, errno);
      ScanPartialArgs(w, next, more, k, errno);
    }
  }

  /** Before the last byte of a request has arrived, parse_req waits: no error, no shorter request. */
  lemma PartialRequestWaits(args: seq<string>, k: nat, errno: Errno)
    requires WellSized(args) && errno != Invalid
    requires 0 < k < |EncodeRequest(args)|
    ensures ScanRequest(EncodeRequest(args)[..k], errno) == Scan(Wait, errno)
  {
    hide LengthAt, ErrnoAfterStrtol, Heading, ScanArgs, EncodeArgs;
    var w, n := EncodeRequest(args), |args|;
    var s := w[..k];
    assert At(w, 0, EncodeRequest(args));
    AtParts(w, 0, Heading('*', n), EncodeArgs(args));
    HeadingAt(w, 0, '*', n, errno);
    assert s[0] == w[0];
    if k < |Heading('*', n)| {
      HeadingCut(w, 0, '*', n, k);
    } else {
      HeadingKept(w, 0, '*', n, k);
      HeadingAt(s, 0, '*', n, errno);
      ScanPartialArgs(w, |Heading('*', n)|, args, k, errno);
    }
  }
}
