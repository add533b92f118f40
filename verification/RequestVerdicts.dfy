/**
 What parse_req makes of counts and lengths that a well-formed request does not have: which are
 refused, which are waited for, and which are taken for another number.
 */
module RequestVerdicts {
  import opened Text
  import opened Resp
  import opened RedisRequests

  /** A heading with any number behind any type character, LF excepted. */
  function Numbered(kind: char, v: int): string {
    [kind] + PrintInt(v) + "\r\n"
  }

  /** The number as parse_req has it: saturated by strtol and cast to int. */
  function AsLength(v: int): int {
    ToInt32(Clamp64(v))
  }

  function ErrnoAfterNumber(v: int, errno: Errno): Errno {
    if Clamp64(v) == v then errno else Other
  }

  lemma NumberedAt(s: string, ptr: nat, kind: char, v: int, errno: Errno)
    requires kind != '\n' && At(s, ptr, Numbered(kind, v))
    ensures IndexFrom(s, '\n', ptr) + 1 == ptr + |Numbered(kind, v)| <= |s|
    ensures s[ptr] == kind && LengthAt(s, ptr) == AsLength(v)
    ensures ErrnoAfterStrtol(s, ptr + 1, errno) == ErrnoAfterNumber(v, errno)
  {
    hide At, IndexFrom, ReadNumber, PrintInt, ToInt32, Clamp64;
    HeadingParts(s, ptr, kind, PrintInt(v));
    ReadPrinted(s, ptr + 1, v);
    NoLineFeedIn(v);
    FindLineFeed(s, ptr, kind, PrintInt(v));
  }

  lemma NoLineFeedIn(v: int)
    ensures '\n' !in PrintInt(v)
  {
    var d := Dec(if v < 0 then -v else v);
    assert forall i :: 0 <= i < |d| ==> IsDigit(d[i]);
  }

  lemma FindLineFeed(s: string, ptr: nat, kind: char, text: string)
    requires kind != '\n' && '\n' !in text
    requires var cr := ptr + 1 + |text|;
             cr + 1 < |s| && s[ptr] == kind && At(s, ptr + 1, text) && s[cr] == '\r' && s[cr + 1] == '\n'
    ensures IndexFrom(s, '\n', ptr) == ptr + 1 + |text| + 1
  {
    forall j | ptr + 1 <= j < ptr + 1 + |text|
      ensures s[j] != '\n'
    {
      AtIndex(s, ptr + 1, text, j - ptr - 1);
      assert text[j - ptr - 1] in text;
    }
  }

  /** A count that is not positive is refused at once; with a positive one the arguments are read. */
  lemma CountDecides(v: int, rest: string, errno: Errno)
    requires errno != Invalid
    ensures var s, e := Numbered('*', v) + rest, ErrnoAfterNumber(v, errno);
            s != "" &&
            (AsLength(v) <= 0 ==> ScanRequest(s, errno) == Scan(Bad, e)) &&
            (AsLength(v) > 0 ==> ScanRequest(s, errno) == ScanArgs(s, |Numbered('*', v)|, AsLength(v), e))
  {
    hide LengthAt, ErrnoAfterStrtol, IndexFrom, ScanArgs, PrintInt, AsLength;
    var s := Numbered('*', v) + rest;
    assert At(s, 0, Numbered('*', v));
    NumberedAt(s, 0, '*', v, errno);
  }

  lemma {:induction false} ScanSomeArgs(s: string, ptr: nat, done: seq<string>, n: nat, errno: Errno)
    requires (done != [] ==> WellSized(done)) && |done| < n && errno != Invalid && At(s, ptr, EncodeArgs(done))
    requires ptr <= |s|
    ensures ptr + |EncodeArgs(done)| <= |s|
    ensures ScanArgs(s, ptr, n, errno)
         == ScanArgs(s, ptr + |EncodeArgs(done)|, n - |done|, errno).After(done)
    decreases |done|
  {
    hide BulkText, At, ScanArgs;
    if done == [] {
      NothingBefore(ScanArgs(s, ptr, n, errno));
    } else {
      var a, more := done[0], done[1..];
      AtParts(s, ptr, BulkText(a), EncodeArgs(more));
      ScanOneArg(s, ptr, a, n, errno);
      ScanSomeArgs(s, ptr + |BulkText(a)|, more, n - 1, errno);
      BeforeBoth(ScanArgs(s, ptr + |EncodeArgs(done)|, n - |done|, errno), a, more);
      assert done == [a] + more;
    }
  }

  lemma NothingBefore(s: Scan)
    ensures s.After([]) == s
  {
    if s.request.Args? {
      assert [] + s.request.args == s.request.args;
    }
  }

  lemma BeforeBoth(s: Scan, a: string, more: seq<string>)
    ensures s.After(more).After([a]) == s.After([a] + more)
  {
    if s.request.Args? {
      assert [a] + (more + s.request.args) == [a] + more + s.request.args;
    }
  }

  /** The bytes up to and including the heading of the argument behind `done`. */
  function UpToLength(n: nat, done: seq<string>, kind: char, v: int): string {
    Heading('*', n) + EncodeArgs(done) + Numbered(kind, v)
  }

  /**
   The length of an argument decides: a negative one is refused whatever follows, one that is larger
   than what has arrived (with the two bytes behind the argument) is waited for, and any other is
   taken, whatever its type character and whatever those two bytes are.
   */
  lemma LengthDecides(n: nat, done: seq<string>, kind: char, v: int, rest: string, errno: Errno)
    requires |done| < n < INT32_LIMIT && (done != [] ==> WellSized(done)) && kind != '\n' && errno != Invalid
    ensures var s, len := UpToLength(n, done, kind, v) + rest, AsLength(v);
            s != "" &&
            var r := ScanRequest(s, errno);
            && (len < 0 ==> r.request == Bad)
            && (len >= 0 && |rest| < len + 2 ==> r.request == Wait)
            && (len >= 0 && |rest| >= len + 2 && n == |done| + 1 ==>
                  r.request == Args(done + [rest[..len]], |s| - |rest| + len + 2))
  {
    hide LengthAt, ErrnoAfterStrtol, ScanArgs, Heading, Numbered, EncodeArgs, AsLength, IndexFrom;
    var head := Heading('*', n) + EncodeArgs(done);
    var s := UpToLength(n, done, kind, v) + rest;
    var ptr := |head|;
    HeadingNotEmpty('*', n);
    assert At(s, 0, head + Numbered(kind, v));
    AtParts(s, 0, head, Numbered(kind, v));
    AtParts(s, 0, Heading('*', n), EncodeArgs(done));
    HeadingAt(s, 0, '*', n, errno);
    ScanSomeArgs(s, |Heading('*', n)|, done, n, errno);
    NumberedAt(s, ptr, kind, v, errno);
    LastLength(s, ptr, n - |done|, v, errno, rest);
    assert |s| == ptr + |Numbered(kind, v)| + |rest|;
  }

  lemma HeadingNotEmpty(kind: char, n: nat)
    ensures Heading(kind, n) != ""
  {
  }

  lemma LastLength(s: string, ptr: nat, n: nat, v: int, errno: Errno, rest: string)
    requires ptr < |s| && n > 0 && errno != Invalid && LengthAt(s, ptr) == AsLength(v)
    requires ErrnoAfterStrtol(s, ptr + 1, errno) == ErrnoAfterNumber(v, errno)
    requires IndexFrom(s, '\n', ptr) < |s| && s[IndexFrom(s, '\n', ptr) + 1..] == rest
    ensures var r, len := ScanArgs(s, ptr, n, errno), AsLength(v);
            && (len < 0 ==> r.request == Bad)
            && (len >= 0 && |rest| < len + 2 ==> r.request == Wait)
            && (len >= 0 && |rest| >= len + 2 && n == 1 ==>
                  r.request == Args([rest[..len]], |s| - |rest| + len + 2))
  {
    hide LengthAt, ErrnoAfterStrtol, IndexFrom, AsLength;
    var body := IndexFrom(s, '\n', ptr) + 1;
    assert |rest| == |s| - body;
    var len := AsLength(v);
    if 0 <= len <= |rest| {
      assert s[body..body + len] == rest[..len];
    }
  }

  /** What is no request at all is refused at its first byte. */
  lemma NoStarRefused(s: string, errno: Errno)
    requires s != "" && s[0] != '*'
    ensures ScanRequest(s, errno) == Scan(Bad, errno)
  {
  }

  /** A length two to the 32 too large is taken for the right one. */
  lemma WrappedLength(v: nat)
    requires v < INT32_LIMIT
    ensures AsLength(v) == v && AsLength(v + 0x1_0000_0000) == v && AsLength(-1 - v) < 0
  {
  }
}
