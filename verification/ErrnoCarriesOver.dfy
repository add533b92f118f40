/**
 parse_req reads errno after strtol, which does not set it to EINVAL - but the conversions of an
 earlier request may have. A well-formed request is then refused because of the request before it.
 No system call is supposed to fail in between.
 */
module ErrnoCarriesOver {
  import opened Text
  import opened RedisCommands
  import opened RedisRequests

  /** convert_req on a request as parse_req has left it. */
  function Converting(args: seq<string>, errno: Errno): Converted
    requires args != []
  {
    var cmd := Lower(args[0]);
    Convert(Lookup(cmd), cmd, args, errno)
  }

  /** The letter case of the command does not matter. */
  lemma CommandInAnyCase(name: string, name': string, args: seq<string>, errno: Errno)
    requires Lower(name) == Lower(name')
    ensures Converting([name] + args, errno) == Converting([name'] + args, errno)
  {
    hide Lookup, Lower, AdjustBound, ErrnoAfterBound, ErrnoAfterWhole, ScanOptions, StrToInt64, StrInt64, ToInt64;
    var a, b := [name] + args, [name'] + args;
    assert a[1..] == args == b[1..];
    assert |a| >= 4 ==> a[1..4] == b[1..4] && a[4..] == b[4..];
    SameSwapped(name, name', args, 2);
  }

  lemma {:induction false} SameSwapped(name: string, name': string, args: seq<string>, i: nat)
    requires i > 0
    ensures SwapPairs([name] + args, i) == SwapPairs([name'] + args, i)
    decreases |args| - i
  {
    if i + 2 <= |args| + 1 {
      SameSwapped(name, name', args, i + 2);
    }
  }

  // ------------------------------------------------------------ which texts are read as numbers

  predicate IsWhole(s: string) {
    ReadNumber(s, 0).end == |s|
  }

  predicate Overflows(s: string) {
    Strtol(s, 0) != ReadNumber(s, 0).value
  }

  /** Not a number as a whole, and nothing about it sets errno to another value. */
  predicate Unreadable(s: string) {
    !IsWhole(s) && !Overflows(s)
  }

  /** What stands behind the '(' of an exclusive bound; other bounds are not read at all. */
  function BoundText(bound: string): (ts: seq<string>)
    ensures |ts| <= 1
  {
    if bound != "" && bound[0] == '(' then [bound[1..]] else []
  }

  /** The texts that a command converts, in order. All commands but four convert none. */
  function TextsRead(strategy: Strategy, args: seq<string>): (ts: seq<string>)
    ensures |ts| <= 2
  {
    match strategy
    case ZRange | ZRevRange =>
      if |args| >= 4 then [args[2], args[3]] else []
    case ZRangeByScore | ZRevRangeByScore =>
      if |args| >= 4 && args[2] != "" && args[3] != "" then BoundText(args[2]) + BoundText(args[3]) else []
    case _ => []
  }

  function NumbersOf(args: seq<string>): (ts: seq<string>)
    requires args != []
    ensures |ts| <= 2
  {
    match Lookup(Lower(args[0]))
    case None => []
    case Some(d) => TextsRead(d.strategy, args)
  }

  function ErrnoAfterAll(ts: seq<string>, errno: Errno): Errno
    decreases |ts|
  {
    if ts == [] then errno else ErrnoAfterAll(ts[1..], ErrnoAfterWhole(ts[0], errno))
  }

  lemma ErrnoAfterTwo(a: string, b: string, errno: Errno)
    ensures ErrnoAfterAll([a], errno) == ErrnoAfterWhole(a, errno)
    ensures ErrnoAfterAll([a, b], errno) == ErrnoAfterWhole(b, ErrnoAfterWhole(a, errno))
  {
    hide ErrnoAfterWhole;
    var e := ErrnoAfterWhole(a, errno);
    assert [a, b][1..] == [b] && [b][1..] == [] && [a][1..] == [];
    assert ErrnoAfterAll([b], e) == ErrnoAfterAll([], ErrnoAfterWhole(b, e));
  }

  /** errno changes only through these texts. */
  lemma ErrnoOfConversion(args: seq<string>, errno: Errno)
    requires args != []
    ensures Converting(args, errno).errno == ErrnoAfterAll(NumbersOf(args), errno)
  {
    hide ErrnoAfterWhole, ErrnoAfterAll, Lookup, Lower, StrToInt64, StrInt64, ToInt64, AdjustBound, ScanOptions,
      SwapPairs;
    assert ErrnoAfterAll([], errno) == errno by {
      NoTexts(errno);
    }
    if |args| >= 4 {
      ErrnoAfterTwo(args[2], args[3], errno);
      if args[2] != "" && args[3] != "" {
        BoundsRead(args[2], args[3], errno);
      }
    }
  }

  lemma NoTexts(errno: Errno)
    ensures ErrnoAfterAll([], errno) == errno
  {
  }

  lemma BoundsRead(low: string, high: string, errno: Errno)
    requires low != "" && high != ""
    ensures ErrnoAfterBound(high, ErrnoAfterBound(low, errno))
         == ErrnoAfterAll(BoundText(low) + BoundText(high), errno)
  {
    hide ErrnoAfterWhole, ErrnoAfterAll;
    NoTexts(errno);
    ErrnoAfterTwo(low[1..], high[1..], errno);
    ErrnoAfterTwo(high[1..], "", errno);
    assert "-inf"[0] == '-' && "+inf"[0] == '+';
    var ts := BoundText(low) + BoundText(high);
    assert ts == if low[0] != '(' then BoundText(high)
                 else if high[0] != '(' then [low[1..]] else [low[1..], high[1..]];
  }

  // ------------------------------------------------------------ when EINVAL is left

  /**
   The last text read is no number and did not overflow, and errno had no other value before it.
   A command that reads no number leaves errno as it was.
   */
  predicate LeavesInvalid(ts: seq<string>, before: Errno)
    requires |ts| <= 2
  {
    match |ts|
    case 0 => before == Invalid
    case 1 => Unreadable(ts[0]) && before != Other
    case _ => Unreadable(ts[1]) && (IsWhole(ts[0]) || (Unreadable(ts[0]) && before != Other))
  }

  lemma ErrnoLeftIff(args: seq<string>, before: Errno)
    requires args != []
    ensures Converting(args, before).errno == Invalid <==> LeavesInvalid(NumbersOf(args), before)
  {
    hide NumbersOf, Converting, ReadNumber, Strtol;
    var ts := NumbersOf(args);
    ErrnoOfConversion(args, before);
    if |ts| == 1 {
      assert ts == [ts[0]];
      ErrnoAfterTwo(ts[0], "", before);
    } else if |ts| == 2 {
      assert ts == [ts[0], ts[1]];
      ErrnoAfterTwo(ts[0], ts[1], before);
    }
  }

  /** After any request, the next well-formed request is refused exactly in this case. */
  lemma NextRequestRefusedIff(args: seq<string>, before: Errno, next: seq<string>, rest: string)
    requires args != [] && WellSized(next)
    ensures EncodeRequest(next) + rest != "" &&
            (ScanRequest(EncodeRequest(next) + rest, Converting(args, before).errno).request == Bad
             <==> LeavesInvalid(NumbersOf(args), before))
  {
    hide ScanRequest, EncodeRequest, NumbersOf, Converting, LeavesInvalid;
    RequestRoundTrip(next, rest, Converting(args, before).errno);
    ErrnoLeftIff(args, before);
  }

  /** For example, after these two requests with a clear errno. */
  lemma RefusedAfterBadRange(next: seq<string>, rest: string)
    requires WellSized(next)
    ensures EncodeRequest(next) + rest != ""
    ensures ScanRequest(EncodeRequest(next) + rest, Converting(["ZRANGE", "k", "0", "end"], Clear).errno).request == Bad
    ensures ScanRequest(EncodeRequest(next) + rest,
                        Converting(["ZRANGEBYSCORE", "k", "(a", "(b"], Clear).errno).request == Bad
  {
    hide ScanRequest, EncodeRequest, Converting, ReadNumber;
    BadRange();
    var range, scores := ["ZRANGE", "k", "0", "end"], ["ZRANGEBYSCORE", "k", "(a", "(b"];
    NotNumbers();
    assert Lower("ZRANGE") == "zrange" && Lower("ZRANGEBYSCORE") == "zrangebyscore";
    assert "(a"[1..] == "a" && "(b"[1..] == "b";
    assert NumbersOf(scores) == ["a", "b"];
    NextRequestRefusedIff(range, Clear, next, rest);
    NextRequestRefusedIff(scores, Clear, next, rest);
  }

  lemma BadRange()
    ensures NumbersOf(["ZRANGE", "k", "0", "end"]) == ["0", "end"] && LeavesInvalid(["0", "end"], Clear)
    ensures Converting(["ZRANGE", "k", "0", "end"], Clear).errno == Invalid
  {
    hide Converting, ReadNumber;
    NotNumbers();
    assert Lower("ZRANGE") == "zrange";
    assert NumbersOf(["ZRANGE", "k", "0", "end"]) == ["0", "end"];
    ErrnoLeftIff(["ZRANGE", "k", "0", "end"], Clear);
  }

  lemma NotNumbers()
    ensures ReadNumber("0", 0) == Number(0, 1)
    ensures ReadNumber("end", 0) == ReadNumber("a", 0) == ReadNumber("b", 0) == Number(0, 0)
  {
    assert DigitsEnd("end", 0) == DigitsEnd("a", 0) == DigitsEnd("b", 0) == 0;
    assert Value("0", 0, 0) == 0;
    assert DigitsEnd("0", 0) == 1;
  }
}
