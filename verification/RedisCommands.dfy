/** RedisLink::convert_req: from a Redis command to the command sent on to the SSDB server. */
module RedisCommands {
  import opened Text

  datatype Option<+T> = None | Some(value: T)

  datatype Strategy =
    | Auto | Ping | MGet | HMGet | HGetAll | HKeys | HVals | SetEx
    | ZRange | ZRevRange | ZRangeByScore | ZRevRangeByScore | ZAdd | ZIncrBy
    | RemRangeByRank | RemRangeByScore

  datatype ReplyType = Bulk | MultiBulk | Int | Status

  datatype RequestDesc = RequestDesc(strategy: Strategy, ssdbCmd: string, replyType: ReplyType)

  /** cmds_raw; a command that is not listed is forwarded as it came. */
  function Lookup(cmd: string): Option<RequestDesc> {
    match cmd
    case "ping" => Some(RequestDesc(Ping, "ping", Status))
    case "get" => Some(RequestDesc(Auto, "get", Bulk))
    case "getset" => Some(RequestDesc(Auto, "getset", Bulk))
    case "set" => Some(RequestDesc(Auto, "set", Status))
    case "setnx" => Some(RequestDesc(Auto, "setnx", Int))
    case "exists" => Some(RequestDesc(Auto, "exists", Int))
    case "incr" => Some(RequestDesc(Auto, "incr", Int))
    case "decr" => Some(RequestDesc(Auto, "decr", Int))
    case "ttl" => Some(RequestDesc(Auto, "ttl", Int))
    case "expire" => Some(RequestDesc(Auto, "expire", Int))
    case "getbit" => Some(RequestDesc(Auto, "getbit", Int))
    case "setbit" => Some(RequestDesc(Auto, "setbit", Int))
    case "strlen" => Some(RequestDesc(Auto, "strlen", Int))
    case "bitcount" => Some(RequestDesc(Auto, "redis_bitcount", Int))
    case "substr" => Some(RequestDesc(Auto, "getrange", Bulk))
    case "getrange" => Some(RequestDesc(Auto, "getrange", Bulk))
    case "keys" => Some(RequestDesc(Auto, "keys", MultiBulk))
    case "hset" => Some(RequestDesc(Auto, "hset", Int))
    case "hget" => Some(RequestDesc(Auto, "hget", Bulk))
    case "hexists" => Some(RequestDesc(Auto, "hexists", Int))
    case "del" => Some(RequestDesc(Auto, "multi_del", Int))
    case "mset" => Some(RequestDesc(Auto, "multi_set", Status))
    case "incrby" => Some(RequestDesc(Auto, "incr", Int))
    case "decrby" => Some(RequestDesc(Auto, "decr", Int))
    case "hmset" => Some(RequestDesc(Auto, "multi_hset", Status))
    case "hdel" => Some(RequestDesc(Auto, "multi_hdel", Int))
    case "hmdel" => Some(RequestDesc(Auto, "multi_hdel", Int))
    case "hlen" => Some(RequestDesc(Auto, "hsize", Int))
    case "hincrby" => Some(RequestDesc(Auto, "hincr", Int))
    case "zcard" => Some(RequestDesc(Auto, "zsize", Int))
    case "zscore" => Some(RequestDesc(Auto, "zget", Bulk))
    case "zrem" => Some(RequestDesc(Auto, "multi_zdel", Int))
    case "zrank" => Some(RequestDesc(Auto, "zrank", Int))
    case "zrevrank" => Some(RequestDesc(Auto, "zrrank", Int))
    case "zcount" => Some(RequestDesc(Auto, "zcount", Int))
    case "zremrangebyrank" => Some(RequestDesc(RemRangeByRank, "zremrangebyrank", Int))
    case "zremrangebyscore" => Some(RequestDesc(RemRangeByScore, "zremrangebyscore", Int))
    case "mget" => Some(RequestDesc(MGet, "multi_get", MultiBulk))
    case "hmget" => Some(RequestDesc(HMGet, "multi_hget", MultiBulk))
    case "hgetall" => Some(RequestDesc(HGetAll, "hgetall", MultiBulk))
    case "hkeys" => Some(RequestDesc(HKeys, "hkeys", MultiBulk))
    case "hvals" => Some(RequestDesc(HVals, "hvals", MultiBulk))
    case "setex" => Some(RequestDesc(SetEx, "setx", Status))
    case "zrange" => Some(RequestDesc(ZRange, "zrange", MultiBulk))
    case "zrevrange" => Some(RequestDesc(ZRevRange, "zrrange", MultiBulk))
    case "zadd" => Some(RequestDesc(ZAdd, "multi_zset", Int))
    case "zincrby" => Some(RequestDesc(ZIncrBy, "zincr", Bulk))
    case "zrangebyscore" => Some(RequestDesc(ZRangeByScore, "zscan", MultiBulk))
    case "zrevrangebyscore" => Some(RequestDesc(ZRevRangeByScore, "zrscan", MultiBulk))
    case "lpush" => Some(RequestDesc(Auto, "qpush_front", Int))
    case "rpush" => Some(RequestDesc(Auto, "qpush_back", Int))
    case "lpop" => Some(RequestDesc(Auto, "qpop_front", Bulk))
    case "rpop" => Some(RequestDesc(Auto, "qpop_back", Bulk))
    case "llen" => Some(RequestDesc(Auto, "qsize", Int))
    case "lsize" => Some(RequestDesc(Auto, "qsize", Int))
    case "lindex" => Some(RequestDesc(Auto, "qget", Bulk))
    case "lset" => Some(RequestDesc(Auto, "qset", Status))
    case "lrange" => Some(RequestDesc(Auto, "qslice", MultiBulk))
    case "dbsize" => Some(RequestDesc(Auto, "dbsize", Int))
    case _ => None
  }

  /** The command to send on, and the errno that its conversions leave. */
  datatype Converted = Converted(command: seq<string>, errno: Errno)

  // ------------------------------------------------------------ ZADD

  /** The arguments from `i` on, two by two and swapped; a last single one is dropped. */
  function SwapPairs(args: seq<string>, i: nat): seq<string>
    decreases |args| - i
  {
    if i + 2 <= |args| then [args[i + 1], args[i]] + SwapPairs(args, i + 2) else []
  }

  function ConvertZAdd(args: seq<string>): seq<string> {
    if |args| >= 2 then [args[1]] + SwapPairs(args, 2) else []
  }

  // ------------------------------------------------------------ ZRANGE

  /** Redis gives two ends, SSDB wants an offset and a size; -1 stands for "to the end" in both. */
  function ConvertZRange(args: seq<string>, errno: Errno): Converted {
    var e := if |args| >= 4 then ErrnoAfterWhole(args[3], ErrnoAfterWhole(args[2], errno)) else errno;
    var range :=
      if |args| < 4 then []
      else
        var start, end := StrToInt64(args[2]), StrToInt64(args[3]);
        if end == -1 then [args[1], args[2], StrInt64(-1)]
        else if start >= 0 && end >= 0 then [args[1], args[2], StrInt64(ToInt64(end - start + 1))]
        else [];
    Converted(range + if |args| > 4 then [Lower(args[4])] else [], e)
  }

  // ------------------------------------------------------------ ZRANGEBYSCORE

  datatype Options = Options(withscores: string, offset: string, count: string, afterLimit: bool) {

    function Take(arg: string): Options {
      var o := if !afterLimit then this
               else if offset == "" then this.(offset := arg)
               else this.(count := arg, afterLimit := false);
      if Lower(arg) == "withscores" then o.(withscores := Lower(arg))
      else if Lower(arg) == "limit" then o.(afterLimit := true)
      else o
    }
  }

  const NO_OPTIONS := Options("", "", "", false)

  function ScanOptions(o: Options, args: seq<string>): Options
    decreases |args|
  {
    if args == [] then o else ScanOptions(o.Take(args[0]), args[1..])
  }

  /** The bound sent on: inclusive, moved by `step` if it was exclusive, empty if it was infinite. */
  function AdjustBound(bound: string, step: int): string
    requires bound != ""
  {
    if bound == "-inf" || bound == "+inf" then ""
    else if bound[0] == '(' then Snprintf(32, PrintInt(ToInt32(StrToInt(bound[1..]) + step)))
    else bound
  }

  function ErrnoAfterBound(bound: string, errno: Errno): Errno
    requires bound != ""
  {
    if bound != "-inf" && bound != "+inf" && bound[0] == '(' then ErrnoAfterWhole(bound[1..], errno) else errno
  }

  function OrElse(s: string, default: string): string {
    if s == "" then default else s
  }

  function ConvertByScore(args: seq<string>, step: int, errno: Errno): Converted {
    if |args| < 4 || args[2] == "" || args[3] == "" then Converted([], errno)
    else
      var o := ScanOptions(NO_OPTIONS, args[4..]);
      Converted([args[1], "", AdjustBound(args[2], step), AdjustBound(args[3], -step),
                 OrElse(o.offset, "0"), OrElse(o.count, "2000000000"), o.withscores],
                ErrnoAfterBound(args[3], ErrnoAfterBound(args[2], errno)))
  }

  // ------------------------------------------------------------ all commands

  /** What follows the SSDB command name. */
  function ConvertArgs(strategy: Strategy, args: seq<string>, errno: Errno): Converted
    requires args != []
  {
    match strategy
    case HKeys => Converted(if |args| == 2 then [args[1], "", "", "2000000000"] else [], errno)
    case HVals => Converted(if |args| == 2 then [args[1], "", "", "2000000000"] else [], errno)
    case SetEx => Converted(if |args| == 4 then [args[1], args[3], args[2]] else [], errno)
    case ZAdd => Converted(ConvertZAdd(args), errno)
    case ZIncrBy => Converted(if |args| == 4 then [args[1], args[3], args[2]] else [], errno)
    case RemRangeByRank => Converted(if |args| >= 4 then args[1..4] else [], errno)
    case RemRangeByScore => Converted(if |args| >= 4 then args[1..4] else [], errno)
    case ZRange => ConvertZRange(args, errno)
    case ZRevRange => ConvertZRange(args, errno)
    case ZRangeByScore => ConvertByScore(args, 1, errno)
    case ZRevRangeByScore => ConvertByScore(args, -1, errno)
    case _ => Converted(args[1..], errno)
  }

  function Convert(desc: Option<RequestDesc>, cmd: string, args: seq<string>, errno: Errno): (c: Converted)
    requires args != []
    ensures c.command != []
  {
    match desc
    case None => Converted([cmd] + args[1..], errno)
    case Some(d) =>
      var c := ConvertArgs(d.strategy, args, errno);
      c.(command := [d.ssdbCmd] + c.command)
  }

  // ============================================================ ZADD

  function FlatPairs(pairs: seq<(string, string)>): seq<string> {
    if pairs == [] then [] else [pairs[0].0, pairs[0].1] + FlatPairs(pairs[1..])
  }

  function Swapped(pairs: seq<(string, string)>): (r: seq<(string, string)>)
    ensures |r| == |pairs| && forall i :: 0 <= i < |r| ==> r[i] == (pairs[i].1, pairs[i].0)
  {
    seq(|pairs|, i requires 0 <= i < |pairs| => (pairs[i].1, pairs[i].0))
  }

  lemma {:induction false} SwapPairsOf(head: seq<string>, pairs: seq<(string, string)>, odd: seq<string>)
    requires |odd| <= 1
    ensures SwapPairs(head + FlatPairs(pairs) + odd, |head|) == FlatPairs(Swapped(pairs))
    decreases |pairs|
  {
    var args := head + FlatPairs(pairs) + odd;
    if pairs != [] {
      var head' := head + [pairs[0].0, pairs[0].1];
      assert args == head' + FlatPairs(pairs[1..]) + odd;
      assert Swapped(pairs)[1..] == Swapped(pairs[1..]);
      SwapPairsOf(head', pairs[1..], odd);
    }
  }

  /**
   ZADD key s1 m1 s2 m2 ... becomes multi_zset key m1 s1 m2 s2 ...: the same pairs, swapped, in
   order. An argument left over after the last pair is the only thing that gets lost.
   */
  lemma ZAddKeepsPairs(cmd: string, key: string, pairs: seq<(string, string)>, odd: seq<string>, errno: Errno)
    requires |odd| <= 1
    ensures Convert(Lookup("zadd"), "zadd", [cmd, key] + FlatPairs(pairs) + odd, errno)
         == Converted(["multi_zset", key] + FlatPairs(Swapped(pairs)), errno)
  {
    SwapPairsOf([cmd, key], pairs, odd);
  }

  // ============================================================ conservation of arguments

  /** The strategies that only rename the command and move its arguments about. */
  predicate OnlyMoves(desc: Option<RequestDesc>) {
    desc.None? ||
    match desc.value.strategy
    case HKeys | HVals | ZRange | ZRevRange | ZRangeByScore | ZRevRangeByScore => false
    case _ => true
  }

  /** The number of elements, command name included, that the strategy is written for. */
  predicate FittingArity(desc: Option<RequestDesc>, n: nat) {
    desc.None? ||
    match desc.value.strategy
    case SetEx | ZIncrBy | RemRangeByRank | RemRangeByScore => n == 1 || n == 4
    case ZAdd => n == 1 || n % 2 == 0
    case _ => true
  }

  lemma ExchangedFront(a: string, b: string, s: seq<string>, t: seq<string>)
    requires multiset(s) == multiset(t)
    ensures multiset([b, a] + s) == multiset([a, b] + t)
  {
    assert multiset([b, a] + s) == multiset{a, b} + multiset(s);
    assert multiset([a, b] + t) == multiset{a, b} + multiset(t);
  }

  /** Cutting a list off loses nothing exactly if there is nothing behind the cut. */
  lemma CutConserves(s: seq<string>, k: nat)
    requires k <= |s|
    ensures multiset(s[..k]) <= multiset(s)
    ensures multiset(s[..k]) == multiset(s) <==> k == |s|
  {
    assert s == s[..k] + s[k..];
    assert multiset(s) == multiset(s[..k]) + multiset(s[k..]);
    assert |multiset(s[..k])| == k && |multiset(s)| == |s|;
  }

  /** Where the last complete pair ends. */
  function PairsEnd(n: nat, i: nat): (end: nat)
    requires i <= n
    ensures i <= end <= n
  {
    if (n - i) % 2 == 0 then n else n - 1
  }

  lemma FrontOfSlice(args: seq<string>, i: nat, end: nat)
    requires i + 2 <= end <= |args|
    ensures args[i..end] == [args[i], args[i + 1]] + args[i + 2..end]
  {
  }

  lemma SameFront(a: string, s: seq<string>, t: seq<string>)
    requires multiset(s) == multiset(t)
    ensures multiset([a] + s) == multiset([a] + t)
  {
    assert multiset([a] + s) == multiset{a} + multiset(s);
    assert multiset([a] + t) == multiset{a} + multiset(t);
  }

  lemma {:induction false} SwapPairsConserve(args: seq<string>, i: nat)
    requires i <= |args|
    ensures multiset(SwapPairs(args, i)) == multiset(args[i..PairsEnd(|args|, i)])
    decreases |args| - i
  {
    var end := PairsEnd(|args|, i);
    if i + 2 <= |args| {
      var a, b, s, t := args[i], args[i + 1], SwapPairs(args, i + 2), args[i + 2..end];
      assert PairsEnd(|args|, i + 2) == end;
      SwapPairsConserve(args, i + 2);
      FrontOfSlice(args, i, end);
      ExchangedFront(a, b, s, t);
    } else {
      assert args[i..end] == [];
    }
  }

  /** How many of `n` - 1 arguments are sent on. */
  function Kept(desc: Option<RequestDesc>, n: nat): nat
    requires n > 0
  {
    if desc.None? then n - 1
    else
      match desc.value.strategy
      case SetEx | ZIncrBy => if n == 4 then 3 else 0
      case RemRangeByRank | RemRangeByScore => if n >= 4 then 3 else 0
      case ZAdd => if n >= 2 then PairsEnd(n, 2) - 1 else 0
      case _ => n - 1
  }

  lemma ZAddKeeps(args: seq<string>)
    requires |args| >= 2
    ensures multiset(ConvertZAdd(args)) == multiset(args[1..][..PairsEnd(|args|, 2) - 1])
  {
    hide PairsEnd, SwapPairs;
    var end := PairsEnd(|args|, 2);
    SwapPairsConserve(args, 2);
    assert args[1..][..end - 1] == [args[1]] + args[2..end];
    SameFront(args[1], SwapPairs(args, 2), args[2..end]);
  }

  lemma ThreeArguments(args: seq<string>)
    requires |args| >= 4
    ensures args[1..][..3] == args[1..4]
    ensures multiset([args[1], args[3], args[2]]) == multiset(args[1..][..3])
  {
    assert args[1..][..3] == args[1..4] == [args[1], args[2], args[3]];
  }

  lemma SentArguments(desc: Option<RequestDesc>, cmd: string, args: seq<string>, errno: Errno)
    requires args != []
    ensures Convert(desc, cmd, args, errno).command[1..]
         == if desc.None? then args[1..] else ConvertArgs(desc.value.strategy, args, errno).command
  {
    hide ConvertArgs;
  }

  lemma MovedArguments(d: RequestDesc, args: seq<string>, errno: Errno)
    requires args != [] && OnlyMoves(Some(d))
    ensures Kept(Some(d), |args|) <= |args| - 1
    ensures multiset(ConvertArgs(d.strategy, args, errno).command) == multiset(args[1..][..Kept(Some(d), |args|)])
  {
    hide ConvertZAdd, ConvertZRange, ConvertByScore, PairsEnd;
    assert args[1..][..|args| - 1] == args[1..];
    match d.strategy
    case SetEx | ZIncrBy | RemRangeByRank | RemRangeByScore =>
      if |args| >= 4 {
        ThreeArguments(args);
      }
    case ZAdd =>
      NoArguments(args);
      if |args| >= 2 {
        ZAddKeeps(args);
      }
    case _ =>
  }

  lemma KeptArguments(desc: Option<RequestDesc>, cmd: string, args: seq<string>, errno: Errno)
    requires args != [] && OnlyMoves(desc)
    ensures Kept(desc, |args|) <= |args| - 1
    ensures multiset(Convert(desc, cmd, args, errno).command[1..]) == multiset(args[1..][..Kept(desc, |args|)])
  {
    SentArguments(desc, cmd, args, errno);
    if desc.Some? {
      MovedArguments(desc.value, args, errno);
      assert desc == Some(desc.value);
    } else {
      assert args[1..][..|args| - 1] == args[1..];
    }
  }

  lemma NoArguments(args: seq<string>)
    ensures |args| < 2 ==> ConvertZAdd(args) == []
  {
  }

  /**
   Of all commands whose arguments are only moved about: what is sent on holds the same arguments,
   each as often - if and only if the request has a fitting length. Otherwise arguments are
   dropped, and never are any invented.
   */
  lemma ArgumentsConservedIff(desc: Option<RequestDesc>, cmd: string, args: seq<string>, errno: Errno)
    requires args != [] && OnlyMoves(desc)
    ensures var sent := Convert(desc, cmd, args, errno).command[1..];
            && multiset(sent) <= multiset(args[1..])
            && (multiset(sent) == multiset(args[1..]) <==> FittingArity(desc, |args|))
  {
    KeptArguments(desc, cmd, args, errno);
    hide Convert;
    CutConserves(args[1..], Kept(desc, |args|));
  }
}
