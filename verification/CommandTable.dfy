/**
 What the command table promises, command by command: the name that is sent on, the place of every
 argument, and the kind of reply - up to the decoded reply itself.
 */
module CommandTable {
  import opened Text
  import opened RedisCommands
  import opened RedisReplies
  import opened ReplyDecoding
  import opened ScoreReplies

  // ------------------------------------------------------------ names and places

  /** The commands that SSDB knows by another name; all others keep theirs, known or not. */
  function SsdbName(cmd: string): string {
    match cmd
    case "substr" => "getrange"
    case "bitcount" => "redis_bitcount"
    case "incrby" => "incr"
    case "decrby" => "decr"
    case "setex" => "setx"
    case "del" => "multi_del"
    case "mget" => "multi_get"
    case "mset" => "multi_set"
    case "hlen" => "hsize"
    case "hincrby" => "hincr"
    case "hdel" | "hmdel" => "multi_hdel"
    case "hmget" => "multi_hget"
    case "hmset" => "multi_hset"
    case "zcard" => "zsize"
    case "zscore" => "zget"
    case "zincrby" => "zincr"
    case "zrem" => "multi_zdel"
    case "zadd" => "multi_zset"
    case "zrevrank" => "zrrank"
    case "zrevrange" => "zrrange"
    case "zrangebyscore" => "zscan"
    case "zrevrangebyscore" => "zrscan"
    case "llen" | "lsize" => "qsize"
    case "lindex" => "qget"
    case "lset" => "qset"
    case "lrange" => "qslice"
    case "lpush" => "qpush_front"
    case "rpush" => "qpush_back"
    case "lpop" => "qpop_front"
    case "rpop" => "qpop_back"
    case _ => cmd
  }

  lemma NameSent(cmd: string, args: seq<string>, errno: Errno)
    requires args != []
    ensures Convert(Lookup(cmd), cmd, args, errno).command[0] == SsdbName(cmd)
  {
    hide ConvertArgs;
    TableName(cmd);
  }

  lemma TableName(cmd: string)
    ensures SsdbName(cmd) == if Lookup(cmd).Some? then Lookup(cmd).value.ssdbCmd else cmd
  {
    if SsdbName(cmd) == cmd {
      TableKeeps(cmd);
    } else {
      TableRenames(cmd);
    }
  }

  lemma TableKeeps(cmd: string)
    requires SsdbName(cmd) == cmd
    ensures Lookup(cmd).Some? ==> Lookup(cmd).value.ssdbCmd == cmd
  {
  }

  predicate Named(cmd: string, name: string) {
    Lookup(cmd).Some? && Lookup(cmd).value.ssdbCmd == name
  }

  lemma TableRenames(cmd: string)
    requires SsdbName(cmd) != cmd
    ensures Named(cmd, SsdbName(cmd))
  {
    hide Named;
    NamedStrings();
    NamedHashes();
    NamedSets();
    NamedLists();
    NamedEnds();
  }

  lemma NamedStrings()
    ensures Named("substr", "getrange") && Named("bitcount", "redis_bitcount") && Named("setex", "setx")
    ensures Named("incrby", "incr") && Named("decrby", "decr")
    ensures Named("del", "multi_del") && Named("mget", "multi_get") && Named("mset", "multi_set")
  {
  }

  lemma NamedHashes()
    ensures Named("hlen", "hsize") && Named("hincrby", "hincr")
    ensures Named("hdel", "multi_hdel") && Named("hmdel", "multi_hdel")
    ensures Named("hmget", "multi_hget") && Named("hmset", "multi_hset")
  {
  }

  lemma NamedSets()
    ensures Named("zcard", "zsize") && Named("zscore", "zget") && Named("zincrby", "zincr")
    ensures Named("zrem", "multi_zdel") && Named("zadd", "multi_zset")
    ensures Named("zrevrank", "zrrank") && Named("zrevrange", "zrrange")
    ensures Named("zrangebyscore", "zscan") && Named("zrevrangebyscore", "zrscan")
  {
  }

  lemma NamedLists()
    ensures Named("llen", "qsize") && Named("lsize", "qsize") && Named("lindex", "qget")
    ensures Named("lset", "qset") && Named("lrange", "qslice")
  {
  }

  lemma NamedEnds()
    ensures Named("lpush", "qpush_front") && Named("rpush", "qpush_back")
    ensures Named("lpop", "qpop_front") && Named("rpop", "qpop_back")
  {
  }

  const EXCHANGING: set<string> := {"setex", "zincrby", "zadd"}
  const CUTTING: set<string> := {"zremrangebyrank", "zremrangebyscore"}
  const REWRITING: set<string> :=
    {"hkeys", "hvals", "zrange", "zrevrange", "zrangebyscore", "zrevrangebyscore"}

  /** Every other command keeps all its arguments in their places; two keep the first three, or none. */
  lemma ArgumentsStayInPlace(cmd: string, args: seq<string>, errno: Errno)
    requires args != [] && cmd !in EXCHANGING && cmd !in REWRITING
    ensures Convert(Lookup(cmd), cmd, args, errno).command[1..]
         == if cmd !in CUTTING then args[1..] else if |args| >= 4 then args[1..4] else []
  {
    hide ConvertZAdd, ConvertZRange, ConvertByScore;
    TableStrategy(cmd);
    SentArguments(Lookup(cmd), cmd, args, errno);
  }

  lemma TableStrategy(cmd: string)
    requires cmd !in EXCHANGING && cmd !in REWRITING
    ensures var d := Lookup(cmd);
            d.Some? ==>
              if cmd in CUTTING then d.value.strategy == RemRangeByRank || d.value.strategy == RemRangeByScore
              else d.value.strategy in {Auto, Ping, MGet, HMGet, HGetAll}
  {
  }

  /** With a number of arguments that they are not written for, these send nothing but the name. */
  lemma OddArityDropped(cmd: string, args: seq<string>, errno: Errno)
    requires args != []
    requires if cmd == "hkeys" || cmd == "hvals" then |args| != 2
             else (cmd == "setex" || cmd == "zincrby") && |args| != 4
    ensures Convert(Lookup(cmd), cmd, args, errno).command == [SsdbName(cmd)]
  {
    hide ConvertZAdd, ConvertZRange, ConvertByScore;
  }

  // ------------------------------------------------------------ replies to "ok"

  /** What Redis documents as the reply of a command that is not answered element by element. */
  datatype Kind = Integer | Text | Done | List | Special

  function KindOf(cmd: string): Kind {
    match cmd
    case "setnx" | "exists" | "incr" | "decr" | "incrby" | "decrby" | "ttl" | "expire" | "del" => Integer
    case "getbit" | "setbit" | "bitcount" | "strlen" | "dbsize" => Integer
    case "hset" | "hexists" | "hdel" | "hmdel" | "hlen" | "hincrby" => Integer
    case "zadd" | "zrem" | "zcard" | "zcount" | "zrank" | "zrevrank" => Integer
    case "zremrangebyrank" | "zremrangebyscore" => Integer
    case "lpush" | "rpush" | "llen" | "lsize" => Integer
    case "get" | "getset" | "substr" | "getrange" | "hget" | "zscore" | "zincrby" => Text
    case "lpop" | "rpop" | "lindex" => Text
    case "set" | "setex" | "mset" | "hmset" | "lset" => Done
    case "keys" | "lrange" | "hgetall" | "hkeys" | "hvals" => List
    case _ => Special
  }

  lemma TableIntegers(cmd: string)
    requires KindOf(cmd) == Integer
    ensures PlainReply(Lookup(cmd), Int)
  {
  }

  lemma TableTexts(cmd: string)
    requires KindOf(cmd) == Text
    ensures PlainReply(Lookup(cmd), Bulk)
  {
  }

  lemma TableDone(cmd: string)
    requires KindOf(cmd) == Done
    ensures PlainReply(Lookup(cmd), Status)
  {
  }

  lemma TableLists(cmd: string)
    requires KindOf(cmd) == List
    ensures PlainReply(Lookup(cmd), MultiBulk) && Lookup(cmd).value.strategy in {Auto, HGetAll, HKeys, HVals}
  {
  }

  predicate PlainReply(d: Option<RequestDesc>, kind: ReplyType) {
    d.Some? && d.value.replyType == kind && d.value.strategy !in {Ping, MGet, HMGet}
  }

  // ------------------------------------------------------------ the replies themselves

  /** A client's view of the answer: the request is converted, and `resp` is what the server answers. */
  ghost predicate Answered(cmd: string, args: seq<string>, resp: seq<string>, rest: string, reply: Reply)
    requires args != []
  {
    var c := Convert(Lookup(cmd), cmd, args, Clear).command;
    InRange(Lookup(cmd), c, resp) &&
    var text := Respond(Lookup(cmd), c, resp);
    Decode(text + rest, 0) == Some(Decoded(reply, |text|))
  }

  predicate SizesFit(args: seq<string>, resp: seq<string>) {
    |args| < INT32_LIMIT - 4 && Sized([], resp)
  }

  lemma {:induction false} SwapPairsLength(args: seq<string>, i: nat)
    ensures |SwapPairs(args, i)| <= if i <= |args| then |args| - i else 0
    decreases |args| - i
  {
    if i + 2 <= |args| {
      SwapPairsLength(args, i + 2);
    }
  }

  lemma SentLength(cmd: string, args: seq<string>)
    requires args != []
    ensures |Convert(Lookup(cmd), cmd, args, Clear).command| <= |args| + 4
  {
    hide Lookup, AdjustBound, ErrnoAfterBound, ScanOptions, ErrnoAfterWhole, StrToInt64, ToInt64, StrInt64, Lower;
    SwapPairsLength(args, 2);
  }

  lemma {:induction false} ItemsAreAll(resp: seq<string>, i: nat)
    requires i <= |resp|
    ensures Items(resp, i, true) == Somes(resp[i..])
    decreases |resp| - i
  {
    if i < |resp| {
      ItemsAreAll(resp, i + 1);
      assert resp[i..] == [resp[i]] + resp[i + 1..];
    }
  }

  /** KEYS, LRANGE, HGETALL, HKEYS and HVALS: every item of the response, in order. */
  lemma ListAnswered(cmd: string, args: seq<string>, items: seq<string>, rest: string)
    requires KindOf(cmd) == List && args != [] && SizesFit(args, ["ok"] + items)
    ensures Answered(cmd, args, ["ok"] + items, rest, ArrayReply(Bulks(items)))
  {
    hide Decode, Convert, Lookup, KindOf, Respond;
    TableLists(cmd);
    SentLength(cmd, args);
    var resp := ["ok"] + items;
    ItemsAreAll(resp, 1);
    assert resp[1..] == items;
    EntryRepliesOfSomes(items);
    RespondDecodes(Lookup(cmd), Convert(Lookup(cmd), cmd, args, Clear).command, resp, rest);
  }

  /** The integer of the response. */
  lemma IntegerAnswered(cmd: string, args: seq<string>, n: int, more: seq<string>, rest: string)
    requires KindOf(cmd) == Integer && args != [] && -INT64_LIMIT <= n < INT64_LIMIT
    requires SizesFit(args, ["ok", PrintInt(n)] + more)
    ensures Answered(cmd, args, ["ok", PrintInt(n)] + more, rest, IntReply(n))
  {
    hide Decode, Convert, Lookup, KindOf, Respond, PrintInt, IsIntegerText, IntegerOf;
    TableIntegers(cmd);
    SentLength(cmd, args);
    PrintedIsInteger(n);
    RespondDecodes(Lookup(cmd), Convert(Lookup(cmd), cmd, args, Clear).command, ["ok", PrintInt(n)] + more, rest);
  }

  lemma PrintedIsInteger(n: int)
    requires -INT64_LIMIT <= n < INT64_LIMIT
    ensures IsIntegerText(PrintInt(n)) && IntegerOf(PrintInt(n), 0, |PrintInt(n)|) == n
  {
    var s, m := PrintInt(n), if n < 0 then -n else n;
    DecIsNumber(m);
    if n < 0 {
      assert s == "-" + Dec(m) && s[0] == '-';
      assert At(s, 1, Dec(m));
      NumberMoves(s, 1, Dec(m), 0);
    } else {
      assert IsDigit(s[0]);
    }
  }

  /** The text of the response, whatever bytes it holds. */
  lemma TextAnswered(cmd: string, args: seq<string>, text: string, more: seq<string>, rest: string)
    requires KindOf(cmd) == Text && args != [] && SizesFit(args, ["ok", text] + more)
    ensures Answered(cmd, args, ["ok", text] + more, rest, BulkReply(text))
  {
    hide Decode, Convert, Lookup, KindOf, Respond;
    TableTexts(cmd);
    SentLength(cmd, args);
    RespondDecodes(Lookup(cmd), Convert(Lookup(cmd), cmd, args, Clear).command, ["ok", text] + more, rest);
  }

  /** PONG to a PING; OK to what only stores something, and to a command that the table does not hold. */
  lemma DoneAnswered(cmd: string, args: seq<string>, more: seq<string>, rest: string)
    requires args != [] && SizesFit(args, ["ok"] + more)
    requires KindOf(cmd) == Done || Lookup(cmd).None? || cmd == "ping"
    ensures Answered(cmd, args, ["ok"] + more, rest, StatusReply(if cmd == "ping" then "PONG" else "OK"))
  {
    assert Lookup("ping") == Some(RequestDesc(Ping, "ping", Status));
    hide Decode, Convert, Lookup, KindOf, Respond;
    if KindOf(cmd) == Done {
      TableDone(cmd);
    }
    SentLength(cmd, args);
    RespondDecodes(Lookup(cmd), Convert(Lookup(cmd), cmd, args, Clear).command, ["ok"] + more, rest);
  }

  // ------------------------------------------------------------ other responses

  /** The message that goes with a status, and is empty if the server sends none. */
  function WithMessage(status: string, message: string): (resp: seq<string>)
    ensures resp != [] && resp[0] == status
  {
    if message == "" then [status] else [status, message]
  }

  /** Whatever the request was: an error with its message, a nil, or an error for anything unknown. */
  lemma OtherStatusesAnswered(cmd: string, args: seq<string>, status: string, message: string, more: seq<string>,
                              rest: string)
    requires args != [] && |args| < INT32_LIMIT - 4 && status != "ok" && (message == "" ==> more == [])
    requires |status| < INT32_LIMIT && Sized([], WithMessage(status, message) + more) && IsOneLine(message)
    ensures Answered(cmd, args, WithMessage(status, message) + more, rest,
                     match status
                     case "not_found" => NilReply
                     case "noauth" => ErrorReply("NOAUTH " + message)
                     case "error" | "fail" | "client_error" => ErrorReply("ERR " + message)
                     case _ => ErrorReply("ERR server error"))
  {
    hide Decode, Convert, Lookup;
    SentLength(cmd, args);
    var resp := WithMessage(status, message) + more;
    assert resp[0] == status && Second(resp) == message;
    RespondDecodes(Lookup(cmd), Convert(Lookup(cmd), cmd, args, Clear).command, resp, rest);
  }

  /** No response at all: nothing is written. */
  lemma NothingAnswered(cmd: string, args: seq<string>)
    requires args != []
    ensures Respond(Lookup(cmd), Convert(Lookup(cmd), cmd, args, Clear).command, []) == ""
  {
  }

  /**
   An "ok" without the value that the kind of reply calls for: an empty length without its text, and
   for MGET and HMGET, if a key stands without its value, an empty array without its line end.
   */
  lemma ShortAnswers(cmd: string, args: seq<string>, resp: seq<string>)
    requires args != [] && resp != [] && resp[0] == "ok"
    ensures var c := Convert(Lookup(cmd), cmd, args, Clear).command;
            && ((KindOf(cmd) == Text || KindOf(cmd) == Integer) && |resp| == 1 ==>
                  InRange(Lookup(cmd), c, resp) && Respond(Lookup(cmd), c, resp) == "$0\r\n")
            && ((cmd == "mget" || cmd == "hmget") && |resp| % 2 == 0 ==>
                  InRange(Lookup(cmd), c, resp) && Respond(Lookup(cmd), c, resp) == "*0")
  {
    assert Lookup("mget") == Some(RequestDesc(MGet, "multi_get", MultiBulk));
    assert Lookup("hmget") == Some(RequestDesc(HMGet, "multi_hget", MultiBulk));
    hide Convert, Lookup, KindOf;
    if KindOf(cmd) == Text {
      TableTexts(cmd);
    } else if KindOf(cmd) == Integer {
      TableIntegers(cmd);
    }
  }
}
