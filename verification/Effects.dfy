/**
 The commands whose arguments change places, by what they do to the data: Redis's reading of the
 request and SSDB's reading of the command sent on come to the same. SSDB's argument orders are those
 that the client of this repository sends, in setx, zset, multi_zset, zincr and hkeys.
 */
module Effects {
  import opened Text
  import opened RedisCommands

  /** A string, and the seconds it has left if it is to expire. */
  datatype Item = Item(text: string, ttl: Option<int>)

  datatype Store = Store(strings: map<string, Item>, zsets: map<string, map<string, int>>) {

    function ZSet(name: string): map<string, int> {
      if name in zsets then zsets[name] else map[]
    }

    function Score(name: string, member: string): int {
      if member in ZSet(name) then ZSet(name)[member] else 0
    }
  }

  // ------------------------------------------------------------ the Redis side

  /** SET key value, SETEX key seconds value, ZADD key score member ..., ZINCRBY key increment member. */
  function RedisEffect(s: Store, cmd: string, args: seq<string>): Store
    requires RedisArity(cmd, |args|)
  {
    match cmd
    case "set" => s.(strings := s.strings[args[1] := Item(args[2], None)])
    case "setex" => s.(strings := s.strings[args[1] := Item(args[3], Some(StrToInt64(args[2])))])
    case "zadd" => s.(zsets := s.zsets[args[1] := RedisAdd(s.ZSet(args[1]), args[2..])])
    case "zincrby" =>
      var score := s.Score(args[1], args[3]) + StrToInt64(args[2]);
      s.(zsets := s.zsets[args[1] := s.ZSet(args[1])[args[3] := score]])
    case _ => s
  }

  predicate RedisArity(cmd: string, n: nat) {
    match cmd
    case "set" => n == 3
    case "setex" | "zincrby" => n == 4
    case "zadd" => n >= 4 && n % 2 == 0
    case _ => false
  }

  function RedisAdd(z: map<string, int>, scoresAndMembers: seq<string>): map<string, int>
    decreases |scoresAndMembers|
  {
    if |scoresAndMembers| < 2 then z
    else RedisAdd(z[scoresAndMembers[1] := StrToInt64(scoresAndMembers[0])], scoresAndMembers[2..])
  }

  // ------------------------------------------------------------ the SSDB side

  /** set key value, setx key value ttl, multi_zset name key score ..., zincr name key increment. */
  function SsdbEffect(s: Store, command: seq<string>): Store
    requires command != [] && SsdbArity(command[0], |command|)
  {
    match command[0]
    case "set" => s.(strings := s.strings[command[1] := Item(command[2], None)])
    case "setx" => s.(strings := s.strings[command[1] := Item(command[2], Some(StrToInt64(command[3])))])
    case "multi_zset" => s.(zsets := s.zsets[command[1] := SsdbAdd(s.ZSet(command[1]), command[2..])])
    case "zincr" =>
      var score := s.Score(command[1], command[2]) + StrToInt64(command[3]);
      s.(zsets := s.zsets[command[1] := s.ZSet(command[1])[command[2] := score]])
    case _ => s
  }

  predicate SsdbArity(name: string, n: nat) {
    match name
    case "set" => n == 3
    case "setx" | "zincr" => n == 4
    case "multi_zset" => n >= 4 && n % 2 == 0
    case _ => false
  }

  function SsdbAdd(z: map<string, int>, membersAndScores: seq<string>): map<string, int>
    decreases |membersAndScores|
  {
    if |membersAndScores| < 2 then z
    else SsdbAdd(z[membersAndScores[0] := StrToInt64(membersAndScores[1])], membersAndScores[2..])
  }

  // ------------------------------------------------------------ both come to the same

  lemma {:induction false} SwappedAdds(z: map<string, int>, args: seq<string>, i: nat)
    requires i <= |args| && (|args| - i) % 2 == 0
    ensures |SwapPairs(args, i)| == |args| - i
    ensures SsdbAdd(z, SwapPairs(args, i)) == RedisAdd(z, args[i..])
    decreases |args| - i
  {
    hide StrToInt64;
    if i + 2 <= |args| {
      var z' := z[args[i + 1] := StrToInt64(args[i])];
      SwappedAdds(z', args, i + 2);
      assert args[i..][2..] == args[i + 2..];
      assert SwapPairs(args, i)[2..] == SwapPairs(args, i + 2);
    }
  }

  /** For every store and every request of a fitting length. */
  lemma SameEffect(s: Store, cmd: string, args: seq<string>, errno: Errno)
    requires RedisArity(cmd, |args|)
    ensures var c := Convert(Lookup(cmd), cmd, args, errno).command;
            SsdbArity(c[0], |c|) && SsdbEffect(s, c) == RedisEffect(s, cmd, args)
  {
    hide Convert, Lookup, StrToInt64;
    SentForMoved(cmd, args, errno);
    if cmd == "zadd" {
      SwappedAdds(s.ZSet(args[1]), args, 2);
      assert (["multi_zset", args[1]] + SwapPairs(args, 2))[2..] == SwapPairs(args, 2);
    }
  }

  lemma SentForMoved(cmd: string, args: seq<string>, errno: Errno)
    requires RedisArity(cmd, |args|)
    ensures Convert(Lookup(cmd), cmd, args, errno).command ==
            match cmd
            case "set" => ["set", args[1], args[2]]
            case "setex" => ["setx", args[1], args[3], args[2]]
            case "zincrby" => ["zincr", args[1], args[3], args[2]]
            case _ => ["multi_zset", args[1]] + SwapPairs(args, 2)
  {
    hide Convert, Lookup, SwapPairs;
    MovedInTable();
    match cmd {
      case "set" => SentPlainly(RequestDesc(Auto, "set", Status), cmd, args, errno);
      case "setex" => SentExchanged(RequestDesc(SetEx, "setx", Status), cmd, args, errno);
      case "zincrby" => SentExchanged(RequestDesc(ZIncrBy, "zincr", Bulk), cmd, args, errno);
      case _ => SentSwapped(RequestDesc(ZAdd, "multi_zset", Int), cmd, args, errno);
    }
  }

  lemma SentPlainly(d: RequestDesc, cmd: string, args: seq<string>, errno: Errno)
    requires d.strategy == Auto && |args| == 3
    ensures Convert(Some(d), cmd, args, errno).command == [d.ssdbCmd, args[1], args[2]]
  {
    assert args[1..] == [args[1], args[2]];
  }

  lemma SentExchanged(d: RequestDesc, cmd: string, args: seq<string>, errno: Errno)
    requires (d.strategy == SetEx || d.strategy == ZIncrBy) && |args| == 4
    ensures Convert(Some(d), cmd, args, errno).command == [d.ssdbCmd, args[1], args[3], args[2]]
  {
  }

  lemma SentSwapped(d: RequestDesc, cmd: string, args: seq<string>, errno: Errno)
    requires d.strategy == ZAdd && |args| >= 2
    ensures Convert(Some(d), cmd, args, errno).command == [d.ssdbCmd, args[1]] + SwapPairs(args, 2)
  {
    hide Convert, ConvertArgs, SwapPairs;
    SentArguments(Some(d), cmd, args, errno);
    NameFirst(d, cmd, args, errno);
    AddingArgs(args, errno);
    Join(Convert(Some(d), cmd, args, errno).command, d.ssdbCmd, args[1], SwapPairs(args, 2));
  }

  lemma AddingArgs(args: seq<string>, errno: Errno)
    requires |args| >= 2
    ensures ConvertArgs(ZAdd, args, errno).command == [args[1]] + SwapPairs(args, 2)
  {
    hide SwapPairs, ConvertZRange, ConvertByScore;
  }

  lemma Join(c: seq<string>, name: string, key: string, more: seq<string>)
    requires c != [] && c[0] == name && c[1..] == [key] + more
    ensures c == [name, key] + more
  {
    assert c == [c[0]] + c[1..];
  }

  lemma NameFirst(d: RequestDesc, cmd: string, args: seq<string>, errno: Errno)
    requires args != []
    ensures Convert(Some(d), cmd, args, errno).command[0] == d.ssdbCmd
  {
    hide ConvertArgs;
  }

  lemma MovedInTable()
    ensures Lookup("set") == Some(RequestDesc(Auto, "set", Status))
    ensures Lookup("setex") == Some(RequestDesc(SetEx, "setx", Status))
    ensures Lookup("zincrby") == Some(RequestDesc(ZIncrBy, "zincr", Bulk))
    ensures Lookup("zadd") == Some(RequestDesc(ZAdd, "multi_zset", Int))
  {
  }

  // ------------------------------------------------------------ HKEYS and HVALS

  /** hkeys name key_start key_end limit, over the keys in order: behind the start, up to the end. */
  function SsdbScan(keys: seq<string>, command: seq<string>): seq<string>
    requires |command| == 5
  {
    First(Between(keys, command[2], command[3]), ReadNumber(command[4], 0).value)
  }

  /** An empty start or end is none. */
  function Between(keys: seq<string>, start: string, end: string): seq<string> {
    if keys == [] then []
    else
      var more := Between(keys[1..], start, end);
      if (start == "" || Precedes(start, keys[0])) && (end == "" || !Precedes(end, keys[0])) then [keys[0]] + more
      else more
  }

  /** Byte order. */
  predicate Precedes(a: string, b: string) {
    b != "" && (a == "" || a[0] < b[0] || (a[0] == b[0] && Precedes(a[1..], b[1..])))
  }

  function First<T>(s: seq<T>, n: int): seq<T> {
    if n <= 0 then [] else if |s| <= n then s else s[..n]
  }

  lemma {:induction false} BetweenNothing(keys: seq<string>)
    ensures Between(keys, "", "") == keys
  {
    if keys != [] {
      BetweenNothing(keys[1..]);
    }
  }

  /** HKEYS key and HVALS key ask for all keys, or the first two thousand million of them. */
  lemma AllKeysAskedFor(cmd: string, name: string, keys: seq<string>, errno: Errno)
    requires cmd == "hkeys" || cmd == "hvals"
    ensures var c := Convert(Lookup(cmd), cmd, [cmd, name], errno).command;
            |c| == 5 && c[..2] == [cmd, name] && SsdbScan(keys, c) == First(keys, 2000000000)
  {
    hide ReadNumber, First;
    BetweenNothing(keys);
    TwoThousandMillion();
  }
}
