/**
 ZRANGEBYSCORE and ZREVRANGEBYSCORE with LIMIT and WITHSCORES, on a sorted set that the server walks
 through in order: what Redis selects from the request, and SSDB from the command sent on. In that
 command the bounds are followed by the number of members to skip and the number of members to take.
 */
module ScoreLists {
  import opened Text
  import opened RedisCommands
  import opened ScoreRanges

  /** LIMIT offset count, if there is one, and WITHSCORES. */
  datatype Wish = Wish(limit: Option<(nat, nat)>, scores: bool)

  /** How a client spells it: the two options in either order, in any letter case. */
  predicate Spells(options: seq<string>, w: Wish) {
    match w
    case Wish(None, false) => options == []
    case Wish(None, true) => |options| == 1 && Lower(options[0]) == "withscores"
    case Wish(Some(l), false) => |options| == 3 && SpellsLimit(options, l)
    case Wish(Some(l), true) =>
      |options| == 4 &&
      ((Lower(options[0]) == "withscores" && SpellsLimit(options[1..], l))
       || (Lower(options[3]) == "withscores" && SpellsLimit(options[..3], l)))
  }

  predicate SpellsLimit(options: seq<string>, l: (nat, nat)) {
    |options| == 3 && Lower(options[0]) == "limit" && options[1] == PrintInt(l.0) && options[2] == PrintInt(l.1)
  }

  // ------------------------------------------------------------ both servers

  function Slice(list: seq<(string, int)>, offset: int, count: int): seq<(string, int)> {
    if offset < 0 || count <= 0 || offset >= |list| then []
    else if offset + count >= |list| then list[offset..]
    else list[offset..offset + count]
  }

  function RedisRange(list: seq<(string, int)>, low: Bound, high: Bound): seq<(string, int)> {
    if list == [] then []
    else
      var more := RedisRange(list[1..], low, high);
      if low.AllowsFromBelow(list[0].1) && high.AllowsFromAbove(list[0].1) then [list[0]] + more else more
  }

  /** Without LIMIT Redis selects the whole range. */
  function RedisList(list: seq<(string, int)>, low: Bound, high: Bound, limit: Option<(nat, nat)>): seq<(string, int)> {
    var range := RedisRange(list, low, high);
    if limit.None? then range else Slice(range, limit.value.0, limit.value.1)
  }

  function SsdbRange(list: seq<(string, int)>, from: string, to: string): seq<(string, int)> {
    if list == [] then []
    else
      var more := SsdbRange(list[1..], from, to);
      if ScanFrom(from, list[0].1) && ScanTo(to, list[0].1) then [list[0]] + more else more
  }

  /** zscan name key from to offset count scores; zrscan with the score bounds exchanged. */
  function SsdbList(list: seq<(string, int)>, command: seq<string>): seq<(string, int)>
    requires |command| == 8
  {
    var range := if command[0] == "zscan" then SsdbRange(list, command[3], command[4])
                 else SsdbRange(list, command[4], command[3]);
    Slice(range, ReadNumber(command[5], 0).value, ReadNumber(command[6], 0).value)
  }

  // ------------------------------------------------------------ the range

  lemma {:induction false} SameRange(list: seq<(string, int)>, command: seq<string>, low: Bound, high: Bound)
    requires |command| == 8 && SelectsSame(command, low, high)
    ensures (if command[0] == "zscan" then SsdbRange(list, command[3], command[4])
             else SsdbRange(list, command[4], command[3]))
         == RedisRange(list, low, high)
    decreases |list|
  {
    hide ScanFrom, ScanTo, Bound.AllowsFromBelow, Bound.AllowsFromAbove;
    if list != [] {
      SameRange(list[1..], command, low, high);
      OneMember(list[0].0, list[0].1, command, low, high);
    }
  }

  lemma OneMember(m: string, score: int, command: seq<string>, low: Bound, high: Bound)
    requires |command| == 8 && SelectsSame(command, low, high)
    ensures (if command[0] == "zscan" then ScanFrom(command[3], score) && ScanTo(command[4], score)
             else ScanFrom(command[4], score) && ScanTo(command[3], score))
       <==> low.AllowsFromBelow(score) && high.AllowsFromAbove(score)
  {
    hide ScanFrom, ScanTo, Bound.AllowsFromBelow, Bound.AllowsFromAbove;
    var zset := map[m := score];
    assert m in SsdbMembers(zset, command) <==> m in RedisMembers(zset, low, high);
  }

  // ------------------------------------------------------------ the options

  lemma NumberIsNoWord(n: nat)
    ensures PrintInt(n) != "" && !IsOptionWord(PrintInt(n))
  {
    var s := PrintInt(n);
    assert IsDigit(s[0]) && Lower(s)[0] == s[0];
    assert "withscores"[0] == 'w' && "limit"[0] == 'l';
  }

  lemma OptionsRead(options: seq<string>, w: Wish)
    requires Spells(options, w)
    ensures ScanOptions(NO_OPTIONS, options)
         == Options(if w.scores then "withscores" else "",
                    if w.limit.Some? then PrintInt(w.limit.value.0) else "",
                    if w.limit.Some? then PrintInt(w.limit.value.1) else "", false)
  {
    hide ScanOptions, Lower, PrintInt, IsOptionWord;
    match w
    case Wish(None, false) => NoOptions();
    case Wish(None, true) =>
      OneOption(options[0]);
      assert options == [options[0]];
    case Wish(Some(l), _) =>
      NumberIsNoWord(l.0);
      NumberIsNoWord(l.1);
      if !w.scores {
        assert options == [options[0], PrintInt(l.0), PrintInt(l.1)];
        OptionOrder(ScoresWord(), options[0], PrintInt(l.0), PrintInt(l.1));
      } else if Lower(options[0]) == "withscores" && SpellsLimit(options[1..], l) {
        assert options[1..][0] == options[1] && options[1..][1] == options[2] && options[1..][2] == options[3];
        assert options == [options[0], options[1], PrintInt(l.0), PrintInt(l.1)];
        OptionOrder(options[0], options[1], PrintInt(l.0), PrintInt(l.1));
      } else {
        assert options == [options[0], PrintInt(l.0), PrintInt(l.1), options[3]];
        OptionOrder(options[3], options[0], PrintInt(l.0), PrintInt(l.1));
      }
  }

  lemma NoOptions()
    ensures ScanOptions(NO_OPTIONS, []) == NO_OPTIONS
  {
  }

  function ScoresWord(): (ws: string)
    ensures Lower(ws) == "withscores"
  {
    "withscores"
  }

  lemma OneOption(ws: string)
    requires Lower(ws) == "withscores"
    ensures ScanOptions(NO_OPTIONS, [ws]) == Options("withscores", "", "", false)
  {
    hide Lower;
    ScanSteps(NO_OPTIONS, [ws]);
  }

  // ------------------------------------------------------------ both together

  /** The request's arguments: ZREVRANGEBYSCORE names the upper bound first. */
  function RangeArgs(cmd: string, key: string, low: Bound, high: Bound): seq<string> {
    if cmd == "zrangebyscore" then [cmd, key, low.Text(), high.Text()] else [cmd, key, high.Text(), low.Text()]
  }

  /**
   For every sorted set and every range that is kept: the members that the command sent on selects are
   those that the request selects, LIMIT included; without one, the first two thousand million of them.
   */
  lemma ListKept(cmd: string, key: string, low: Bound, high: Bound, options: seq<string>, w: Wish,
                 list: seq<(string, int)>, errno: Errno)
    requires cmd == "zrangebyscore" || cmd == "zrevrangebyscore"
    requires Spells(options, w) && GoodRange(low, high)
    ensures var c := Convert(Lookup(cmd), cmd, RangeArgs(cmd, key, low, high) + options, errno).command;
            && |c| == 8 && c[1] == key && c[2] == "" && c[7] == (if w.scores then "withscores" else "")
            && SsdbList(list, c) == var l := RedisList(list, low, high, w.limit);
                                    if w.limit.Some? then l else Slice(l, 0, 2000000000)
  {
    hide Convert, Lookup, GoodRange, SelectsSame, Bound.Text, PrintInt, ScanOptions, Slice, SsdbRange, RedisRange,
      ReadNumber, AdjustBound;
    var args := RangeArgs(cmd, key, low, high) + options;
    var c := Convert(Lookup(cmd), cmd, args, errno).command;
    OptionsRead(options, w);
    if cmd == "zrangebyscore" {
      ByScoreSelectsSameMembers(key, low, high, options, errno);
    } else {
      RevByScoreSelectsSameMembers(key, low, high, options, errno);
    }
    SameRange(list, c, low, high);
    SentOptions(cmd, args, options, errno);
    TwoThousandMillion();
    NumberNought();
    if w.limit.Some? {
      NumberIsNoWord(w.limit.value.0);
      NumberIsNoWord(w.limit.value.1);
      NumberText(w.limit.value.0);
      NumberText(w.limit.value.1);
    }
  }

  lemma NumberNought()
    ensures ReadNumber("0", 0).value == 0
  {
    NumberText(0);
    assert PrintInt(0) == "0";
  }

  lemma SentOptions(cmd: string, args: seq<string>, options: seq<string>, errno: Errno)
    requires cmd == "zrangebyscore" || cmd == "zrevrangebyscore"
    requires |args| >= 4 && args[2] != "" && args[3] != "" && args[4..] == options
    ensures var c := Convert(Lookup(cmd), cmd, args, errno).command;
            var o := ScanOptions(NO_OPTIONS, options);
            && |c| == 8 && c[1] == args[1] && c[2] == ""
            && c[5] == OrElse(o.offset, "0") && c[6] == OrElse(o.count, "2000000000") && c[7] == o.withscores
  {
    hide Lookup, AdjustBound, ScanOptions, ErrnoAfterBound, OrElse;
    ByScoreInTable(cmd);
  }

  lemma ByScoreInTable(cmd: string)
    requires cmd == "zrangebyscore" || cmd == "zrevrangebyscore"
    ensures Lookup(cmd).Some? && Lookup(cmd).value.strategy in {ZRangeByScore, ZRevRangeByScore}
  {
  }
}
