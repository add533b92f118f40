/**
 What the rewriting of ZRANGEBYSCORE and ZREVRANGEBYSCORE preserves: the members selected by the
 bounds of the section "Exclusive intervals and infinity" of the Redis documentation, for integer
 scores, and the options.
 */
module ScoreRanges {
  import opened Text
  import opened RedisCommands

  // ------------------------------------------------------------ the Redis side

  datatype Bound = NegInf | PosInf | ExclNegInf | ExclPosInf | Incl(v: int) | Excl(v: int) {
    function Text(): (s: string)
      ensures s != ""
    {
      match this
      case NegInf => "-inf"
      case PosInf => "+inf"
      case ExclNegInf => "(-inf"
      case ExclPosInf => "(+inf"
      case Incl(v) => PrintInt(v)
      case Excl(v) => "(" + PrintInt(v)
    }

    predicate AllowsFromBelow(score: int) {
      match this
      case NegInf | ExclNegInf => true
      case PosInf | ExclPosInf => false
      case Incl(v) => v <= score
      case Excl(v) => v < score
    }

    predicate AllowsFromAbove(score: int) {
      match this
      case NegInf | ExclNegInf => false
      case PosInf | ExclPosInf => true
      case Incl(v) => score <= v
      case Excl(v) => score < v
    }
  }

  // ------------------------------------------------------------ the SSDB side

  /** An empty score means no bound; any other is inclusive. */
  predicate ScanFrom(text: string, score: int) {
    text == "" || ReadNumber(text, 0).value <= score
  }

  predicate ScanTo(text: string, score: int) {
    text == "" || score <= ReadNumber(text, 0).value
  }

  predicate FitsInt(v: int) {
    -INT32_LIMIT <= v < INT32_LIMIT
  }

  // ------------------------------------------------------------ bounds

  lemma NumberText(v: int)
    ensures ReadNumber(PrintInt(v), 0) == Number(v, |PrintInt(v)|)
    ensures IsDigit(PrintInt(v)[0]) || (PrintInt(v)[0] == '-' && IsDigit(PrintInt(v)[1]))
  {
    ReadPrinted(PrintInt(v), 0, v);
    assert IsDigit(Dec(if v < 0 then -v else v)[0]);
  }

  /** Exclusive bounds go through int arithmetic and come out as the neighbouring integer. */
  function Neighbour(v: int, step: int): int {
    ToInt32(ToInt32(Clamp64(v)) + step)
  }

  lemma NeighbourIff(v: int, step: int)
    requires step == 1 || step == -1
    ensures Neighbour(v, step) == v + step <==> FitsInt(v + step)
  {
  }

  lemma AdjustedInclusive(v: int, step: int)
    ensures AdjustBound(PrintInt(v), step) == PrintInt(v)
  {
    hide ReadNumber, Strtol;
    NumberText(v);
    var s := PrintInt(v);
    assert s[0] != '(' && s[0] != '+';
    assert s[0] == '-' ==> s[1] != 'i';
  }

  lemma AdjustedExclusive(v: int, step: int)
    ensures AdjustBound("(" + PrintInt(v), step) == PrintInt(Neighbour(v, step))
  {
    hide ReadNumber, PrintInt;
    NumberText(v);
    var s, n := "(" + PrintInt(v), Neighbour(v, step);
    assert s[1..] == PrintInt(v) && s[0] == '(';
    PrintedIntLength(n);
  }

  /** An infinity behind the parenthesis is no number, so str_to_int makes it 0. */
  lemma AdjustedExclusiveInf(inf: string, step: int)
    requires inf == "-inf" || inf == "+inf"
    ensures AdjustBound("(" + inf, step) == PrintInt(Neighbour(0, step))
  {
    hide PrintInt;
    var s := "(" + inf;
    assert s[1..] == inf && s[0] == '(';
    assert SkipSpaces(inf, 0) == 0 && DigitsEnd(inf, 1) == 1;
    assert ReadNumber(inf, 0) == Number(0, 0);
    PrintedIntLength(Neighbour(0, step));
  }

  lemma PrintedIntLength(n: int)
    requires FitsInt(n)
    ensures |PrintInt(n)| <= 11
  {
    Dec32Length(if n < 0 then -n else n);
  }

  lemma AdjustedInfinity(step: int)
    ensures AdjustBound("-inf", step) == "" && AdjustBound("+inf", step) == ""
  {
  }

  lemma AdjustedText(b: Bound, step: int)
    ensures AdjustBound(b.Text(), step) ==
            match b
            case NegInf => ""
            case PosInf => ""
            case ExclNegInf => PrintInt(Neighbour(0, step))
            case ExclPosInf => PrintInt(Neighbour(0, step))
            case Incl(v) => PrintInt(v)
            case Excl(v) => PrintInt(Neighbour(v, step))
  {
    AdjustedInfinity(step);
    assert "(" + "-inf" == "(-inf" && "(" + "+inf" == "(+inf";
    hide AdjustBound, PrintInt, Neighbour;
    match b
    case Incl(v) => AdjustedInclusive(v, step);
    case Excl(v) => AdjustedExclusive(v, step);
    case ExclNegInf => AdjustedExclusiveInf("-inf", step);
    case ExclPosInf => AdjustedExclusiveInf("+inf", step);
    case _ =>
  }

  ghost predicate LowerBoundKept(b: Bound) {
    forall score :: ScanFrom(AdjustBound(b.Text(), 1), score) <==> b.AllowsFromBelow(score)
  }

  ghost predicate UpperBoundKept(b: Bound) {
    forall score :: ScanTo(AdjustBound(b.Text(), -1), score) <==> b.AllowsFromAbove(score)
  }

  /** Not +inf, no exclusive infinity, and if exclusive, the successor fits in an int. */
  predicate GoodLower(b: Bound) {
    b.NegInf? || b.Incl? || (b.Excl? && FitsInt(b.v + 1))
  }

  predicate GoodUpper(b: Bound) {
    b.PosInf? || b.Incl? || (b.Excl? && FitsInt(b.v - 1))
  }

  /** What a bound comes to for integer scores: no limit, a first or last score, or no score at all. */
  datatype Limit = Free | Fixed(v: int) | Closed {
    predicate FromBelow(score: int) {
      Free? || (Fixed? && v <= score)
    }

    predicate FromAbove(score: int) {
      Free? || (Fixed? && score <= v)
    }
  }

  function RedisLow(b: Bound): Limit {
    match b
    case NegInf | ExclNegInf => Free
    case PosInf | ExclPosInf => Closed
    case Incl(v) => Fixed(v)
    case Excl(v) => Fixed(v + 1)
  }

  function RedisHigh(b: Bound): Limit {
    match b
    case NegInf | ExclNegInf => Closed
    case PosInf | ExclPosInf => Free
    case Incl(v) => Fixed(v)
    case Excl(v) => Fixed(v - 1)
  }

  /** The limit that the rewritten bound comes to. */
  function SentLimit(b: Bound, step: int): Limit {
    match b
    case NegInf | PosInf => Free
    case ExclNegInf | ExclPosInf => Fixed(Neighbour(0, step))
    case Incl(v) => Fixed(v)
    case Excl(v) => Fixed(Neighbour(v, step))
  }

  lemma LimitsMean(b: Bound, score: int)
    ensures b.AllowsFromBelow(score) <==> RedisLow(b).FromBelow(score)
    ensures b.AllowsFromAbove(score) <==> RedisHigh(b).FromAbove(score)
    ensures ScanFrom(AdjustBound(b.Text(), 1), score) <==> SentLimit(b, 1).FromBelow(score)
    ensures ScanTo(AdjustBound(b.Text(), -1), score) <==> SentLimit(b, -1).FromAbove(score)
  {
    hide AdjustBound, Neighbour, ReadNumber, PrintInt;
    AdjustedText(b, 1);
    AdjustedText(b, -1);
    if b.Incl? {
      NumberText(b.v);
    } else if !b.NegInf? && !b.PosInf? {
      var v := if b.Excl? then b.v else 0;
      NumberText(Neighbour(v, 1));
      NumberText(Neighbour(v, -1));
    }
  }

  lemma GoodMeansEqualLimits(b: Bound)
    ensures GoodLower(b) <==> RedisLow(b) == SentLimit(b, 1)
    ensures GoodUpper(b) <==> RedisHigh(b) == SentLimit(b, -1)
  {
    if b.Excl? {
      NeighbourIff(b.v, 1);
      NeighbourIff(b.v, -1);
    }
  }

  lemma LowerBoundKeptIff(b: Bound)
    ensures LowerBoundKept(b) <==> GoodLower(b)
  {
    GoodMeansEqualLimits(b);
    hide AdjustBound, Neighbour, ScanFrom, Bound.AllowsFromBelow, RedisLow, SentLimit, Bound.Text;
    var r, t := RedisLow(b), SentLimit(b, 1);
    forall score
      ensures ScanFrom(AdjustBound(b.Text(), 1), score) <==> t.FromBelow(score)
      ensures b.AllowsFromBelow(score) <==> r.FromBelow(score)
    {
      LimitsMean(b, score);
    }
    SameFromBelow(r, t);
  }

  lemma UpperBoundKeptIff(b: Bound)
    ensures UpperBoundKept(b) <==> GoodUpper(b)
  {
    GoodMeansEqualLimits(b);
    hide AdjustBound, Neighbour, ScanTo, Bound.AllowsFromAbove, RedisHigh, SentLimit, Bound.Text;
    var r, t := RedisHigh(b), SentLimit(b, -1);
    forall score
      ensures ScanTo(AdjustBound(b.Text(), -1), score) <==> t.FromAbove(score)
      ensures b.AllowsFromAbove(score) <==> r.FromAbove(score)
    {
      LimitsMean(b, score);
    }
    SameFromAbove(r, t);
  }

  /** Between two different limits there is a score that only one of them lets through. */
  function Between(l: Limit, m: Limit): int {
    if l.Fixed? && m.Fixed? then (if l.v < m.v then l.v else m.v)
    else if l.Fixed? then l.v else if m.Fixed? then m.v else 0
  }

  lemma SameFromBelow(l: Limit, m: Limit)
    ensures (forall score :: l.FromBelow(score) <==> m.FromBelow(score)) <==> l == m
  {
    if l != m {
      var x := Between(l, m);
      assert l.FromBelow(x) != m.FromBelow(x) || l.FromBelow(x - 1) != m.FromBelow(x - 1);
    }
  }

  lemma SameFromAbove(l: Limit, m: Limit)
    ensures (forall score :: l.FromAbove(score) <==> m.FromAbove(score)) <==> l == m
  {
    if l != m {
      var x := Between(l, m);
      assert l.FromAbove(x) != m.FromAbove(x) || l.FromAbove(x + 1) != m.FromAbove(x + 1);
    }
  }

  // ------------------------------------------------------------ ranges

  predicate Within(low: Limit, high: Limit, score: int) {
    low.FromBelow(score) && high.FromAbove(score)
  }

  predicate Empty(low: Limit, high: Limit) {
    low.Closed? || high.Closed? || (low.Fixed? && high.Fixed? && high.v < low.v)
  }

  lemma EmptyIff(low: Limit, high: Limit)
    ensures Empty(low, high) <==> forall score :: !Within(low, high, score)
  {
    var x := if low.Fixed? then low.v else if high.Fixed? then high.v else 0;
    if !Empty(low, high) {
      assert Within(low, high, x);
    }
  }

  ghost predicate SameScores(low: Limit, high: Limit, low': Limit, high': Limit) {
    forall score :: Within(low, high, score) <==> Within(low', high', score)
  }

  lemma DifferentScores(low: Limit, high: Limit, low': Limit, high': Limit)
    requires !Empty(low, high) && (low != low' || high != high')
    ensures !SameScores(low, high, low', high')
  {
    EmptyIff(low, high);
    var x :| Within(low, high, x);
    if Within(low', high', x) {
      var y :=
        if low != low' then
          if low.Fixed? && (low'.Free? || low'.v < low.v) then low.v - 1 else low'.v - 1
        else
          if high.Fixed? && (high'.Free? || high.v < high'.v) then high.v + 1 else high'.v + 1;
      assert Within(low, high, y) != Within(low', high', y);
    }
  }

  /** Two ranges hold the same scores exactly if their limits agree or both are empty. */
  lemma SameScoresIff(low: Limit, high: Limit, low': Limit, high': Limit)
    ensures SameScores(low, high, low', high')
       <==> (low == low' && high == high') || (Empty(low, high) && Empty(low', high'))
  {
    EmptyIff(low, high);
    EmptyIff(low', high');
    if low != low' || high != high' {
      if !Empty(low, high) {
        DifferentScores(low, high, low', high');
      } else if !Empty(low', high') {
        DifferentScores(low', high', low, high);
      }
    }
  }

  /** Both bounds are good, or the range is empty before and after the rewriting. */
  predicate GoodRange(low: Bound, high: Bound) {
    || (GoodLower(low) && GoodUpper(high))
    || (Empty(RedisLow(low), RedisHigh(high)) && Empty(SentLimit(low, 1), SentLimit(high, -1)))
  }

  // ------------------------------------------------------------ selected members

  function RedisMembers(zset: map<string, int>, low: Bound, high: Bound): set<string> {
    set m | m in zset && low.AllowsFromBelow(zset[m]) && high.AllowsFromAbove(zset[m])
  }

  /** zscan name key from to offset count scores, and zrscan with the score bounds exchanged. */
  function SsdbMembers(zset: map<string, int>, command: seq<string>): set<string>
    requires |command| >= 5
  {
    if command[0] == "zscan" then
      set m | m in zset && ScanFrom(command[3], zset[m]) && ScanTo(command[4], zset[m])
    else
      set m | m in zset && ScanFrom(command[4], zset[m]) && ScanTo(command[3], zset[m])
  }

  /** The command selects what Redis selects, in every set with integer scores. */
  ghost predicate SelectsSame(command: seq<string>, low: Bound, high: Bound)
    requires |command| >= 5
  {
    forall zset: map<string, int> :: SsdbMembers(zset, command) == RedisMembers(zset, low, high)
  }

  predicate CarriesBounds(command: seq<string>, low: Bound, high: Bound)
    requires |command| >= 5
  {
    var (from, to) := if command[0] == "zscan" then (command[3], command[4]) else (command[4], command[3]);
    from == AdjustBound(low.Text(), 1) && to == AdjustBound(high.Text(), -1)
  }

  lemma MembersMean(zset: map<string, int>, command: seq<string>, low: Bound, high: Bound, m: string)
    requires |command| >= 5 && CarriesBounds(command, low, high) && m in zset
    ensures m in SsdbMembers(zset, command) <==> Within(SentLimit(low, 1), SentLimit(high, -1), zset[m])
    ensures m in RedisMembers(zset, low, high) <==> Within(RedisLow(low), RedisHigh(high), zset[m])
  {
    hide AdjustBound, ScanFrom, ScanTo, Bound.AllowsFromBelow, Bound.AllowsFromAbove, Bound.Text,
      RedisLow, RedisHigh, SentLimit, Limit.FromBelow, Limit.FromAbove;
    LimitsMean(low, zset[m]);
    LimitsMean(high, zset[m]);
  }

  lemma SelectsSameIff(command: seq<string>, low: Bound, high: Bound)
    requires |command| >= 5 && CarriesBounds(command, low, high)
    ensures SelectsSame(command, low, high) <==> GoodRange(low, high)
  {
    hide CarriesBounds, RedisLow, RedisHigh, SentLimit, Within, SsdbMembers, RedisMembers,
      GoodLower, GoodUpper, Empty;
    var l, h, l', h' := RedisLow(low), RedisHigh(high), SentLimit(low, 1), SentLimit(high, -1);
    GoodMeansEqualLimits(low);
    GoodMeansEqualLimits(high);
    SameScoresIff(l, h, l', h');
    if SelectsSame(command, low, high) {
      forall score
        ensures Within(l, h, score) <==> Within(l', h', score)
      {
        MembersMean(map["m" := score], command, low, high, "m");
      }
    }
    if SameScores(l, h, l', h') {
      forall zset: map<string, int>
        ensures SsdbMembers(zset, command) == RedisMembers(zset, low, high)
      {
        MembersFromZset(zset, command, low, high);
        forall m | m in zset
          ensures m in SsdbMembers(zset, command) <==> m in RedisMembers(zset, low, high)
        {
          MembersMean(zset, command, low, high, m);
        }
      }
    }
  }

  lemma MembersFromZset(zset: map<string, int>, command: seq<string>, low: Bound, high: Bound)
    requires |command| >= 5
    ensures SsdbMembers(zset, command) <= zset.Keys && RedisMembers(zset, low, high) <= zset.Keys
  {
  }

  lemma ScoreCommand(d: RequestDesc, cmd: string, key: string, first: string, second: string,
                     options: seq<string>, errno: Errno)
    requires (d.strategy == ZRangeByScore || d.strategy == ZRevRangeByScore) && first != "" && second != ""
    ensures var c := Convert(Some(d), cmd, [cmd, key, first, second] + options, errno).command;
            var step := if d.strategy == ZRangeByScore then 1 else -1;
            && |c| == 8 && c[0] == d.ssdbCmd && c[1] == key
            && c[3] == AdjustBound(first, step) && c[4] == AdjustBound(second, -step)
  {
    hide AdjustBound, ScanOptions, ErrnoAfterBound, OrElse;
    var args := [cmd, key, first, second] + options;
    assert args[1] == key && args[2] == first && args[3] == second;
  }

  /** The command sent on selects the same members as Redis does, exactly for good ranges. */
  lemma ByScoreSelectsSameMembers(key: string, low: Bound, high: Bound, options: seq<string>, errno: Errno)
    ensures var args := ["zrangebyscore", key, low.Text(), high.Text()] + options;
            var c := Convert(Lookup(args[0]), args[0], args, errno).command;
            |c| == 8 && c[..2] == ["zscan", key] && (SelectsSame(c, low, high) <==> GoodRange(low, high))
  {
    var d := RequestDesc(ZRangeByScore, "zscan", MultiBulk);
    assert Lookup("zrangebyscore") == Some(d);
    hide Convert, AdjustBound, Bound.Text, GoodRange, SelectsSame, Lookup;
    ScoreCommand(d, "zrangebyscore", key, low.Text(), high.Text(), options, errno);
    var args := ["zrangebyscore", key, low.Text(), high.Text()] + options;
    SelectsSameIff(Convert(Some(d), args[0], args, errno).command, low, high);
  }

  lemma RevByScoreSelectsSameMembers(key: string, low: Bound, high: Bound, options: seq<string>, errno: Errno)
    ensures var args := ["zrevrangebyscore", key, high.Text(), low.Text()] + options;
            var c := Convert(Lookup(args[0]), args[0], args, errno).command;
            |c| == 8 && c[..2] == ["zrscan", key] && (SelectsSame(c, low, high) <==> GoodRange(low, high))
  {
    var d := RequestDesc(ZRevRangeByScore, "zrscan", MultiBulk);
    assert Lookup("zrevrangebyscore") == Some(d);
    hide Convert, AdjustBound, Bound.Text, GoodRange, SelectsSame, Lookup;
    ScoreCommand(d, "zrevrangebyscore", key, high.Text(), low.Text(), options, errno);
    var args := ["zrevrangebyscore", key, high.Text(), low.Text()] + options;
    SelectsSameIff(Convert(Some(d), args[0], args, errno).command, low, high);
  }

  // ------------------------------------------------------------ options

  predicate IsOptionWord(s: string) {
    Lower(s) == "withscores" || Lower(s) == "limit"
  }

  /** WITHSCORES and LIMIT offset count mean the same in either order and in any letter case. */
  lemma OptionOrder(ws: string, limit: string, offset: string, count: string)
    requires Lower(ws) == "withscores" && Lower(limit) == "limit"
    requires offset != "" && !IsOptionWord(offset) && !IsOptionWord(count)
    ensures ScanOptions(NO_OPTIONS, [ws, limit, offset, count])
         == ScanOptions(NO_OPTIONS, [limit, offset, count, ws])
         == Options("withscores", offset, count, false)
    ensures ScanOptions(NO_OPTIONS, [limit, offset, count]) == Options("", offset, count, false)
    ensures ScanOptions(NO_OPTIONS, [ws]) == Options("withscores", "", "", false)
  {
    hide Lower;
    var a := NO_OPTIONS.Take(limit).Take(offset).Take(count);
    assert a == Options("", offset, count, false);
    assert NO_OPTIONS.Take(ws).Take(limit).Take(offset).Take(count) == Options("withscores", offset, count, false);
    ScanSteps(NO_OPTIONS, [ws, limit, offset, count]);
    ScanSteps(NO_OPTIONS, [limit, offset, count, ws]);
    ScanSteps(NO_OPTIONS, [limit, offset, count]);
    ScanSteps(NO_OPTIONS, [ws]);
  }

  /** So the command sent on is the same, and so is the errno that it leaves. */
  lemma OptionOrderConverted(cmd: string, range: seq<string>, ws: string, limit: string, offset: string,
                             count: string, errno: Errno)
    requires (cmd == "zrangebyscore" || cmd == "zrevrangebyscore") && |range| == 4
    requires Lower(ws) == "withscores" && Lower(limit) == "limit"
    requires offset != "" && !IsOptionWord(offset) && !IsOptionWord(count)
    ensures Convert(Lookup(cmd), cmd, range + [ws, limit, offset, count], errno)
         == Convert(Lookup(cmd), cmd, range + [limit, offset, count, ws], errno)
  {
    assert Lookup(cmd).Some? && Lookup(cmd).value.strategy in {ZRangeByScore, ZRevRangeByScore};
    hide Lower, ScanOptions, AdjustBound, ErrnoAfterBound, Lookup;
    OptionOrder(ws, limit, offset, count);
    var a, b := range + [ws, limit, offset, count], range + [limit, offset, count, ws];
    assert a[4..] == [ws, limit, offset, count] && b[4..] == [limit, offset, count, ws];
  }

  /** The two arguments behind LIMIT are the offset and the count, whatever they are, option words included. */
  lemma BehindLimit(limit: string, a: string, b: string)
    requires Lower(limit) == "limit" && a != ""
    ensures var o := ScanOptions(NO_OPTIONS, [limit, a, b]);
            && o.offset == a && o.count == b
            && o.withscores == if Lower(a) == "withscores" || Lower(b) == "withscores" then "withscores" else ""
  {
    hide Lower;
    ScanSteps(NO_OPTIONS, [limit, a, b]);
  }

  /** Without two bounds that are not empty, nothing but the name is sent. */
  lemma ShortScoreRangeDropped(cmd: string, args: seq<string>, errno: Errno)
    requires (cmd == "zrangebyscore" || cmd == "zrevrangebyscore") && args != []
    requires |args| < 4 || args[2] == "" || args[3] == ""
    ensures Convert(Lookup(cmd), cmd, args, errno).command
         == [if cmd == "zrangebyscore" then "zscan" else "zrscan"]
  {
  }

  lemma {:induction false} ScanSteps(o: Options, args: seq<string>)
    requires 1 <= |args| <= 4
    ensures ScanOptions(o, args)
         == var a := o.Take(args[0]);
            var b := if |args| > 1 then a.Take(args[1]) else a;
            var c := if |args| > 2 then b.Take(args[2]) else b;
            if |args| > 3 then c.Take(args[3]) else c
    decreases |args|
  {
    hide Options.Take;
    if |args| > 1 {
      ScanSteps(o.Take(args[0]), args[1..]);
    }
  }

  predicate AsksForScores(options: seq<string>) {
    exists i :: 0 <= i < |options| && Lower(options[i]) == "withscores"
  }

  lemma {:induction false} ScanFindsWithScores(o: Options, args: seq<string>)
    ensures ScanOptions(o, args).withscores == if AsksForScores(args) then "withscores" else o.withscores
    decreases |args|
  {
    hide Lower;
    if args != [] {
      ScanFindsWithScores(o.Take(args[0]), args[1..]);
      if AsksForScores(args[1..]) {
        var i :| 0 <= i < |args[1..]| && Lower(args[1..][i]) == "withscores";
        assert args[i + 1] == args[1..][i];
      } else {
        assert forall i :: 1 <= i < |args| ==> args[i] == args[1..][i - 1];
      }
    }
  }
}
