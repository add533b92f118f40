/**
 What the rewriting of ZRANGE and ZREVRANGE preserves. Redis names the first and the last rank;
 SSDB is given an offset and a size. A size of -1 means "to the end" and any other that is not
 negative is a count. What a smaller size means is up to the server, which is not known here: the
 theorem speaks of every meaning that it could have.
 */
module RankRanges {
  import opened Text
  import opened RedisCommands

  predicate RedisSelects(start: nat, end: int, rank: nat) {
    start <= rank && (end == -1 || rank <= end)
  }

  /** Whether a server selects a rank, given the offset and a size below -1. */
  type ServerRule = (int, int, nat) -> bool

  predicate SsdbSelects(rule: ServerRule, offset: int, size: int, rank: nat) {
    if size == -1 then offset <= rank
    else if size >= 0 then offset <= rank < offset + size
    else rule(offset, size, rank)
  }

  /** The ranks that the converted command asks for. */
  predicate CommandSelects(rule: ServerRule, command: seq<string>, rank: nat)
    requires |command| >= 4
  {
    SsdbSelects(rule, ReadNumber(command[2], 0).value, ReadNumber(command[3], 0).value, rank)
  }

  /** The command selects what Redis selects, whatever a size below -1 means. */
  ghost predicate KeptUnderEveryRule(command: seq<string>, start: nat, end: int)
    requires |command| >= 4
  {
    forall rule: ServerRule, rank: nat ::
      CommandSelects(rule, command, rank) <==> RedisSelects(start, end, rank)
  }

  function Size(start: int, end: int): int {
    if end == -1 then -1 else ToInt64(end - start + 1)
  }

  lemma RangeCommand(cmd: string)
    requires cmd == "zrange" || cmd == "zrevrange"
    ensures var d := Lookup(cmd);
            && d.Some? && d.value.replyType == MultiBulk
            && (d.value.strategy == ZRange || d.value.strategy == ZRevRange)
  {
  }

  lemma ConvertedRange(cmd: string, key: string, start: nat, end: int, options: seq<string>, errno: Errno)
    requires cmd == "zrange" || cmd == "zrevrange"
    requires start < INT64_LIMIT && -1 <= end < INT64_LIMIT
    ensures var c := Convert(Lookup(cmd), cmd, [cmd, key, PrintInt(start), PrintInt(end)] + options, errno).command;
            && |c| == (if options == [] then 4 else 5) && c[1] == key
            && (options != [] ==> c[4] == Lower(options[0]))
            && c[2] == PrintInt(start) && c[3] == PrintInt(Size(start, end))
            && ReadNumber(c[2], 0).value == start && ReadNumber(c[3], 0).value == Size(start, end)
  {
    hide ErrnoAfterWhole, Lower, ToInt64, PrintInt, ReadNumber, Snprintf, Lookup;
    RangeCommand(cmd);
    var args := [cmd, key, PrintInt(start), PrintInt(end)] + options;
    PrintedInt64(start);
    PrintedInt64(end);
    PrintedInt64(Size(start, end));
    assert args[2] == PrintInt(start) && args[3] == PrintInt(end);
    assert options != [] ==> args[4] == options[0];
    assert ConvertZRange(args, errno).command[..3] == [key, PrintInt(start), PrintInt(Size(start, end))];
  }

  lemma PrintedInt64(v: int)
    requires -INT64_LIMIT <= v < INT64_LIMIT
    ensures StrInt64(v) == PrintInt(v) && StrToInt64(PrintInt(v)) == v && ReadNumber(PrintInt(v), 0).value == v
  {
    Int64RoundTrip(v, Clear);
    ReadPrinted(PrintInt(v), 0, v);
  }

  /**
   For a start that is not negative and any end from -1 on: the command sent on is sure to select
   the ranks that Redis selects if and only if the end is -1, or is not more than one before the
   start while the size fits an int64. An empty range with its end further before the start turns
   into a size of -1, everything from `start` on, or into a smaller one.
   */
  lemma RangeKeptIff(cmd: string, key: string, start: nat, end: int, options: seq<string>, errno: Errno)
    requires cmd == "zrange" || cmd == "zrevrange"
    requires start < INT64_LIMIT && -1 <= end < INT64_LIMIT
    ensures var c := Convert(Lookup(cmd), cmd, [cmd, key, PrintInt(start), PrintInt(end)] + options, errno).command;
            |c| >= 4 && c[1] == key &&
            (KeptUnderEveryRule(c, start, end)
             <==> end == -1 || (start - 1 <= end && end - start + 1 < INT64_LIMIT))
  {
    hide Convert, Lookup, PrintInt, ReadNumber;
    ConvertedRange(cmd, key, start, end, options, errno);
    var c := Convert(Lookup(cmd), cmd, [cmd, key, PrintInt(start), PrintInt(end)] + options, errno).command;
    var all: ServerRule := (_, _, _) => true;
    var none: ServerRule := (_, _, _) => false;
    if end != -1 && end < start - 1 {
      assert CommandSelects(all, c, start) && !RedisSelects(start, end, start);
    } else if end != -1 && end - start + 1 >= INT64_LIMIT {
      assert !CommandSelects(none, c, start) && RedisSelects(start, end, start);
    }
  }

  /** Two before the start is the case that needs no unknown rule: everything from `start` on comes. */
  lemma EmptyRangeBecomesUnlimited(cmd: string, key: string, start: nat, end: nat, options: seq<string>,
                                   errno: Errno, rule: ServerRule)
    requires cmd == "zrange" || cmd == "zrevrange"
    requires start == end + 2 < INT64_LIMIT
    ensures var c := Convert(Lookup(cmd), cmd, [cmd, key, PrintInt(start), PrintInt(end)] + options, errno).command;
            && |c| >= 4
            && (forall rank: nat :: !RedisSelects(start, end, rank))
            && (forall rank: nat :: CommandSelects(rule, c, rank) <==> start <= rank)
  {
    hide Convert, Lookup, PrintInt, ReadNumber;
    ConvertedRange(cmd, key, start, end, options, errno);
    assert Size(start, end) == -1;
  }

  /**
   Which ranges are sent on at all, whatever texts start and end are: those that end at the last rank,
   whatever their start, and those between two ranks counted from the front. The start goes on as it was
   spelled. Otherwise nothing of the range is sent - but an option behind it is, in lower case.
   */
  lemma RangeSentIff(cmd: string, args: seq<string>, errno: Errno)
    requires (cmd == "zrange" || cmd == "zrevrange") && |args| >= 4
    ensures var start, end := StrToInt64(args[2]), StrToInt64(args[3]);
            Convert(Lookup(cmd), cmd, args, errno).command[1..]
            == (if end == -1 || (start >= 0 && end >= 0) then [args[1], args[2], PrintInt(Size(start, end))] else [])
               + (if |args| == 4 then [] else [Lower(args[4])])
  {
    hide ErrnoAfterWhole, Lower, ToInt64, PrintInt, StrInt64, StrToInt64, Lookup, Convert;
    RangeCommand(cmd);
    SentArguments(Lookup(cmd), cmd, args, errno);
    PrintedInt64(-1);
    PrintedInt64(Size(StrToInt64(args[2]), StrToInt64(args[3])));
  }

  lemma ShortRangeDropped(cmd: string, args: seq<string>, errno: Errno)
    requires (cmd == "zrange" || cmd == "zrevrange") && 1 <= |args| < 4
    ensures Convert(Lookup(cmd), cmd, args, errno).command[1..] == []
  {
    hide Lookup;
    RangeCommand(cmd);
  }
}
