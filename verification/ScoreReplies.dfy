/**
 The sorted set ranges from the request's options to the decoded reply: scores come exactly when
 asked for.
 */
module ScoreReplies {
  import opened Text
  import opened RedisCommands
  import opened RedisReplies
  import opened ReplyDecoding
  import opened ScoreRanges
  import opened RankRanges

  /** What the server answers: members, each followed by its score. */
  function Bulks(texts: seq<string>): (rs: seq<Reply>)
    ensures |rs| == |texts| && forall i :: 0 <= i < |rs| ==> rs[i] == BulkReply(texts[i])
  {
    seq(|texts|, i requires 0 <= i < |texts| => BulkReply(texts[i]))
  }

  function Members(pairs: seq<(string, string)>): (ms: seq<string>)
    ensures |ms| == |pairs| && forall i :: 0 <= i < |ms| ==> ms[i] == pairs[i].0
  {
    seq(|pairs|, i requires 0 <= i < |pairs| => pairs[i].0)
  }

  function Somes(texts: seq<string>): (es: seq<Option<string>>)
    ensures |es| == |texts| && forall i :: 0 <= i < |es| ==> es[i] == Some(texts[i])
  {
    seq(|texts|, i requires 0 <= i < |texts| => Some(texts[i]))
  }

  lemma {:induction false} ItemsOfPairs(head: seq<string>, pairs: seq<(string, string)>, scores: bool)
    ensures Items(head + FlatPairs(pairs), |head|, scores)
         == Somes(if scores then FlatPairs(pairs) else Members(pairs))
    decreases |pairs|
  {
    hide Items;
    var resp, i := head + FlatPairs(pairs), |head|;
    if pairs == [] {
      assert resp == head && Somes(FlatPairs(pairs)) == [] && Somes(Members(pairs)) == [];
      NoItems(resp, scores);
    } else {
      var p := pairs[0];
      var head' := head + [p.0, p.1];
      assert resp == head' + FlatPairs(pairs[1..]);
      ItemsOfPairs(head', pairs[1..], scores);
      assert resp[i] == p.0 && resp[i + 1] == p.1;
      FirstItems(resp, i, scores);
      assert Somes(FlatPairs(pairs)) == [Some(p.0), Some(p.1)] + Somes(FlatPairs(pairs[1..]));
      assert Somes(Members(pairs)) == [Some(p.0)] + Somes(Members(pairs[1..]));
    }
  }

  lemma NoItems(resp: seq<string>, scores: bool)
    ensures Items(resp, |resp|, scores) == []
  {
  }

  lemma FirstItems(resp: seq<string>, i: nat, scores: bool)
    requires i + 1 < |resp|
    ensures Items(resp, i, scores)
         == (if scores then [Some(resp[i]), Some(resp[i + 1])] else [Some(resp[i])]) + Items(resp, i + 2, scores)
  {
    if scores {
      assert Items(resp, i, true) == [Some(resp[i])] + ([Some(resp[i + 1])] + Items(resp, i + 2, true));
    }
  }

  lemma EntryRepliesOfSomes(texts: seq<string>)
    ensures EntryReplies(Somes(texts)) == Bulks(texts)
  {
  }

  lemma PairsAreEven(pairs: seq<(string, string)>)
    ensures |FlatPairs(pairs)| == 2 * |pairs|
  {
  }

  predicate ByScore(cmd: string) {
    cmd == "zrangebyscore" || cmd == "zrevrangebyscore"
  }

  lemma CommandEndsWithScores(cmd: string, args: seq<string>, errno: Errno)
    requires ByScore(cmd) && |args| >= 4 && args[2] != "" && args[3] != ""
    ensures var d := Lookup(cmd);
            && d.Some? && (d.value.strategy == ZRangeByScore || d.value.strategy == ZRevRangeByScore)
            && d.value.replyType == MultiBulk
            && |Convert(d, cmd, args, errno).command| == 8
            && WithScores(d.value.strategy, Convert(d, cmd, args, errno).command) == AsksForScores(args[4..])
  {
    hide AdjustBound, ErrnoAfterBound, AsksForScores, ScanOptions;
    ScanFindsWithScores(NO_OPTIONS, args[4..]);
  }

  /** The reply to members with scores, when the command says whether scores are wanted. */
  lemma PairsReply(d: RequestDesc, command: seq<string>, pairs: seq<(string, string)>, rest: string)
    requires command != [] && d.replyType == MultiBulk && Sized(command, ["ok"] + FlatPairs(pairs))
    requires d.strategy != Ping && d.strategy != MGet && d.strategy != HMGet
    ensures var reply := Respond(Some(d), command, ["ok"] + FlatPairs(pairs));
            var items := if WithScores(d.strategy, command) then FlatPairs(pairs) else Members(pairs);
            Decode(reply + rest, 0) == Some(Decoded(ArrayReply(Bulks(items)), |reply|))
  {
    hide Decode, Respond, WithScores;
    PairsAreEven(pairs);
    ItemsOfPairs(["ok"], pairs, WithScores(d.strategy, command));
    EntryRepliesOfSomes(FlatPairs(pairs));
    EntryRepliesOfSomes(Members(pairs));
    RespondDecodes(Some(d), command, ["ok"] + FlatPairs(pairs), rest);
  }

  /**
   For any options after the bounds: the reply to members with scores is one array, of members and
   scores if WITHSCORES is among the options in any letter case, of members alone otherwise.
   */
  lemma ScoresExactlyWhenAsked(cmd: string, args: seq<string>, pairs: seq<(string, string)>,
                               rest: string, errno: Errno)
    requires ByScore(cmd) && |args| >= 4 && args[2] != "" && args[3] != ""
    requires Sized([], ["ok"] + FlatPairs(pairs))
    ensures var c := Convert(Lookup(cmd), cmd, args, errno).command;
            var reply := Respond(Lookup(cmd), c, ["ok"] + FlatPairs(pairs));
            var items := if AsksForScores(args[4..]) then FlatPairs(pairs) else Members(pairs);
            Decode(reply + rest, 0) == Some(Decoded(ArrayReply(Bulks(items)), |reply|))
  {
    hide Decode, Convert, Respond, AsksForScores, WithScores, Lookup, FlatPairs;
    CommandEndsWithScores(cmd, args, errno);
    PairsReply(Lookup(cmd).value, Convert(Lookup(cmd), cmd, args, errno).command, pairs, rest);
  }

  /** For ZRANGE and ZREVRANGE the option stands right behind the range, in any letter case. */
  lemma RangeScoresExactlyWhenAsked(cmd: string, key: string, start: nat, end: int, options: seq<string>,
                                    pairs: seq<(string, string)>, rest: string, errno: Errno)
    requires cmd == "zrange" || cmd == "zrevrange"
    requires start < INT64_LIMIT && -1 <= end < INT64_LIMIT
    requires Sized([], ["ok"] + FlatPairs(pairs))
    ensures var args := [cmd, key, PrintInt(start), PrintInt(end)] + options;
            var reply := Respond(Lookup(cmd), Convert(Lookup(cmd), cmd, args, errno).command,
                                 ["ok"] + FlatPairs(pairs));
            var asked := options != [] && Lower(options[0]) == "withscores";
            Decode(reply + rest, 0)
            == Some(Decoded(ArrayReply(Bulks(if asked then FlatPairs(pairs) else Members(pairs))), |reply|))
  {
    hide Decode, Convert, Respond, Lower, PrintInt, FlatPairs, Lookup, ReadNumber, Size, ToInt64;
    RangeCommand(cmd);
    ConvertedRange(cmd, key, start, end, options, errno);
    var c := Convert(Lookup(cmd), cmd, [cmd, key, PrintInt(start), PrintInt(end)] + options, errno).command;
    PairsReply(Lookup(cmd).value, c, pairs, rest);
  }
}
