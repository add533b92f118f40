/** The replies of send_resp, read back by the decoder. */
module ReplyDecoding {
  import opened Text
  import opened Resp
  import opened RedisCommands
  import opened RedisReplies

  // ------------------------------------------------------------ lines and numbers

  /** A line of text behind its type character: where its parts stand. */
  lemma LineParts(s: string, i: nat, kind: char, text: string)
    requires At(s, i, [kind] + text + "\r\n")
    ensures i + 1 + |text| + 2 <= |s| && s[i] == kind && At(s, i + 1, text)
    ensures CrLfAt(s, i + 1 + |text|)
  {
    var k := i + 1 + |text|;
    AtParts(s, i, [kind] + text, "\r\n");
    AtParts(s, i, [kind], text);
    AtIndex(s, i, [kind], 0);
    AtIndex(s, k, "\r\n", 0);
    AtIndex(s, k, "\r\n", 1);
  }

  /** The decoder finds its end. */
  lemma LineAt(s: string, i: nat, kind: char, text: string)
    requires At(s, i, [kind] + text + "\r\n") && IsOneLine(text)
    ensures i + 1 + |text| + 2 <= |s| && s[i] == kind && At(s, i + 1, text)
    ensures LineBreak(s, i + 1) == i + 1 + |text| && CrLfAt(s, i + 1 + |text|)
    ensures s[i + 1..i + 1 + |text|] == text
  {
    LineParts(s, i, kind, text);
    forall j | i + 1 <= j < i + 1 + |text|
      ensures !IsBreak(s[j])
    {
      AtIndex(s, i + 1, text, j - i - 1);
    }
  }

  lemma {:induction false} ValueMoves(s: string, i: nat, text: string, a: nat, b: nat)
    requires At(s, i, text) && a <= b <= |text|
    requires forall j :: a <= j < b ==> IsDigit(text[j])
    requires forall j :: i + a <= j < i + b ==> IsDigit(s[j])
    ensures Value(s, i + a, i + b) == Value(text, a, b)
    decreases b
  {
    if a < b {
      AtIndex(s, i, text, b - 1);
      ValueMoves(s, i, text, a, b - 1);
    }
  }

  /** A number reads the same inside a longer text. */
  lemma NumberMoves(s: string, i: nat, text: string, a: nat)
    requires At(s, i, text) && a <= |text|
    ensures IsNumber(s, i + a, i + |text|) <==> IsNumber(text, a, |text|)
    ensures IsNumber(text, a, |text|) ==> NumberOf(s, i + a, i + |text|) == NumberOf(text, a, |text|)
  {
    forall j | 0 <= j < |text|
      ensures s[i + j] == text[j]
    {
      AtIndex(s, i, text, j);
    }
    assert forall j :: i <= j < i + |text| ==> s[j] == text[j - i];
    if IsNumber(text, a, |text|) {
      var d := if text[a] == '-' then a + 1 else a;
      ValueMoves(s, i, text, d, |text|);
    }
  }

  lemma IntegerMoves(s: string, i: nat, text: string)
    requires At(s, i, text)
    ensures IsInteger(s, i, i + |text|) <==> IsIntegerText(text)
    ensures IsIntegerText(text) ==> IntegerOf(s, i, i + |text|) == IntegerOf(text, 0, |text|)
  {
    hide NumberOf;
    if text != "" {
      AtIndex(s, i, text, 0);
      if |text| > 1 {
        AtIndex(s, i, text, 1);
      }
    }
    var d := PastPlus(text, 0, |text|);
    assert PastPlus(s, i, i + |text|) == i + d;
    NumberMoves(s, i, text, d);
  }

  lemma DecIsNumber(n: nat)
    ensures IsNumberText(Dec(n)) && IsOneLine(Dec(n)) && NumberOf(Dec(n), 0, |Dec(n)|) == n
  {
    var d := Dec(n);
    ValueAt(d, 0, n);
    assert IsDigit(d[0]);
    assert forall i :: 0 <= i < |d| ==> IsDigit(d[i]);
  }

  lemma NumberLineAt(s: string, i: nat, kind: char, n: nat)
    requires n < INT32_LIMIT && At(s, i, Heading(kind, n))
    ensures i + |Heading(kind, n)| <= |s| && |Heading(kind, n)| >= 4
    ensures var k := i + |Heading(kind, n)| - 2;
            && s[i] == kind && LineBreak(s, i + 1) == k && CrLfAt(s, k)
            && IsNumber(s, i + 1, k) && NumberOf(s, i + 1, k) == n
  {
    hide NumberOf, IsNumber, CrLfAt, LineBreak, IsNumberText, IsOneLine, Dec;
    HeadingIsDecimal(kind, n);
    assert Heading(kind, n) == [kind] + Dec(n) + "\r\n";
    hide Heading;
    DecIsNumber(n);
    LineAt(s, i, kind, Dec(n));
    NumberMoves(s, i + 1, Dec(n), 0);
  }

  lemma IntegerTextIsOneLine(text: string)
    requires IsIntegerText(text)
    ensures IsOneLine(text)
  {
    assert forall i :: 0 <= i < |text| ==> IsDigit(text[i]) || text[i] == '-' || text[i] == '+';
  }

  // ------------------------------------------------------------ single replies

  lemma DecodeStatusLine(s: string, i: nat, text: string)
    requires At(s, i, "+" + text + "\r\n") && IsOneLine(text)
    ensures Decode(s, i) == Some(Decoded(StatusReply(text), i + 1 + |text| + 2))
  {
    LineAt(s, i, '+', text);
  }

  lemma DecodeErrorLine(s: string, i: nat, text: string)
    requires At(s, i, "-" + text + "\r\n") && IsOneLine(text)
    ensures Decode(s, i) == Some(Decoded(ErrorReply(text), i + 1 + |text| + 2))
  {
    LineAt(s, i, '-', text);
  }

  lemma DecodeIntLine(s: string, i: nat, text: string)
    requires At(s, i, ":" + text + "\r\n") && IsIntegerText(text)
    ensures Decode(s, i) == Some(Decoded(IntReply(IntegerOf(text, 0, |text|)), i + 1 + |text| + 2))
  {
    hide IsInteger, IntegerOf;
    IntegerTextIsOneLine(text);
    LineAt(s, i, ':', text);
    IntegerMoves(s, i + 1, text);
  }

  lemma DecodeNil(s: string, i: nat)
    requires At(s, i, NIL_TEXT)
    ensures Decode(s, i) == Some(Decoded(NilReply, i + |NIL_TEXT|))
  {
    assert NIL_TEXT == ['$'] + "-1" + "\r\n";
    LineAt(s, i, '$', "-1");
    NumberMoves(s, i + 1, "-1", 0);
    assert Value("-1", 1, 1) == 0;
    assert NumberOf("-1", 0, 2) == -1;
  }

  lemma DecodeBulk(s: string, i: nat, val: string)
    requires |val| < INT32_LIMIT && At(s, i, BulkText(val))
    ensures Decode(s, i) == Some(Decoded(BulkReply(val), i + |BulkText(val)|))
  {
    hide IsNumber, NumberOf, CrLfAt, DecodeItems, Heading;
    var head := Heading('$', |val|);
    var body := i + |head|;
    AtParts(s, i, head, val + "\r\n");
    AtParts(s, body, val, "\r\n");
    NumberLineAt(s, i, '$', |val|);
    CrLfThere(s, body + |val|);
  }

  lemma CrLfThere(s: string, i: nat)
    requires At(s, i, "\r\n")
    ensures CrLfAt(s, i)
  {
    AtIndex(s, i, "\r\n", 0);
    AtIndex(s, i, "\r\n", 1);
  }

  // ------------------------------------------------------------ arrays

  predicate EntriesFit(es: seq<Option<string>>) {
    forall i :: 0 <= i < |es| && es[i].Some? ==> |es[i].value| < INT32_LIMIT
  }

  lemma DecodeEntry(s: string, i: nat, e: Option<string>)
    requires EntriesFit([e]) && At(s, i, EntryText(e))
    ensures Decode(s, i) == Some(Decoded(EntryReply(e), i + |EntryText(e)|))
  {
    hide Decode, BulkText;
    assert [e][0] == e;
    if e.None? {
      DecodeNil(s, i);
    } else {
      DecodeBulk(s, i, e.value);
    }
  }

  lemma {:induction false} DecodeEntries(s: string, i: nat, es: seq<Option<string>>)
    requires EntriesFit(es) && At(s, i, EntriesText(es))
    ensures DecodeItems(s, i, |es|) == Some(DecodedItems(EntryReplies(es), i + |EntriesText(es)|))
    decreases |es|
  {
    hide Decode, EntryText, EntryReply;
    if es != [] {
      AtParts(s, i, EntryText(es[0]), EntriesText(es[1..]));
      DecodeEntry(s, i, es[0]);
      DecodeEntries(s, i + |EntryText(es[0])|, es[1..]);
      assert EntryReplies(es) == [EntryReply(es[0])] + EntryReplies(es[1..]);
    }
  }

  lemma {:induction false} EntriesTextSplits(es: seq<Option<string>>, n: nat)
    requires n <= |es|
    ensures EntriesText(es) == EntriesText(es[..n]) + EntriesText(es[n..])
    ensures n < |es| ==> |EntriesText(es[n..])| > 0
  {
    hide EntryText;
    if n > 0 {
      EntriesTextSplits(es[1..], n - 1);
      assert es[1..][..n - 1] == es[..n][1..] && es[1..][n - 1..] == es[n..];
    } else {
      assert es[..0] == [] && es[0..] == es;
      EntryTextNonEmpty(es);
    }
  }

  lemma EntryTextNonEmpty(es: seq<Option<string>>)
    ensures es != [] ==> |EntriesText(es)| > 0
  {
  }

  lemma DecodeHeadedItems(s: string, i: nat, n: nat)
    requires n < INT32_LIMIT && At(s, i, Heading('*', n))
    ensures var items := i + |Heading('*', n)|;
            && items <= |s|
            && Decode(s, i) == match DecodeItems(s, items, n)
                               case None => None
                               case Some(r) => Some(Decoded(ArrayReply(r.items), r.end))
  {
    hide IsNumber, NumberOf, CrLfAt, DecodeItems;
    NumberLineAt(s, i, '*', n);
  }

  /** An array heading for `n` makes the decoder take the first `n` entries and stop there. */
  lemma DecodeArray(s: string, i: nat, n: nat, es: seq<Option<string>>)
    requires n <= |es| && n < INT32_LIMIT && EntriesFit(es) && At(s, i, Heading('*', n) + EntriesText(es))
    ensures Decode(s, i)
         == Some(Decoded(ArrayReply(EntryReplies(es[..n])), i + |Heading('*', n)| + |EntriesText(es[..n])|))
  {
    hide Decode, DecodeItems, EntryReplies, Heading, EntriesText, At;
    var items := i + |Heading('*', n)|;
    AtParts(s, i, Heading('*', n), EntriesText(es));
    EntriesTextSplits(es, n);
    AtParts(s, items, EntriesText(es[..n]), EntriesText(es[n..]));
    DecodeHeadedItems(s, i, n);
    DecodeEntries(s, items, es[..n]);
  }

  lemma {:induction false} ItemsCount(resp: seq<string>, i: nat, scores: bool)
    requires 0 < i <= |resp| + 1
    ensures |Items(resp, i, scores)|
         == if scores then (if i <= |resp| then |resp| - i else 0) else (|resp| + 1 - i) / 2
    decreases |resp| + 1 - i
  {
    if i < |resp| {
      ItemsCount(resp, i + if scores then 1 else 2, scores);
    }
  }

  lemma {:induction false} MergeFits(keys: seq<string>, found: seq<string>)
    requires |found| % 2 == 0 && forall i :: 0 <= i < |found| ==> |found[i]| < INT32_LIMIT
    ensures EntriesFit(Merge(keys, found))
    decreases |keys|
  {
    if keys != [] {
      if found == [] || keys[0] != found[0] {
        MergeFits(keys[1..], found);
      } else {
        MergeFits(keys[1..], found[2..]);
      }
    }
  }

  lemma {:induction false} ItemsFit(resp: seq<string>, i: nat, scores: bool)
    requires forall k :: 0 <= k < |resp| ==> |resp[k]| < INT32_LIMIT
    ensures EntriesFit(Items(resp, i, scores))
    decreases |resp| - i
  {
    if i < |resp| {
      ItemsFit(resp, i + if scores then 1 else 2, scores);
    }
  }

  // ------------------------------------------------------------ every good response is one reply

  lemma OkDecodes(d: RequestDesc, command: seq<string>, resp: seq<string>, s: string)
    requires KeysInRange(d, command, resp) && resp != [] && Sized(command, resp) && GoodOkShape(d, command, resp)
    requires At(s, 0, OkText(d, command, resp))
    ensures Decode(s, 0) == Some(Decoded(OkReply(d, command, resp), |OkText(d, command, resp)|))
  {
    hide Decode, IsIntegerText, IntegerOf, EntryReplies, WithScores, EntriesText, BulkText, Heading, At;
    if d.strategy == Ping {
      DecodeStatusLine(s, 0, "PONG");
    } else if d.replyType == Status {
      DecodeStatusLine(s, 0, "OK");
    } else if d.strategy == MGet || d.strategy == HMGet {
      var keys := command[FirstKey(d.strategy)..];
      var es := Merge(keys, resp[1..]);
      assert es[..|keys|] == es;
      MergeFits(keys, resp[1..]);
      DecodeArray(s, 0, |keys|, es);
    } else if d.replyType == Bulk {
      DecodeBulk(s, 0, resp[1]);
    } else if d.replyType == Int {
      DecodeIntLine(s, 0, resp[1]);
    } else {
      var scores := WithScores(d.strategy, command);
      var es := Items(resp, 1, scores);
      ItemsCount(resp, 1, scores);
      ItemsFit(resp, 1, scores);
      assert es[..|es|] == es;
      DecodeArray(s, 0, |es|, es);
    }
  }

  /**
   A response of the expected shape becomes exactly one reply of the protocol: the decoder reads it
   with the intended meaning and stops right behind it, whatever follows.
   */
  lemma RespondDecodes(desc: Option<RequestDesc>, command: seq<string>, resp: seq<string>, rest: string)
    requires InRange(desc, command, resp) && Sized(command, resp)
    requires GoodShape(desc, command, resp)
    ensures Decode(Respond(desc, command, resp) + rest, 0)
         == Some(Decoded(ReplyOf(desc, command, resp), |Respond(desc, command, resp)|))
  {
    hide Decode, OkText, OkReply, GoodOkShape, KeysInRange, LineText, IsOneLine, At;
    Codes();
    var s := Respond(desc, command, resp) + rest;
    AtStart(Respond(desc, command, resp), rest);
    if IsError(resp[0]) {
      DecodeErrorCode(s, "ERR ", Second(resp));
    } else if resp[0] == "noauth" {
      DecodeErrorCode(s, "NOAUTH ", Second(resp));
    } else if resp[0] == "not_found" {
      DecodeNil(s, 0);
    } else if resp[0] != "ok" {
      DecodeErrorCode(s, "ERR ", "server error");
    } else if desc.None? {
      StatusOk();
      DecodeStatusLine(s, 0, "OK");
    } else {
      OkDecodes(desc.value, command, resp, s);
    }
  }

  lemma AtStart(text: string, rest: string)
    ensures At(text + rest, 0, text)
  {
  }

  lemma StatusOk()
    ensures LineText("+", "OK") == "+" + "OK" + "\r\n" && IsOneLine("OK")
  {
  }

  lemma DecodeErrorCode(s: string, code: string, text: string)
    requires IsOneLine(code) && IsOneLine(text) && At(s, 0, LineText("-" + code, text))
    ensures Decode(s, 0) == Some(Decoded(ErrorReply(code + text), |LineText("-" + code, text)|))
  {
    hide Decode;
    ErrorLine(code, text);
    DecodeErrorLine(s, 0, code + text);
  }

  lemma ErrorLine(code: string, text: string)
    requires IsOneLine(code) && IsOneLine(text)
    ensures LineText("-" + code, text) == "-" + (code + text) + "\r\n"
    ensures IsOneLine(code + text)
  {
  }

  // ------------------------------------------------------------ and nothing else is

  /** A line with a line break inside is not one reply: the decoder stops early or gives up. */
  lemma BrokenLine(kind: string, text: string)
    requires kind != "" && kind[0] in "+-:" && !IsOneLine(text)
    ensures !IsOneReply(LineText(kind, text))
  {
    var s := LineText(kind, text);
    var j :| 0 <= j < |text| && IsBreak(text[j]);
    assert s[|kind| + j] == text[j];
    assert s[0] == kind[0];
    assert LineBreak(s, 1) <= |kind| + j < |s| - 2;
  }

  lemma IntLineIff(text: string)
    ensures IsOneReply(LineText(":", text)) <==> IsIntegerText(text)
  {
    hide IsInteger, IntegerOf;
    var s := LineText(":", text);
    assert At(s, 0, ":" + text + "\r\n");
    if IsIntegerText(text) {
      DecodeIntLine(s, 0, text);
    } else if IsOneLine(text) {
      LineAt(s, 0, ':', text);
      IntegerMoves(s, 1, text);
    } else {
      BrokenLine(":", text);
    }
  }

  lemma ErrorLineIff(code: string, text: string)
    requires IsOneLine(code)
    ensures IsOneReply(LineText("-" + code, text)) <==> IsOneLine(text)
  {
    hide Decode;
    if IsOneLine(text) {
      ErrorLine(code, text);
      var s := LineText("-" + code, text);
      DecodeErrorLine(s, 0, code + text);
    } else {
      BrokenLine("-" + code, text);
    }
  }

  /** The replies of send_resp to short responses are not complete replies. */
  lemma ShortReplies()
    ensures !IsOneReply("*0") && !IsOneReply("$0\r\n") && !IsOneReply("")
  {
    assert LineBreak("*0", 1) == 2;
    assert LineBreak("$0\r\n", 1) == 2;
    assert Value("$0\r\n", 1, 1) == 0;
    assert NumberOf("$0\r\n", 1, 2) == 0;
  }

  lemma OkOneReplyIff(d: RequestDesc, command: seq<string>, resp: seq<string>)
    requires KeysInRange(d, command, resp) && resp != [] && Sized(command, resp)
    ensures IsOneReply(OkText(d, command, resp)) <==> GoodOkShape(d, command, resp)
  {
    hide Decode, IsIntegerText, IntegerOf, WithScores, BulkText, Heading, EntryReplies, EntriesText;
    var s := OkText(d, command, resp);
    assert At(s, 0, s);
    if GoodOkShape(d, command, resp) {
      OkDecodes(d, command, resp, s);
    } else {
      ShortReplies();
      if d.strategy != MGet && d.strategy != HMGet {
        if d.replyType == Int && |resp| >= 2 {
          IntLineIff(resp[1]);
        } else if d.replyType == MultiBulk {
          HeadingTooSmall(resp);
        }
      }
    }
  }

  /** Half of an odd number of items is rounded down in the heading and up in the loop. */
  lemma HeadingTooSmall(resp: seq<string>)
    requires resp != [] && |resp| % 2 == 0 && Sized([], resp)
    ensures !IsOneReply(Heading('*', (|resp| - 1) / 2) + EntriesText(Items(resp, 1, false)))
  {
    hide Decode, EntryReplies, Heading, EntriesText;
    var n, es := (|resp| - 1) / 2, Items(resp, 1, false);
    var s := Heading('*', n) + EntriesText(es);
    ItemsCount(resp, 1, false);
    ItemsFit(resp, 1, false);
    assert At(s, 0, s);
    EntriesTextSplits(es, n);
    DecodeArray(s, 0, n, es);
  }

  /** send_resp answers with exactly one reply if and only if the response has the expected shape. */
  lemma OneReplyIff(desc: Option<RequestDesc>, command: seq<string>, resp: seq<string>)
    requires InRange(desc, command, resp) && Sized(command, resp)
    ensures IsOneReply(Respond(desc, command, resp)) <==> GoodShape(desc, command, resp)
  {
    hide Decode, OkText, OkReply, GoodOkShape, KeysInRange, IsOneLine;
    if resp == [] {
      ShortReplies();
    } else if IsError(resp[0]) {
      Codes();
      ErrorLineIff("ERR ", Second(resp));
    } else if resp[0] == "noauth" {
      Codes();
      ErrorLineIff("NOAUTH ", Second(resp));
    } else if resp[0] == "ok" && desc.Some? {
      OkOneReplyIff(desc.value, command, resp);
    } else {
      RespondDecodes(desc, command, resp, "");
      assert Respond(desc, command, resp) + "" == Respond(desc, command, resp);
    }
  }

  lemma Codes()
    ensures IsOneLine("ERR ") && IsOneLine("NOAUTH ") && IsOneLine("server error")
    ensures "-" + "ERR " == "-ERR " && "-" + "NOAUTH " == "-NOAUTH "
    ensures "ERR " + "server error" == "ERR server error"
  {
  }

  // ------------------------------------------------------------ MGET and HMGET

  function Found(store: map<string, string>, keys: seq<string>): (r: seq<string>)
    ensures |r| % 2 == 0
  {
    if keys == [] then []
    else (if keys[0] in store then [keys[0], store[keys[0]]] else []) + Found(store, keys[1..])
  }

  function Looked(store: map<string, string>, key: string): Option<string> {
    if key in store then Some(store[key]) else None
  }

  lemma {:induction false} FoundHead(store: map<string, string>, keys: seq<string>)
    ensures Found(store, keys) != [] ==> Found(store, keys)[0] in store
  {
    if keys != [] {
      FoundHead(store, keys[1..]);
    }
  }

  /** Pointwise lookup: entry i is the value of key i, or nil - with repeated keys, too. */
  lemma {:induction false} MergeIsLookup(store: map<string, string>, keys: seq<string>)
    ensures forall i :: 0 <= i < |keys| ==> Merge(keys, Found(store, keys))[i] == Looked(store, keys[i])
    decreases |keys|
  {
    if keys != [] {
      var found := Found(store, keys);
      MergeIsLookup(store, keys[1..]);
      if keys[0] in store {
        assert found[2..] == Found(store, keys[1..]);
      } else {
        assert found == Found(store, keys[1..]);
        FoundHead(store, keys);
      }
      var merged := Merge(keys, found);
      assert merged[1..] == Merge(keys[1..], Found(store, keys[1..]));
      assert forall i :: 1 <= i < |keys| ==> merged[i] == merged[1..][i - 1] && keys[i] == keys[1..][i - 1];
    }
  }

  /** How much of the response the loop has not used. */
  function Unused(keys: seq<string>, found: seq<string>): seq<string>
    requires |found| % 2 == 0
    decreases |keys|
  {
    if keys == [] then found
    else if found == [] || keys[0] != found[0] then Unused(keys[1..], found)
    else Unused(keys[1..], found[2..])
  }

  lemma {:induction false} MergeUsesResponseUp(store: map<string, string>, keys: seq<string>)
    ensures Unused(keys, Found(store, keys)) == []
    decreases |keys|
  {
    if keys != [] {
      MergeUsesResponseUp(store, keys[1..]);
      if keys[0] in store {
        assert Found(store, keys)[2..] == Found(store, keys[1..]);
      } else {
        assert Found(store, keys) == Found(store, keys[1..]);
        FoundHead(store, keys);
      }
    }
  }

  /** From the Redis request to the decoded Redis reply: MGET answers every key, in order. */
  lemma MGetEndToEnd(store: map<string, string>, cmd: string, keys: seq<string>, rest: string, errno: Errno)
    requires Lower(cmd) == "mget" && Sized(["multi_get"] + keys, ["ok"] + Found(store, keys))
    ensures var c := Convert(Lookup("mget"), "mget", [cmd] + keys, errno).command;
            var reply := Respond(Lookup("mget"), c, ["ok"] + Found(store, keys));
            && c == ["multi_get"] + keys
            && Decode(reply + rest, 0)
            == Some(Decoded(ArrayReply(seq(|keys|, i requires 0 <= i < |keys| => EntryReply(Looked(store, keys[i])))),
                            |reply|))
  {
    hide Decode, Respond;
    var c := Convert(Lookup("mget"), "mget", [cmd] + keys, errno).command;
    var resp := ["ok"] + Found(store, keys);
    assert Lookup("mget") == Some(RequestDesc(MGet, "multi_get", MultiBulk));
    assert c == ["multi_get"] + keys;
    assert c[1..] == keys && resp[1..] == Found(store, keys);
    MergeIsLookup(store, keys);
    RespondDecodes(Lookup("mget"), c, resp, rest);
    assert EntryReplies(Merge(keys, Found(store, keys)))
        == seq(|keys|, i requires 0 <= i < |keys| => EntryReply(Looked(store, keys[i])));
  }

  /** The same for HMGET, whose first argument names the hash. */
  lemma HMGetEndToEnd(store: map<string, string>, cmd: string, name: string, keys: seq<string>,
                      rest: string, errno: Errno)
    requires Lower(cmd) == "hmget" && Sized(["multi_hget", name] + keys, ["ok"] + Found(store, keys))
    ensures var c := Convert(Lookup("hmget"), "hmget", [cmd, name] + keys, errno).command;
            var reply := Respond(Lookup("hmget"), c, ["ok"] + Found(store, keys));
            && c == ["multi_hget", name] + keys
            && Decode(reply + rest, 0)
            == Some(Decoded(ArrayReply(seq(|keys|, i requires 0 <= i < |keys| => EntryReply(Looked(store, keys[i])))),
                            |reply|))
  {
    hide Decode, Respond;
    var c := Convert(Lookup("hmget"), "hmget", [cmd, name] + keys, errno).command;
    var resp := ["ok"] + Found(store, keys);
    assert Lookup("hmget") == Some(RequestDesc(HMGet, "multi_hget", MultiBulk));
    assert c == ["multi_hget", name] + keys;
    assert c[2..] == keys && resp[1..] == Found(store, keys);
    MergeIsLookup(store, keys);
    RespondDecodes(Lookup("hmget"), c, resp, rest);
    assert EntryReplies(Merge(keys, Found(store, keys)))
        == seq(|keys|, i requires 0 <= i < |keys| => EntryReply(Looked(store, keys[i])));
  }
}
