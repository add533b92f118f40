/**
 RedisLink::send_resp: from an SSDB response to the bytes of a Redis reply. The decoder at the end
 is an independent reader of the Redis serialization protocol.
 */
module RedisReplies {
  import opened Text
  import opened Resp
  import opened RedisCommands

  // ------------------------------------------------------------ what send_resp writes

  const NIL_TEXT := "$-1\r\n"

  function LineText(kind: string, text: string): string {
    kind + text + "\r\n"
  }

  /** The two-pointer loop of MGET and HMGET: one entry per requested key. */
  function Merge(keys: seq<string>, found: seq<string>): (r: seq<Option<string>>)
    requires |found| % 2 == 0
    ensures |r| == |keys|
    decreases |keys|
  {
    if keys == [] then []
    else if found == [] || keys[0] != found[0] then [None] + Merge(keys[1..], found)
    else [Some(found[1])] + Merge(keys[1..], found[2..])
  }

  function EntryText(e: Option<string>): string {
    if e.None? then NIL_TEXT else BulkText(e.value)
  }

  function EntriesText(es: seq<Option<string>>): string {
    if es == [] then "" else EntryText(es[0]) + EntriesText(es[1..])
  }

  /** The items of a multi-bulk reply: all of them, or every other one. */
  function Items(resp: seq<string>, i: nat, scores: bool): seq<Option<string>>
    decreases |resp| - i
  {
    if i >= |resp| then [] else [Some(resp[i])] + Items(resp, i + if scores then 1 else 2, scores)
  }

  predicate WithScores(strategy: Strategy, command: seq<string>)
    requires command != []
  {
    match strategy
    case ZRange => |command| >= 5 && command[4] == "withscores"
    case ZRevRange => |command| >= 5 && command[4] == "withscores"
    case ZRangeByScore => command[|command| - 1] == "withscores"
    case ZRevRangeByScore => command[|command| - 1] == "withscores"
    case _ => true
  }

  /** Where the requested keys start in the converted command. */
  function FirstKey(strategy: Strategy): nat {
    if strategy == MGet then 1 else 2
  }

  /** The iterator over the keys starts inside the command whenever it is used. */
  predicate KeysInRange(d: RequestDesc, command: seq<string>, resp: seq<string>) {
    command != [] && (d.strategy == HMGet && |resp| % 2 == 1 ==> |command| >= 2)
  }

  /** send_resp stays inside the converted command: only an "ok" response ever looks at it. */
  predicate InRange(desc: Option<RequestDesc>, command: seq<string>, resp: seq<string>) {
    resp != [] && resp[0] == "ok" && desc.Some? ==> KeysInRange(desc.value, command, resp)
  }

  function OkText(d: RequestDesc, command: seq<string>, resp: seq<string>): string
    requires KeysInRange(d, command, resp) && resp != []
  {
    if d.strategy == Ping then LineText("+", "PONG")
    else if d.replyType == Status then LineText("+", "OK")
    else if d.strategy == MGet || d.strategy == HMGet then
      if |resp| % 2 != 1 then "*0"
      else
        var keys := command[FirstKey(d.strategy)..];
        Heading('*', |keys|) + EntriesText(Merge(keys, resp[1..]))
    else if d.replyType == Bulk then
      if |resp| >= 2 then BulkText(resp[1]) else "$0\r\n"
    else if d.replyType == Int then
      if |resp| >= 2 then LineText(":", resp[1]) else "$0\r\n"
    else
      var scores := WithScores(d.strategy, command);
      Heading('*', if scores then |resp| - 1 else (|resp| - 1) / 2) + EntriesText(Items(resp, 1, scores))
  }

  predicate IsError(status: string) {
    status == "error" || status == "fail" || status == "client_error"
  }

  function Second(resp: seq<string>): string {
    if |resp| >= 2 then resp[1] else ""
  }

  function Respond(desc: Option<RequestDesc>, command: seq<string>, resp: seq<string>): string
    requires InRange(desc, command, resp)
  {
    if resp == [] then ""
    else if IsError(resp[0]) then LineText("-ERR ", Second(resp))
    else if resp[0] == "noauth" then LineText("-NOAUTH ", Second(resp))
    else if resp[0] == "not_found" then NIL_TEXT
    else if resp[0] != "ok" then LineText("-ERR ", "server error")
    else if desc.None? then LineText("+", "OK")
    else OkText(desc.value, command, resp)
  }

  // ------------------------------------------------------------ the decoder

  datatype Reply =
    | StatusReply(text: string)
    | ErrorReply(text: string)
    | IntReply(value: int)
    | BulkReply(text: string)
    | NilReply
    | ArrayReply(items: seq<Reply>)

  /** A reply and the position behind it. */
  datatype Decoded = Decoded(reply: Reply, end: nat)
  datatype DecodedItems = DecodedItems(items: seq<Reply>, end: nat)

  predicate IsBreak(c: char) {
    c == '\r' || c == '\n'
  }

  function LineBreak(s: string, i: nat): (k: nat)
    requires i <= |s|
    ensures i <= k <= |s|
    ensures forall j :: i <= j < k ==> !IsBreak(s[j])
    ensures k < |s| ==> IsBreak(s[k])
    decreases |s| - i
  {
    if i == |s| || IsBreak(s[i]) then i else LineBreak(s, i + 1)
  }

  predicate CrLfAt(s: string, i: nat) {
    i + 1 < |s| && s[i] == '\r' && s[i + 1] == '\n'
  }

  /** A length as the protocol writes it: digits, behind a '-' in the length of a nil, up to `k`. */
  predicate IsNumber(s: string, i: nat, k: nat)
    requires i <= k <= |s|
  {
    var d := if i < k && s[i] == '-' then i + 1 else i;
    d < k && forall j :: d <= j < k ==> IsDigit(s[j])
  }

  function NumberOf(s: string, i: nat, k: nat): int
    requires i <= k <= |s| && IsNumber(s, i, k)
  {
    if s[i] == '-' then 0 - Value(s, i + 1, k) else Value(s, i, k)
  }

  /** Where the number of an integer reply starts, behind an optional '+'. */
  function PastPlus(s: string, i: nat, k: nat): (d: nat)
    requires i <= k <= |s|
    ensures i <= d <= k
  {
    if i < k && s[i] == '+' then i + 1 else i
  }

  /** An integer reply: a number with an optional sign, in the signed 64-bit range. */
  predicate IsInteger(s: string, i: nat, k: nat)
    requires i <= k <= |s|
  {
    var d := PastPlus(s, i, k);
    && IsNumber(s, d, k) && (d > i ==> s[d] != '-')
    && -INT64_LIMIT <= NumberOf(s, d, k) < INT64_LIMIT
  }

  function IntegerOf(s: string, i: nat, k: nat): int
    requires i <= k <= |s| && IsInteger(s, i, k)
  {
    NumberOf(s, PastPlus(s, i, k), k)
  }

  function Decode(s: string, i: nat): (r: Option<Decoded>)
    requires i <= |s|
    ensures r.Some? ==> i < r.value.end <= |s|
    decreases |s| - i, 0
  {
    if i == |s| then None
    else
      var k := LineBreak(s, i + 1);
      if !CrLfAt(s, k) then None
      else if s[i] == '+' then Some(Decoded(StatusReply(s[i + 1..k]), k + 2))
      else if s[i] == '-' then Some(Decoded(ErrorReply(s[i + 1..k]), k + 2))
      else if s[i] == ':' then
        if IsInteger(s, i + 1, k) then Some(Decoded(IntReply(IntegerOf(s, i + 1, k)), k + 2)) else None
      else if !IsNumber(s, i + 1, k) then None
      else
        var n := NumberOf(s, i + 1, k);
        if s[i] == '$' && n == -1 then Some(Decoded(NilReply, k + 2))
        else if s[i] == '$' && 0 <= n && k + 2 + n <= |s| && CrLfAt(s, k + 2 + n) then
          Some(Decoded(BulkReply(s[k + 2..k + 2 + n]), k + 2 + n + 2))
        else if s[i] == '*' && 0 <= n then
          match DecodeItems(s, k + 2, n)
          case None => None
          case Some(r) => Some(Decoded(ArrayReply(r.items), r.end))
        else None
  }

  function DecodeItems(s: string, i: nat, n: nat): (r: Option<DecodedItems>)
    requires i <= |s|
    ensures r.Some? ==> i <= r.value.end <= |s| && |r.value.items| == n
    decreases |s| - i, 1, n
  {
    if n == 0 then Some(DecodedItems([], i))
    else
      match Decode(s, i)
      case None => None
      case Some(first) =>
        match DecodeItems(s, first.end, n - 1)
        case None => None
        case Some(r) => Some(DecodedItems([first.reply] + r.items, r.end))
  }

  /** `s` is one reply and nothing else. */
  predicate IsOneReply(s: string) {
    Decode(s, 0).Some? && Decode(s, 0).value.end == |s|
  }

  // ------------------------------------------------------------ what the reply means

  function EntryReply(e: Option<string>): Reply {
    if e.None? then NilReply else BulkReply(e.value)
  }

  function EntryReplies(es: seq<Option<string>>): (rs: seq<Reply>)
    ensures |rs| == |es| && forall i :: 0 <= i < |es| ==> rs[i] == EntryReply(es[i])
  {
    seq(|es|, i requires 0 <= i < |es| => EntryReply(es[i]))
  }

  predicate IsNumberText(s: string) {
    IsNumber(s, 0, |s|)
  }

  predicate IsIntegerText(s: string) {
    IsInteger(s, 0, |s|)
  }

  predicate IsOneLine(s: string) {
    forall i :: 0 <= i < |s| ==> !IsBreak(s[i])
  }

  /** Every size that is printed through an int fits in one. */
  predicate Sized(command: seq<string>, resp: seq<string>) {
    |command| < INT32_LIMIT && |resp| < INT32_LIMIT && forall i :: 0 <= i < |resp| ==> |resp[i]| < INT32_LIMIT
  }

  /** The response has the shape that the kind of request calls for. */
  predicate GoodShape(desc: Option<RequestDesc>, command: seq<string>, resp: seq<string>)
    requires InRange(desc, command, resp)
  {
    resp != [] &&
    if IsError(resp[0]) || resp[0] == "noauth" then IsOneLine(Second(resp))
    else resp[0] == "ok" && desc.Some? ==> GoodOkShape(desc.value, command, resp)
  }

  predicate GoodOkShape(d: RequestDesc, command: seq<string>, resp: seq<string>)
    requires KeysInRange(d, command, resp)
  {
    if d.strategy == Ping || d.replyType == Status then true
    else if d.strategy == MGet || d.strategy == HMGet then |resp| % 2 == 1
    else if d.replyType == Bulk then |resp| >= 2
    else if d.replyType == Int then |resp| >= 2 && IsIntegerText(resp[1])
    else WithScores(d.strategy, command) || |resp| % 2 == 1
  }

  function OkReply(d: RequestDesc, command: seq<string>, resp: seq<string>): Reply
    requires KeysInRange(d, command, resp) && resp != [] && GoodOkShape(d, command, resp)
  {
    if d.strategy == Ping then StatusReply("PONG")
    else if d.replyType == Status then StatusReply("OK")
    else if d.strategy == MGet || d.strategy == HMGet then
      ArrayReply(EntryReplies(Merge(command[FirstKey(d.strategy)..], resp[1..])))
    else if d.replyType == Bulk then BulkReply(resp[1])
    else if d.replyType == Int then IntReply(IntegerOf(resp[1], 0, |resp[1]|))
    else ArrayReply(EntryReplies(Items(resp, 1, WithScores(d.strategy, command))))
  }

  function ReplyOf(desc: Option<RequestDesc>, command: seq<string>, resp: seq<string>): Reply
    requires InRange(desc, command, resp)
    requires GoodShape(desc, command, resp)
  {
    if IsError(resp[0]) then ErrorReply("ERR " + Second(resp))
    else if resp[0] == "noauth" then ErrorReply("NOAUTH " + Second(resp))
    else if resp[0] == "not_found" then NilReply
    else if resp[0] != "ok" then ErrorReply("ERR server error")
    else if desc.None? then StatusReply("OK")
    else OkReply(desc.value, command, resp)
  }
}
