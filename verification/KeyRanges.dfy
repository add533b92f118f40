/**
 Which requests and responses keep send_resp's key iterator inside the converted command. HMGET
 starts at the second element behind the command name, whether there is one or not.
 */
module KeyRanges {
  import opened Text
  import opened Resp
  import opened RedisRequests
  import opened RedisCommands
  import opened RedisReplies

  /**
   For every request that recv_req converts and every response: the iterator stays in range unless
   the request is an HMGET without any argument and the response is "ok" with pairs behind it.
   */
  lemma InRangeIff(cmd: string, args: seq<string>, resp: seq<string>, errno: Errno)
    requires args != []
    ensures InRange(Lookup(cmd), Convert(Lookup(cmd), cmd, args, errno).command, resp)
       <==> !(cmd == "hmget" && |args| == 1 && resp != [] && resp[0] == "ok" && |resp| % 2 == 1)
  {
    hide ConvertZAdd, ConvertZRange, ConvertByScore;
    OnlyHMGet(cmd);
  }

  lemma OnlyHMGet(cmd: string)
    ensures Lookup(cmd).Some? && Lookup(cmd).value.strategy == HMGet <==> cmd == "hmget"
  {
  }

  /** Such a request: it is well formed, recv_req accepts it, and no key is left of it. */
  lemma HMGetWithoutArguments(rest: string, errno: Errno)
    requires errno != Invalid
    ensures var text := "*1\r\n$5\r\nHMGET\r\n";
            && ScanRequest(text + rest, errno) == Scan(Args(["HMGET"], |text|), errno)
            && Lower("HMGET") == "hmget"
            && Convert(Lookup("hmget"), "hmget", ["HMGET"], errno).command == ["multi_hget"]
            && !InRange(Lookup("hmget"), ["multi_hget"], ["ok"])
  {
    hide ScanRequest;
    HMGetText();
    RequestRoundTrip(["HMGET"], rest, errno);
    assert Lower("HMGET") == "hmget";
  }

  lemma HMGetText()
    ensures EncodeRequest(["HMGET"]) == "*1\r\n$5\r\nHMGET\r\n"
  {
    HeadingIsDecimal('*', 1);
    HeadingIsDecimal('$', 5);
    assert Dec(1) == "1" && Dec(5) == "5";
    assert EncodeArgs(["HMGET"]) == BulkText("HMGET") + EncodeArgs([]);
  }
}
