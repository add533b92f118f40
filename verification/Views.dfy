/**
 The views of a received packet stand in the buffer's memory before the window. The comment on
 nice() wants them to stay valid. It is called at the start of Link::read, which then stores what
 arrives behind the window: this is when a view outlives both.
 */
module Views {
  import opened Text
  import opened Buffers
  import opened Framing

  /** nice() does not move, or moves too few bytes to reach the view. */
  predicate OutOfReach(v: Bytes, total: nat, off: nat, size: nat) {
    v.Slice? ==> v.len == 0 || off <= total / 2 || size <= v.start
  }

  ghost predicate SurvivesNice(v: Bytes, total: nat, off: nat, size: nat)
    requires v.Slice? && v.start + v.len <= off && off + size <= total
  {
    forall mem: string {:trigger AfterNice(mem, off, size)} :: |mem| == total ==>
      v.String(AfterNice(mem, off, size)) == v.String(mem)
  }

  /** A view of a received packet reads the same after nice(), whatever the bytes, exactly if it is out of reach. */
  lemma SurvivesNiceIff(v: Bytes, total: nat, off: nat, size: nat)
    requires v.Slice? && v.start + v.len <= off && off + size <= total
    ensures SurvivesNice(v, total, off, size) <==> OutOfReach(v, total, off, size)
  {
    if OutOfReach(v, total, off, size) {
      forall mem: string | |mem| == total
        ensures v.String(AfterNice(mem, off, size)) == v.String(mem)
      {
        OutOfReachReads(v, mem, off, size);
      }
    } else {
      var mem := seq(total, i => if i < off then 'a' else 'b');
      assert |mem| == total;
      assert AfterNice(mem, off, size)[v.start] == 'b';
      assert v.String(AfterNice(mem, off, size))[0] == 'b' && v.String(mem)[0] == 'a';
    }
  }

  lemma OutOfReachReads(v: Bytes, mem: string, off: nat, size: nat)
    requires v.Within(mem) && off + size <= |mem| && OutOfReach(v, |mem|, off, size)
    ensures v.String(AfterNice(mem, off, size)) == v.String(mem)
  {
    if v.Slice? && v.len > 0 && off > |mem| / 2 {
      var after := AfterNice(mem, off, size);
      forall i | v.start <= i < v.start + v.len
        ensures after[i] == mem[i]
      {
        assert after[i] == mem[size..][i - size];
      }
    }
  }

  /** All views of a packet together: what they read before nice() they read after it. */
  lemma PacketSurvivesNice(bs: seq<Bytes>, mem: string, off: nat, size: nat)
    requires AllWithin(bs, mem) && off + size <= |mem|
    requires forall i :: 0 <= i < |bs| ==> OutOfReach(bs[i], |mem|, off, size)
    ensures AllWithin(bs, AfterNice(mem, off, size))
    ensures Strings(bs, AfterNice(mem, off, size)) == Strings(bs, mem)
  {
    forall i | 0 <= i < |bs|
      ensures bs[i].Within(AfterNice(mem, off, size))
      ensures bs[i].String(AfterNice(mem, off, size)) == bs[i].String(mem)
    {
      OutOfReachReads(bs[i], mem, off, size);
    }
  }

  // ------------------------------------------------------------ nice() and the read behind it

  ghost predicate SurvivesRead(v: Bytes, total: nat, off: nat, size: nat)
    requires v.Slice? && v.start + v.len <= off && off + size <= total
  {
    forall mem: string, chunk: string {:trigger AfterRead(mem, off, size, chunk)} ::
      |mem| == total && |chunk| <= SpaceToRead(total, off, size) ==>
        v.String(AfterRead(mem, off, size, chunk)) == v.String(mem)
  }

  /**
   A view of a received packet reads the same after the next Link::read, whatever the bytes and
   however many arrive, exactly if it is empty or the window starts in the first half of the block.
   */
  lemma SurvivesReadIff(v: Bytes, total: nat, off: nat, size: nat)
    requires v.Slice? && v.start + v.len <= off && off + size <= total
    ensures SurvivesRead(v, total, off, size) <==> v.len == 0 || off <= total / 2
  {
    if v.len == 0 || off <= total / 2 {
      forall mem: string, chunk: string | |mem| == total && |chunk| <= SpaceToRead(total, off, size)
        ensures v.String(AfterRead(mem, off, size, chunk)) == v.String(mem)
      {
        BeforeTheWindow(v, mem, off, size, chunk);
      }
    } else {
      var mem, chunk := FilledUp(total, off, size);
      assert v.String(AfterRead(mem, off, size, chunk))[0] == 'b' && v.String(mem)[0] == 'a';
    }
  }

  /** A window of 'b's behind 'a's is moved to the front, and the read puts 'b's behind it. */
  lemma FilledUp(total: nat, off: nat, size: nat) returns (mem: string, chunk: string)
    requires off + size <= total && off > total / 2
    ensures |mem| == total && |chunk| == SpaceToRead(total, off, size)
    ensures forall i :: 0 <= i < off ==> mem[i] == 'a'
    ensures forall i :: 0 <= i < total ==> AfterRead(mem, off, size, chunk)[i] == 'b'
  {
    mem := seq(total, i => if i < off then 'a' else 'b');
    chunk := seq(total - size, _ => 'b');
    assert |mem| == total && |chunk| == SpaceToRead(total, off, size);
    assert AfterRead(mem, off, size, chunk) == mem[off..off + size] + chunk;
  }

  lemma BeforeTheWindow(v: Bytes, mem: string, off: nat, size: nat, chunk: string)
    requires off + size <= |mem| && |chunk| <= SpaceToRead(|mem|, off, size)
    requires v.Slice? ==> v.start + v.len <= off && (v.len == 0 || off <= |mem| / 2)
    ensures v.Within(mem) && v.String(AfterRead(mem, off, size, chunk)) == v.String(mem)
  {
    if v.Slice? && v.len > 0 {
      var after := AfterRead(mem, off, size, chunk);
      forall i | 0 <= i < off
        ensures after[i] == mem[i]
      {
      }
    }
  }

  /** All views of a packet together outlive the read while the window starts in the first half. */
  lemma PacketSurvivesRead(bs: seq<Bytes>, mem: string, off: nat, size: nat, chunk: string)
    requires off + size <= |mem| && |chunk| <= SpaceToRead(|mem|, off, size) && off <= |mem| / 2
    requires forall i :: 0 <= i < |bs| ==> bs[i].Slice? ==> bs[i].start + bs[i].len <= off
    ensures AllWithin(bs, mem) && AllWithin(bs, AfterRead(mem, off, size, chunk))
    ensures Strings(bs, AfterRead(mem, off, size, chunk)) == Strings(bs, mem)
  {
    forall i | 0 <= i < |bs|
      ensures bs[i].Within(mem)
      ensures bs[i].String(AfterRead(mem, off, size, chunk)) == bs[i].String(mem)
    {
      BeforeTheWindow(bs[i], mem, off, size, chunk);
    }
  }

  /**
   A packet that fills more than half of the block, followed by enough bytes of the next one: its
   view is overwritten by the next read, whatever arrives.
   */
  lemma ViewOverwritten(x: string, rest: string, mem: string)
    requires Sendable([x]) && x != "" && Encode([x]) + rest <= mem
    requires |Encode([x])| > |mem| / 2
    requires var head := |Dec(|x|)| + 1; |rest| > head && rest[head] != x[0]
    ensures var v := Slice(|Dec(|x|)| + 1, |x|);
            && Parse(Encode([x]) + rest) == Packet([x], |Encode([x])|)
            && v.Within(mem) && v.String(mem) == x
            && v.String(AfterNice(mem, |Encode([x])|, |rest|)) != x
            && forall chunk {:trigger AfterRead(mem, |Encode([x])|, |rest|, chunk)} ::
                 |chunk| <= SpaceToRead(|mem|, |Encode([x])|, |rest|) ==>
                   v.String(AfterRead(mem, |Encode([x])|, |rest|, chunk)) != x
  {
    hide Parse, Encode, Sendable, Dec, AfterNice, AfterRead, SpaceToRead;
    var head, e := |Dec(|x|)| + 1, Encode([x]);
    PacketInMemory(x, rest, mem);
    Overwritten(mem, |e|, rest, head, x);
    AlwaysOverwritten(mem, |e|, rest, head, x);
  }

  lemma PacketInMemory(x: string, rest: string, mem: string)
    requires Sendable([x]) && Encode([x]) + rest <= mem
    ensures Parse(Encode([x]) + rest) == Packet([x], |Encode([x])|)
    ensures var head := |Dec(|x|)| + 1;
            && head + |x| <= |Encode([x])| && mem[head..head + |x|] == x
            && |Encode([x])| + |rest| <= |mem| && mem[|Encode([x])|..|Encode([x])| + |rest|] == rest
  {
    hide Parse, Encode, EncodeRecords, Dec;
    RoundTrip([x], rest);
    EncodedOne(x);
    StartsMemory(mem, Encode([x]), rest, |Dec(|x|)| + 1, |x|);
  }

  lemma AlwaysOverwritten(mem: string, off: nat, rest: string, at: nat, x: string)
    requires off + |rest| <= |mem| && mem[off..off + |rest|] == rest && off > |mem| / 2
    requires at + |x| <= |mem| && x != "" && at < |rest| && rest[at] != x[0]
    ensures forall chunk {:trigger AfterRead(mem, off, |rest|, chunk)} ::
              |chunk| <= SpaceToRead(|mem|, off, |rest|) ==>
                AfterRead(mem, off, |rest|, chunk)[at..at + |x|] != x
  {
    hide AfterRead, AfterNice;
    forall chunk | |chunk| <= SpaceToRead(|mem|, off, |rest|)
      ensures AfterRead(mem, off, |rest|, chunk)[at..at + |x|] != x
    {
      StaysOverwritten(mem, off, rest, at, x, chunk);
    }
  }

  lemma StaysOverwritten(mem: string, off: nat, rest: string, at: nat, x: string, chunk: string)
    requires off + |rest| <= |mem| && mem[off..off + |rest|] == rest && off > |mem| / 2
    requires at + |x| <= |mem| && x != "" && at < |rest| && rest[at] != x[0]
    requires |chunk| <= SpaceToRead(|mem|, off, |rest|)
    ensures AfterRead(mem, off, |rest|, chunk)[at..at + |x|] != x
  {
    var after := AfterRead(mem, off, |rest|, chunk);
    assert after[at] == AfterNice(mem, off, |rest|)[at] == rest[at];
    assert after[at..at + |x|][0] == after[at];
  }

  lemma StartsMemory(mem: string, e: string, rest: string, at: nat, n: nat)
    requires e + rest <= mem && at + n <= |e|
    ensures mem[at..at + n] == e[at..at + n] && mem[|e|..|e| + |rest|] == rest
  {
    assert mem[..|e| + |rest|] == e + rest;
    assert mem[at..at + n] == mem[..|e| + |rest|][at..at + n];
    assert mem[|e|..|e| + |rest|] == mem[..|e| + |rest|][|e|..];
  }

  lemma Overwritten(mem: string, off: nat, rest: string, at: nat, x: string)
    requires off + |rest| <= |mem| && mem[off..off + |rest|] == rest && off > |mem| / 2
    requires at + |x| <= |mem| && x != "" && at < |rest| && rest[at] != x[0]
    ensures AfterNice(mem, off, |rest|)[at..at + |x|] != x
  {
    var after := AfterNice(mem, off, |rest|);
    assert after[at] == rest[at];
    assert after[at..at + |x|][0] == after[at];
  }

  lemma EncodedOne(x: string)
    ensures var head := |Dec(|x|)| + 1;
            head + |x| <= |Encode([x])| && Encode([x])[head..head + |x|] == x
  {
    var line := Dec(|x|) + "\n";
    assert EncodeRecords([x]) == Record(x) + EncodeRecords([]);
    assert Encode([x]) == line + x + ("\n" + "\n");
  }

  /** For example 5000 bytes in a block of 8192, followed by the beginning of a packet of 10 bytes. */
  lemma OverwrittenExample(filler: string)
    requires |filler| == 8192 - 5007 - 13
    ensures var x, rest := seq(5000, _ => 'x'), "10\nyyyyyyyyyy";
            var mem := Encode([x]) + rest + filler;
            && |mem| == 8192 && |Encode([x])| == 5007
            && Slice(5, 5000).String(mem) == x
            && Slice(5, 5000).String(AfterNice(mem, 5007, 13)) != x
  {
    var x, rest := seq(5000, _ => 'x'), "10\nyyyyyyyyyy";
    assert Dec(5) == "5" && |Dec(50)| == 2 && |Dec(500)| == 3 && |Dec(5000)| == 4;
    assert EncodeRecords([x]) == Record(x) + "";
    assert |Encode([x])| == 5007;
    ViewOverwritten(x, rest, Encode([x]) + rest + filler);
  }
}
