/**
 When recv refuses a stream, and when no further byte can ever end its waiting: the other two
 outcomes of the packet parser, read off the grammar of packet texts.
 */
module Verdicts {
  import opened Text
  import opened Framing

  /** `s` begins with blank lines and whole records within the limit. */
  predicate Begins(s: string, blanks: string, lines: seq<Line>) {
    var head := |blanks + LinesText(lines)|;
    && Blanks(blanks) && ValidLines(lines) && blanks + LinesText(lines) <= s
    && (if lines == [] then head < |s| ==> !IsBlank(s[head]) else head <= MAX_PACKET_SIZE)
  }

  ghost predicate OverLimitAt(s: string, head: nat) {
    exists l: Line :: l.Valid() && At(s, head, l.Text()) && head + |l.Text()| > MAX_PACKET_SIZE
  }

  /** The next line is no header, or the next record goes over the limit. */
  ghost predicate RefusedAt(s: string, head: nat)
    requires head <= |s|
  {
    var lf := IndexFrom(s, '\n', head);
    || (lf < |s| && ReadHeader(s[head..lf]) == BadHeader)
    || OverLimitAt(s, head)
  }

  /** The next header is followed by a whole body, and that by something that begins no line end. */
  predicate StuckAt(s: string, head: nat)
    requires head <= |s|
  {
    var lf := IndexFrom(s, '\n', head);
    && lf < |s| && ReadHeader(s[head..lf]).BodyLength?
    && var end := lf + 1 + ReadHeader(s[head..lf]).len;
       end < |s| && LineEnd(s, end) == 0 && s[end..] != "\r"
  }

  // ------------------------------------------------------------ reading the records that are there

  lemma {:induction false} ParseBehind(s: string, head: nat, lines: seq<Line>)
    requires ValidLines(lines) && At(s, head, LinesText(lines))
    requires lines != [] ==> head + |LinesText(lines)| <= MAX_PACKET_SIZE
    ensures head + |LinesText(lines)| <= |s|
    ensures ParseFrom(s, head) == ParseFrom(s, head + |LinesText(lines)|).After(Bodies(lines))
    decreases |lines|
  {
    hide ParseFrom, Line.Text, Line.Valid, At;
    AtBounds(s, head, LinesText(lines));
    if lines == [] {
      AfterNone(ParseFrom(s, head));
    } else {
      var l, more := lines[0], lines[1..];
      assert lines == [l] + more;
      AtParts(s, head, l.Text(), LinesText(more));
      ParseLine(s, head, l);
      ParseBehind(s, head + |l.Text()|, more);
      AfterBoth(ParseFrom(s, head + |LinesText(lines)|), Bodies(more), l.body);
    }
  }

  lemma AfterNone(o: Outcome)
    ensures o.After([]) == o
  {
    if o.Packet? {
      assert [] + o.records == o.records;
    }
  }

  lemma AfterBoth(o: Outcome, more: seq<string>, first: string)
    ensures o.After(more).After([first]) == o.After([first] + more)
  {
    if o.Packet? {
      assert [first] + (more + o.records) == [first] + more + o.records;
    }
  }

  lemma ParseBegun(s: string, blanks: string, lines: seq<Line>)
    requires Begins(s, blanks, lines)
    ensures var head := |blanks + LinesText(lines)|;
            head <= |s| && Parse(s) == ParseFrom(s, head).After(Bodies(lines))
  {
    hide ParseFrom, LinesText, Line.Valid;
    var text := LinesText(lines);
    assert At(s, 0, blanks + text);
    AtParts(s, 0, blanks, text);
    if lines == [] {
      EmptyText();
      SkipAll(s, blanks);
    } else {
      FirstDigit(lines);
      AtIndex(s, |blanks|, text, 0);
      SkipTo(s, blanks);
    }
    ParseBehind(s, |blanks|, lines);
  }

  lemma EmptyText()
    ensures LinesText([]) == ""
  {
  }

  lemma SkipAll(s: string, blanks: string)
    requires Blanks(blanks) && At(s, 0, blanks) && (|blanks| < |s| ==> !IsBlank(s[|blanks|]))
    ensures SkipBlanks(s, 0) == |blanks|
  {
    AtBounds(s, 0, blanks);
    forall i | 0 <= i < |blanks|
      ensures IsBlank(s[i])
    {
      AtIndex(s, 0, blanks, i);
    }
  }

  /** A record that has arrived, its line end included. */
  predicate RecordAt(s: string, head: nat)
    requires head <= |s|
  {
    var lf := IndexFrom(s, '\n', head);
    && lf < |s| && ReadHeader(s[head..lf]).BodyLength?
    && var end := lf + 1 + ReadHeader(s[head..lf]).len;
       end <= |s| && LineEnd(s, end) > 0
  }

  lemma LineOfRecord(s: string, head: nat) returns (l: Line)
    requires head <= |s| && RecordAt(s, head)
    ensures l.Valid() && At(s, head, l.Text()) && l.Text() != ""
    ensures var lf := IndexFrom(s, '\n', head);
            var end := lf + 1 + ReadHeader(s[head..lf]).len;
            head + |l.Text()| == end + LineEnd(s, end)
  {
    hide ReadHeader, LineEnd, IndexFrom, Line.Text, Line.Valid, IsLineEnd;
    var lf := IndexFrom(s, '\n', head);
    var h := ReadHeader(s[head..lf]);
    var end := lf + 1 + h.len;
    var next := end + LineEnd(s, end);
    l := Line(s[head..lf], s[lf + 1..end], s[end..next]);
    TextAt(s, head, lf, end, next);
    LineEndText(s, end);
    LineOfHeader(s[head..lf], s[lf + 1..end], s[end..next]);
  }

  /** All records that have arrived within the limit, from `head` on. */
  lemma {:induction false} LinesThere(s: string, head: nat) returns (lines: seq<Line>)
    requires head <= |s|
    ensures ValidLines(lines) && At(s, head, LinesText(lines))
    ensures lines != [] ==> head + |LinesText(lines)| <= MAX_PACKET_SIZE
    ensures var next := head + |LinesText(lines)|;
            next <= |s| &&
            (RecordAt(s, next) ==> OverLimitAt(s, next))
    decreases |s| - head
  {
    hide RecordAt, Line.Text, Line.Valid, At;
    lines := [];
    EmptyText();
    AtNothing(s, head);
    if RecordAt(s, head) {
      var l := LineOfRecord(s, head);
      if head + |l.Text()| <= MAX_PACKET_SIZE {
        AtBounds(s, head, l.Text());
        var more := LinesThere(s, head + |l.Text()|);
        lines := [l] + more;
        assert lines[1..] == more;
        AtParts(s, head, l.Text(), LinesText(more));
      }
    }
  }

  lemma AtNothing(s: string, i: nat)
    requires i <= |s|
    ensures At(s, i, "")
  {
  }

  /** Every text begins in this way, up to a place where no record within the limit is complete. */
  lemma BeginsSomehow(s: string) returns (blanks: string, lines: seq<Line>)
    ensures Begins(s, blanks, lines)
    ensures var head := |blanks + LinesText(lines)|;
            head <= |s| &&
            (RecordAt(s, head) ==> OverLimitAt(s, head))
  {
    hide RecordAt, LinesText, Line.Text, Line.Valid;
    var k := SkipBlanks(s, 0);
    blanks := s[..k];
    lines := LinesThere(s, k);
    EmptyText();
    AtParts(s, 0, blanks, LinesText(lines));
    assert At(s, 0, blanks + LinesText(lines));
  }

  // ------------------------------------------------------------ refusal

  lemma RefusedIsError(s: string, head: nat)
    requires head <= |s| && RefusedAt(s, head)
    ensures ParseFrom(s, head) == Error
  {
    var lf := IndexFrom(s, '\n', head);
    if !(lf < |s| && ReadHeader(s[head..lf]) == BadHeader) {
      var l: Line :| l.Valid() && At(s, head, l.Text()) && head + |l.Text()| > MAX_PACKET_SIZE;
      hide ParseFrom, Line.Text, Line.Valid;
      ParseLine(s, head, l);
    }
  }

  lemma ErrorIsRefused(s: string, head: nat)
    requires head <= |s| && ParseFrom(s, head) == Error
    requires RecordAt(s, head) ==> OverLimitAt(s, head)
    ensures RefusedAt(s, head)
  {
    hide ReadHeader, LineEnd, IndexFrom, Line.Text, Line.Valid, At;
  }

  /**
   recv fails exactly when, behind blank lines and whole records within the limit, the next line is
   no header or the next record goes over the limit.
   */
  lemma ErrorIff(s: string)
    ensures Parse(s) == Error <==>
            exists blanks, lines :: Begins(s, blanks, lines) && RefusedAt(s, |blanks + LinesText(lines)|)
  {
    hide ParseFrom, Begins, RefusedAt, RecordAt, LinesText, Parse;
    forall blanks, lines | Begins(s, blanks, lines)
      ensures |blanks + LinesText(lines)| <= |s|
      ensures RefusedAt(s, |blanks + LinesText(lines)|) ==> Parse(s) == Error
    {
      ParseBegun(s, blanks, lines);
      if RefusedAt(s, |blanks + LinesText(lines)|) {
        RefusedIsError(s, |blanks + LinesText(lines)|);
      }
    }
    if Parse(s) == Error {
      var blanks, lines := BeginsSomehow(s);
      ParseBegun(s, blanks, lines);
      ErrorIsRefused(s, |blanks + LinesText(lines)|);
    }
  }

  // ------------------------------------------------------------ waiting for ever

  lemma BeginsLonger(s: string, t: string, blanks: string, lines: seq<Line>)
    requires Begins(s, blanks, lines)
    requires lines != [] || |blanks| < |s| || (t != "" && !IsBlank(t[0]))
    ensures Begins(s + t, blanks, lines)
  {
    hide LinesText, Line.Valid;
    EmptyText();
  }

  lemma StuckStays(s: string, t: string, head: nat)
    requires head <= |s| && StuckAt(s, head)
    ensures StuckAt(s + t, head) && ParseFrom(s + t, head) == NotReady
  {
    hide ReadHeader;
    var lf := IndexFrom(s, '\n', head);
    IndexExtends(s, t, '\n', head);
    assert (s + t)[head..lf] == s[head..lf];
    var end := lf + 1 + ReadHeader(s[head..lf]).len;
    assert (s + t)[end] == s[end];
    if end + 1 == |s| {
      assert s[end..] == [s[end]];
    } else {
      assert (s + t)[end + 1] == s[end + 1];
      assert |(s + t)[end..]| > 1;
    }
  }

  /** The bytes that complete the record begun at `head`, and an empty line. */
  function Completion(s: string, head: nat): (t: string)
    requires head <= |s|
  {
    var lf := IndexFrom(s, '\n', head);
    if lf < |s| then
      match ReadHeader(s[head..lf])
      case BodyLength(len) =>
        var end := lf + 1 + len;
        (if end > |s| then seq(end - |s|, _ => 'x') else "") + "\n\n"
      case _ => ""
    else
      match ReadHeader(s[head..])
      case BodyLength(len) => "\n" + seq(len, _ => 'x') + "\n\n"
      case _ => "\n"
  }

  /** A header line, and behind a body its line end and an empty line. */
  lemma DecidedBy(u: string, head: nat, lf: nat)
    requires head <= lf < |u| && IndexFrom(u, '\n', head) == lf
    requires var h := ReadHeader(u[head..lf]);
             h.BodyLength? ==> EndsAt(u, lf + 1 + h.len)
    ensures ParseFrom(u, head) != NotReady
  {
    hide ReadHeader, LineEnd, IndexFrom, ParseFrom;
    var h := ReadHeader(u[head..lf]);
    if !h.BodyLength? {
      NoBodyDecides(u, head);
    } else {
      var end := lf + 1 + h.len;
      ParseStep(u, head, h.len);
      if end + LineEnd(u, end) <= MAX_PACKET_SIZE {
        EmptyLine(u, end + LineEnd(u, end));
      }
    }
  }

  predicate EndsAt(u: string, end: nat) {
    && end < |u| && LineEnd(u, end) > 0
    && end + LineEnd(u, end) < |u| && u[end + LineEnd(u, end)] == '\n'
  }

  lemma NoBodyDecides(s: string, head: nat)
    requires head <= |s| && IndexFrom(s, '\n', head) < |s|
    requires !ReadHeader(s[head..IndexFrom(s, '\n', head)]).BodyLength?
    ensures ParseFrom(s, head) != NotReady
  {
    hide ReadHeader;
  }

  lemma EmptyLine(s: string, head: nat)
    requires head < |s| && s[head] == '\n'
    ensures ParseFrom(s, head) == Packet([], head + 1)
  {
    assert At(s, head, "\n");
    ParseEnd(s, head, "\n");
  }

  /** A text that is not stuck and holds no whole record there can still be completed or refused. */
  lemma NotStuckEnds(s: string, head: nat)
    requires head <= |s| && !StuckAt(s, head) && !RecordAt(s, head)
    ensures ParseFrom(s + Completion(s, head), head) != NotReady
  {
    hide ReadHeader, ParseFrom;
    var t, lf := Completion(s, head), IndexFrom(s, '\n', head);
    var u := s + t;
    if lf < |s| {
      IndexExtends(s, t, '\n', head);
      assert u[head..lf] == s[head..lf];
      var h := ReadHeader(s[head..lf]);
      if h.BodyLength? {
        var end := lf + 1 + h.len;
        if end < |s| {
          assert s[end..] == "\r";
          assert u[end] == s[end..][0] && u[end + 1] == '\n' && u[end + 2] == '\n';
        } else {
          assert u[end] == '\n' && u[end + 1] == '\n';
        }
      }
      DecidedBy(u, head, lf);
    } else {
      assert u[head..|s|] == s[head..] && u[|s|] == '\n';
      NewLineFeed(s, t, head);
      var h := ReadHeader(s[head..]);
      if h.BodyLength? {
        var end := |s| + 1 + h.len;
        assert u[end] == '\n' && u[end + 1] == '\n';
      }
      DecidedBy(u, head, |s|);
    }
  }

  lemma NewLineFeed(s: string, t: string, head: nat)
    requires head <= |s| && IndexFrom(s, '\n', head) == |s| && t != "" && t[0] == '\n'
    ensures IndexFrom(s + t, '\n', head) == |s|
  {
    assert forall j :: head <= j < |s| ==> (s + t)[j] == s[j] != '\n';
    assert (s + t)[|s|] == '\n';
  }

  lemma OverLimitIsError(s: string, head: nat)
    requires head <= |s|
    requires OverLimitAt(s, head)
    ensures ParseFrom(s, head) == Error
  {
    hide ParseFrom, Line.Text, Line.Valid;
    var l: Line :| l.Valid() && At(s, head, l.Text()) && head + |l.Text()| > MAX_PACKET_SIZE;
    ParseLine(s, head, l);
  }

  lemma OnlyBlanks(s: string, blanks: string)
    requires Begins(s, blanks, []) && |blanks| == |s|
    ensures Parse(s + "x\n") == Error
  {
    var u := s + "x\n";
    EmptyText();
    BeginsLonger(s, "x\n", blanks, []);
    ParseBegun(u, blanks, []);
    assert u[|s|] == 'x' && u[|s| + 1] == '\n' && IndexFrom(u, '\n', |s|) == |s| + 1;
    assert u[|s|..|s| + 1] == "x";
    assert blanks + LinesText([]) == blanks;
  }

  /**
   recv asks for more, whatever else arrives, exactly when, behind blank lines and whole records
   within the limit, a body is followed by something that begins no line end.
   */
  lemma WaitsForEverIff(s: string)
    ensures (forall t :: Parse(s + t) == NotReady) <==>
            exists blanks, lines ::
              Begins(s, blanks, lines) && StuckAt(s, |blanks + LinesText(lines)|)
  {
    hide ParseFrom, Begins, StuckAt, RecordAt, LinesText, Parse, Completion;
    forall blanks, lines | Begins(s, blanks, lines)
      ensures |blanks + LinesText(lines)| <= |s|
    {
      ParseBegun(s, blanks, lines);
    }
    if blanks, lines :| Begins(s, blanks, lines) && StuckAt(s, |blanks + LinesText(lines)|) {
      forall t
        ensures Parse(s + t) == NotReady
      {
        StuckWaits(s, t, blanks, lines);
      }
    }
    var blanks, lines := BeginsSomehow(s);
    if !StuckAt(s, |blanks + LinesText(lines)|) {
      var _ := EndsSomehow(s, blanks, lines);
    }
  }

  lemma StuckWaits(s: string, t: string, blanks: string, lines: seq<Line>)
    requires Begins(s, blanks, lines)
    requires var head := |blanks + LinesText(lines)|; head <= |s| && StuckAt(s, head)
    ensures Parse(s + t) == NotReady
  {
    hide ParseFrom, LinesText, Parse, Line.Valid;
    var head := |blanks + LinesText(lines)|;
    EmptyText();
    BeginsLonger(s, t, blanks, lines);
    ParseBegun(s + t, blanks, lines);
    StuckStays(s, t, head);
  }

  lemma EndsSomehow(s: string, blanks: string, lines: seq<Line>) returns (t: string)
    requires Begins(s, blanks, lines)
    requires var head := |blanks + LinesText(lines)|;
             head <= |s| && !StuckAt(s, head) &&
             (RecordAt(s, head) ==> OverLimitAt(s, head))
    ensures Parse(s + t) != NotReady
  {
    hide ParseFrom, LinesText, Parse, Line.Valid, Line.Text, RecordAt, StuckAt, Completion;
    var head := |blanks + LinesText(lines)|;
    EmptyText();
    if lines == [] && |blanks| == |s| {
      t := "x\n";
      OnlyBlanks(s, blanks);
    } else if RecordAt(s, head) {
      t := "";
      assert s + "" == s;
      ParseBegun(s, blanks, lines);
      OverLimitIsError(s, head);
    } else {
      t := Completion(s, head);
      BeginsLonger(s, t, blanks, lines);
      ParseBegun(s + t, blanks, lines);
      NotStuckEnds(s, head);
    }
  }
}
