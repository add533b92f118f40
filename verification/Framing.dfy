/**
 The native packet format: what Link::send writes and what Link::recv makes of a byte stream.
 `Parse` follows recv step by step; the grammar of lenient packet texts below is its independent
 reading.
 */
module Framing {
  import opened Text
  import opened Buffers

  const MAX_PACKET_SIZE := 32 * 1024 * 1024

  /** recv's three outcomes: an empty list, NULL, or the records of a packet of `consumed` bytes. */
  datatype Outcome = NotReady | Error | Packet(records: seq<string>, consumed: nat) {
    function After(first: seq<string>): Outcome {
      if Packet? then Packet(first + records, consumed) else this
    }
  }

  // ----------------------------------------------------------------- sending

  function EncodeRecords(p: seq<string>): string {
    if p == [] then "" else Record(p[0]) + EncodeRecords(p[1..])
  }

  function Encode(p: seq<string>): string {
    EncodeRecords(p) + "\n"
  }

  /** Every record has a length that fits in the int that send prints and recv reads. */
  predicate Representable(p: seq<string>) {
    forall i :: 0 <= i < |p| ==> |p[i]| < INT32_LIMIT
  }

  predicate Sendable(p: seq<string>) {
    p != [] && Representable(p) && |EncodeRecords(p)| <= MAX_PACKET_SIZE
  }

  /** The output buffer after send: records one by one, then the closing LF. */
  function AppendRecords(w: Window, p: seq<string>): (w': Window)
    requires w.Valid() && Representable(p)
    ensures w'.Valid()
    decreases |p|
  {
    if p == [] then w else AppendRecords(w.AppendRecord(p[0]), p[1..])
  }

  lemma {:induction false} AppendRecordsEncodes(w: Window, p: seq<string>)
    requires w.Valid() && Representable(p)
    ensures AppendRecords(w, p).off == w.off
    ensures AppendRecords(w, p).contents == w.contents + EncodeRecords(p)
    decreases |p|
  {
    hide Record, Window.MakeRoom, Window.AppendRecord;
    if p == [] {
      assert w.contents + "" == w.contents;
    } else {
      AppendRecordsEncodes(w.AppendRecord(p[0]), p[1..]);
      assert w.contents + EncodeRecords(p) == w.contents + Record(p[0]) + EncodeRecords(p[1..]);
    }
  }

  function SendWindow(w: Window, p: seq<string>): (w': Window)
    requires w.Valid() && Representable(p)
    ensures w'.Valid()
  {
    AppendRecords(w, p).Append("\n")
  }

  /** send appends exactly the packet's text behind what is already there. */
  lemma SendEncodes(w: Window, p: seq<string>)
    requires w.Valid() && Representable(p)
    ensures SendWindow(w, p).off == w.off
    ensures SendWindow(w, p).contents == w.contents + Encode(p)
  {
    hide AppendRecords, EncodeRecords;
    AppendRecordsEncodes(w, p);
    assert w.contents + EncodeRecords(p) + "\n" == w.contents + Encode(p);
  }

  // --------------------------------------------------------------- receiving

  predicate IsBlank(c: char) {
    c == '\n' || c == '\r'
  }

  function SkipBlanks(s: string, i: nat): (k: nat)
    requires i <= |s|
    ensures i <= k <= |s|
    ensures forall j :: i <= j < k ==> IsBlank(s[j])
    ensures k < |s| ==> !IsBlank(s[k])
    decreases |s| - i
  {
    if i == |s| || !IsBlank(s[i]) then i else SkipBlanks(s, i + 1)
  }

  /** The length of the line end at position `i`, 0 when there is none (yet). */
  function LineEnd(s: string, i: nat): (n: nat)
    requires i <= |s|
    ensures i + n <= |s|
  {
    if |s| - i > 0 && s[i] == '\n' then 1
    else if |s| - i > 1 && s[i] == '\r' && s[i + 1] == '\n' then 2
    else 0
  }

  datatype Header = BadHeader | PacketEnd | BodyLength(len: nat)

  /** One header line of recv's loop, given without its LF. */
  function ReadHeader(line: string): Header {
    if line == "" || line == "\r" then PacketEnd
    else if !IsDigit(line[0]) then BadHeader
    else if |line| + 1 > 19 then BadHeader       // char head_str[20]
    else if Atoi(line) < 0 then BadHeader
    else BodyLength(Atoi(line))
  }

  /** recv's loop from `head` on; `parsed` always equals `head`. */
  function ParseFrom(s: string, head: nat): Outcome
    requires head <= |s|
    decreases |s| - head
  {
    var lf := IndexFrom(s, '\n', head);
    if lf == |s| then NotReady
    else
      match ReadHeader(s[head..lf])
      case PacketEnd => Packet([], lf + 1)
      case BadHeader => Error
      case BodyLength(len) =>
        var end := lf + 1 + len;
        if end > |s| || LineEnd(s, end) == 0 then NotReady
        else
          var next := end + LineEnd(s, end);
          if next > MAX_PACKET_SIZE then Error
          else ParseFrom(s, next).After([s[lf + 1..end]])
  }

  /** A first byte '*' belongs to a Redis request, which another parser takes. */
  predicate Starred(s: string) {
    s != "" && s[0] == '*'
  }

  function Parse(s: string): Outcome {
    ParseFrom(s, SkipBlanks(s, 0))
  }

  /** The bytes `all` start with a packet of these records, and `rest` is what stands behind it. */
  predicate Delivers(all: string, records: seq<string>, rest: string) {
    && Parse(all).Packet? && Parse(all).consumed <= |all|
    && records == Parse(all).records && rest == all[Parse(all).consumed..]
  }

  /** The input buffer after recv on the native path. */
  function RecvWindow(w: Window): (w': Window)
    requires w.Valid()
    ensures w'.Valid()
  {
    if w.contents == "" then w
    else
      ParseBounds(w.contents);
      match Parse(w.contents)
      case Error => w
      case NotReady => w.Reclaim()
      case Packet(_, n) => w.Decr(n)
  }

  const ZERO_BUFFER_SIZE := 8

  /** Buffers are born with 8 bytes and grow at the first read or write. */
  function Awake(w: Window): (w': Window)
    requires w.Valid()
    ensures w'.Valid() && w'.contents == w.contents && w'.off == w.off
  {
    if w.total == ZERO_BUFFER_SIZE then w.Grow() else w
  }

  /** The input buffer as Link::read offers it to the system call. */
  function ReadableWindow(w: Window): (w': Window)
    requires w.Valid()
    ensures w'.Valid() && w'.contents == w.contents && w'.total >= w.total
  {
    Awake(w).Nice()
  }

  /** The output buffer after Link::write has handed `n` bytes to the system. */
  function WrittenWindow(w: Window, n: nat): (w': Window)
    requires w.Valid() && n <= |w.contents|
    ensures w'.Valid() && w'.contents == w.contents[n..]
  {
    Awake(w).Decr(n).Nice()
  }

  /** After recv has asked for more data, on either path, read always finds room for some. */
  lemma NoStall(w: Window)
    requires w.Valid() && w.total >= ZERO_BUFFER_SIZE
    ensures ReadableWindow(w.Reclaim()).Space() > 0
    ensures w.contents == "" ==> ReadableWindow(w).Space() > 0
    ensures w.contents == "" || Parse(w.contents) == NotReady ==> ReadableWindow(RecvWindow(w)).Space() > 0
    ensures w.contents == "" || Parse(w.contents) == NotReady ==> RecvWindow(w).contents == w.contents
  {
    hide Parse;
  }

  // ------------------------------------------- bounds and unambiguous outcome

  lemma {:induction false} ParseFromBounds(s: string, head: nat)
    requires head <= |s|
    ensures var o := ParseFrom(s, head);
            o.Packet? ==>
              && head < o.consumed <= |s|
              && (o.records == [] ==> IsBlank(s[head]) && o.consumed <= head + 2)
              && (o.records != [] ==> o.consumed <= MAX_PACKET_SIZE + 2)
    decreases |s| - head
  {
    hide Atoi, IndexFrom, LineEnd;
    var lf := IndexFrom(s, '\n', head);
    if lf < |s| && ReadHeader(s[head..lf]).BodyLength? {
      var end := lf + 1 + ReadHeader(s[head..lf]).len;
      if end <= |s| {
        ParseFromBounds(s, end + LineEnd(s, end));
      }
    }
  }

  /**
   A parsed packet is never empty, so an empty list always means "not ready"; it takes bytes
   off the input, no more than there are, and no more than the size limit plus its last line end.
   */
  lemma ParseBounds(s: string)
    ensures var o := Parse(s);
            o.Packet? ==> o.records != [] && 0 < o.consumed <= |s| && o.consumed <= MAX_PACKET_SIZE + 2
  {
    ParseFromBounds(s, SkipBlanks(s, 0));
  }

  // ------------------------------------------------ fragmentation independence

  lemma IndexExtends(s: string, t: string, c: char, i: nat)
    requires i <= |s| && IndexFrom(s, c, i) < |s|
    ensures IndexFrom(s + t, c, i) == IndexFrom(s, c, i)
  {
    var k, k' := IndexFrom(s, c, i), IndexFrom(s + t, c, i);
    assert (s + t)[k] == c;
    assert forall j :: i <= j < k ==> (s + t)[j] == s[j];
  }

  lemma LineEndExtends(s: string, t: string, i: nat)
    requires i <= |s| && LineEnd(s, i) > 0
    ensures LineEnd(s + t, i) == LineEnd(s, i)
  {
    assert (s + t)[i] == s[i];
    assert i + 1 < |s| ==> (s + t)[i + 1] == s[i + 1];
  }

  lemma {:induction false} ParseFromStable(s: string, t: string, head: nat)
    requires head <= |s| && ParseFrom(s, head) != NotReady
    ensures ParseFrom(s + t, head) == ParseFrom(s, head)
    decreases |s| - head
  {
    hide Atoi, ReadHeader, LineEnd, IndexFrom;
    var lf := IndexFrom(s, '\n', head);
    IndexExtends(s, t, '\n', head);
    assert (s + t)[head..lf] == s[head..lf];
    var h := ReadHeader(s[head..lf]);
    if h.BodyLength? {
      var end := lf + 1 + h.len;
      LineEndExtends(s, t, end);
      assert (s + t)[lf + 1..end] == s[lf + 1..end];
      var next := end + LineEnd(s, end);
      if next <= MAX_PACKET_SIZE {
        ParseFromStable(s, t, next);
      }
    }
  }

  lemma SkipBlanksExtends(s: string, t: string)
    requires SkipBlanks(s, 0) < |s|
    ensures SkipBlanks(s + t, 0) == SkipBlanks(s, 0)
  {
    var k, k' := SkipBlanks(s, 0), SkipBlanks(s + t, 0);
    assert forall j :: 0 <= j <= k ==> (s + t)[j] == s[j];
  }

  /** Once recv has decided, more bytes never change what it decided - for any bytes at all. */
  lemma ParseStable(s: string, t: string)
    requires Parse(s) != NotReady
    ensures Parse(s + t) == Parse(s)
  {
    hide Atoi, ReadHeader, LineEnd;
    SkipBlanksExtends(s, t);
    ParseFromStable(s, t, SkipBlanks(s, 0));
  }

  // -------------------------------------------------- the grammar of a packet

  /** A record as recv accepts it: any header that atoi reads as the body's length, either line end. */
  datatype Line = Line(header: string, body: string, eol: string) {
    predicate Valid() {
      && header != "" && IsDigit(header[0]) && |header| <= 18 && '\n' !in header
      && Atoi(header) == |body|
      && IsLineEnd(eol)
    }

    function Text(): string {
      header + "\n" + body + eol
    }
  }

  predicate IsLineEnd(eol: string) {
    eol == "\n" || eol == "\r\n"
  }

  predicate ValidLines(lines: seq<Line>) {
    forall i :: 0 <= i < |lines| ==> lines[i].Valid()
  }

  function LinesText(lines: seq<Line>): string {
    if lines == [] then "" else lines[0].Text() + LinesText(lines[1..])
  }

  function Bodies(lines: seq<Line>): (bodies: seq<string>)
    ensures |bodies| == |lines|
  {
    if lines == [] then [] else [lines[0].body] + Bodies(lines[1..])
  }

  lemma LineEndAt(s: string, i: nat, eol: string)
    requires IsLineEnd(eol) && At(s, i, eol)
    ensures LineEnd(s, i) == |eol|
  {
    AtIndex(s, i, eol, 0);
    AtIndex(s, i, eol, |eol| - 1);
  }

  /** A line without LF, then LF, then something: that is where memchr stops. */
  lemma HeaderAt(s: string, i: nat, header: string)
    requires '\n' !in header && At(s, i, header) && At(s, i + |header|, "\n")
    ensures IndexFrom(s, '\n', i) == i + |header|
    ensures s[i..i + |header|] == header
  {
    AtIndex(s, i + |header|, "\n", 0);
    forall j | i <= j < i + |header|
      ensures s[j] != '\n'
    {
      AtIndex(s, i, header, j - i);
    }
  }

  lemma LineParts(s: string, head: nat, l: Line)
    requires l.Valid() && At(s, head, l.Text())
    ensures var lf := head + |l.header|;
            var end := lf + 1 + |l.body|;
            && IndexFrom(s, '\n', head) == lf && s[head..lf] == l.header
            && s[lf + 1..end] == l.body
            && LineEnd(s, end) == |l.eol| > 0
            && end + |l.eol| == head + |l.Text()| <= |s|
  {
    hide Atoi, IndexFrom, LineEnd;
    AtParts(s, head, l.header + "\n" + l.body, l.eol);
    AtParts(s, head, l.header + "\n", l.body);
    AtParts(s, head, l.header, "\n");
    HeaderAt(s, head, l.header);
    LineEndAt(s, head + |l.header| + 1 + |l.body|, l.eol);
  }

  /** One pass of the loop over a header line that gives a body length. */
  lemma ParseStep(s: string, head: nat, len: nat)
    requires head <= |s| && IndexFrom(s, '\n', head) < |s|
    requires ReadHeader(s[head..IndexFrom(s, '\n', head)]) == BodyLength(len)
    ensures var lf := IndexFrom(s, '\n', head);
            var end := lf + 1 + len;
            ParseFrom(s, head) ==
            if end > |s| || LineEnd(s, end) == 0 then NotReady
            else if end + LineEnd(s, end) > MAX_PACKET_SIZE then Error
            else ParseFrom(s, end + LineEnd(s, end)).After([s[lf + 1..end]])
  {
    hide ReadHeader, LineEnd, IndexFrom;
  }

  lemma HeaderOf(l: Line)
    requires l.Valid()
    ensures ReadHeader(l.header) == BodyLength(|l.body|)
  {
    hide Atoi;
  }

  lemma ParseLine(s: string, head: nat, l: Line)
    requires l.Valid() && At(s, head, l.Text())
    ensures ParseFrom(s, head)
         == var next := head + |l.Text()|;
            if next > MAX_PACKET_SIZE then Error else ParseFrom(s, next).After([l.body])
  {
    hide ReadHeader, LineEnd, IndexFrom, ParseFrom, Line.Text, Line.Valid, At;
    LineParts(s, head, l);
    HeaderOf(l);
    ParseStep(s, head, |l.body|);
  }

  lemma ParseEnd(s: string, head: nat, eol: string)
    requires IsLineEnd(eol) && At(s, head, eol)
    ensures ParseFrom(s, head) == Packet([], head + |eol|)
  {
    hide Atoi;
    var line := eol[..|eol| - 1];
    assert eol == line + "\n" && (line == "" || line == "\r");
    AtParts(s, head, line, "\n");
    HeaderAt(s, head, line);
  }

  lemma ConsAt(s: string, head: nat, l: Line, more: seq<Line>, eol: string)
    ensures At(s, head, LinesText([l] + more) + eol)
       <==> At(s, head, l.Text()) && At(s, head + |l.Text()|, LinesText(more) + eol)
    ensures |LinesText([l] + more)| == |l.Text()| + |LinesText(more)|
  {
    hide Line.Text;
    assert ([l] + more)[1..] == more;
    assert LinesText([l] + more) + eol == l.Text() + (LinesText(more) + eol);
    AtParts(s, head, l.Text(), LinesText(more) + eol);
  }

  lemma {:induction false} ParseLines(s: string, head: nat, lines: seq<Line>, eol: string)
    requires ValidLines(lines) && IsLineEnd(eol) && At(s, head, LinesText(lines) + eol)
    requires lines == [] ==> head <= MAX_PACKET_SIZE
    ensures ParseFrom(s, head)
         == var end := head + |LinesText(lines)|;
            if end > MAX_PACKET_SIZE then Error else Packet(Bodies(lines), end + |eol|)
    decreases |lines|
  {
    hide ParseFrom, Line.Text, Line.Valid, At;
    if lines == [] {
      assert LinesText(lines) + eol == eol;
      ParseEnd(s, head, eol);
    } else {
      var l, more := lines[0], lines[1..];
      assert lines == [l] + more;
      ConsAt(s, head, l, more, eol);
      ParseLine(s, head, l);
      if head + |l.Text()| <= MAX_PACKET_SIZE {
        assert ValidLines(more);
        ParseLines(s, head + |l.Text()|, more, eol);
      }
    }
  }

  predicate Blanks(s: string) {
    forall i :: 0 <= i < |s| ==> IsBlank(s[i])
  }

  /** `s` starts with a packet text of the lenient grammar: blank lines, records, an empty line. */
  predicate Spells(s: string, blanks: string, lines: seq<Line>, eol: string) {
    && Blanks(blanks) && lines != [] && ValidLines(lines) && IsLineEnd(eol)
    && blanks + LinesText(lines) + eol <= s
  }

  /**
   On any text of the grammar, whatever follows it, recv returns the bodies when everything
   before the closing empty line fits the limit, and fails otherwise.
   */
  lemma ParseSpelled(s: string, blanks: string, lines: seq<Line>, eol: string)
    requires Spells(s, blanks, lines, eol)
    ensures Parse(s)
         == var size := |blanks| + |LinesText(lines)|;
            if size > MAX_PACKET_SIZE then Error else Packet(Bodies(lines), size + |eol|)
  {
    hide ParseFrom, LinesText, Line.Valid;
    var text := LinesText(lines);
    assert At(s, 0, blanks + text + eol);
    AtParts(s, 0, blanks + text, eol);
    AtParts(s, 0, blanks, text);
    AtParts(s, |blanks|, text, eol);
    FirstDigit(lines);
    AtIndex(s, |blanks|, text, 0);
    SkipTo(s, blanks);
    ParseLines(s, |blanks|, lines, eol);
  }

  lemma FirstDigit(lines: seq<Line>)
    requires lines != [] && ValidLines(lines)
    ensures LinesText(lines) != "" && IsDigit(LinesText(lines)[0])
  {
    hide Atoi;
    assert lines[0].Valid();
    assert LinesText(lines)[0] == lines[0].header[0];
  }

  lemma SkipTo(s: string, blanks: string)
    requires Blanks(blanks) && At(s, 0, blanks) && |blanks| < |s| && !IsBlank(s[|blanks|])
    ensures SkipBlanks(s, 0) == |blanks|
  {
    forall i | 0 <= i < |blanks|
      ensures IsBlank(s[i])
    {
      AtIndex(s, 0, blanks, i);
    }
  }

  lemma TextAt(s: string, head: nat, lf: nat, end: nat, next: nat)
    requires head <= lf < end <= next <= |s| && s[lf] == '\n'
    ensures Line(s[head..lf], s[lf + 1..end], s[end..next]).Text() == s[head..next]
  {
    assert s[head..next] == s[head..lf] + [s[lf]] + s[lf + 1..end] + s[end..next];
  }

  lemma LineOfHeader(header: string, body: string, eol: string)
    requires ReadHeader(header) == BodyLength(|body|) && '\n' !in header && IsLineEnd(eol)
    ensures Line(header, body, eol).Valid()
  {
    hide Atoi;
  }

  lemma LineEndText(s: string, i: nat)
    requires i <= |s| && LineEnd(s, i) > 0
    ensures IsLineEnd(s[i..i + LineEnd(s, i)])
  {
  }

  lemma LineAt(s: string, head: nat) returns (l: Line)
    requires head <= |s| && ParseFrom(s, head).Packet?
    requires !ReadHeader(s[head..IndexFrom(s, '\n', head)]).PacketEnd?
    ensures l.Valid() && At(s, head, l.Text()) && head < head + |l.Text()| <= MAX_PACKET_SIZE
    ensures ParseFrom(s, head) == ParseFrom(s, head + |l.Text()|).After([l.body])
  {
    hide ReadHeader, LineEnd, IndexFrom, Line.Text, Line.Valid, IsLineEnd;
    var lf := IndexFrom(s, '\n', head);
    var h := ReadHeader(s[head..lf]);
    assert lf < |s| && h.BodyLength?;
    ParseStep(s, head, h.len);
    hide ParseFrom;
    var end := lf + 1 + h.len;
    var next := end + LineEnd(s, end);
    l := Line(s[head..lf], s[lf + 1..end], s[end..next]);
    TextAt(s, head, lf, end, next);
    LineEndText(s, end);
    LineOfHeader(s[head..lf], s[lf + 1..end], s[end..next]);
  }

  lemma EndAt(s: string, head: nat) returns (eol: string)
    requires head <= |s| && ParseFrom(s, head).Packet?
    requires ReadHeader(s[head..IndexFrom(s, '\n', head)]).PacketEnd?
    ensures IsLineEnd(eol) && At(s, head, eol)
    ensures ParseFrom(s, head) == Packet([], head + |eol|)
  {
    hide Atoi;
    var lf := IndexFrom(s, '\n', head);
    eol := s[head..lf + 1];
    assert eol == s[head..lf] + "\n";
  }

  lemma {:induction false} LinesOfPacket(s: string, head: nat) returns (lines: seq<Line>, eol: string)
    requires head <= |s| && ParseFrom(s, head).Packet?
    ensures ValidLines(lines) && IsLineEnd(eol) && At(s, head, LinesText(lines) + eol)
    ensures Bodies(lines) == ParseFrom(s, head).records
    ensures ParseFrom(s, head).consumed == head + |LinesText(lines)| + |eol|
    ensures lines != [] ==> head + |LinesText(lines)| <= MAX_PACKET_SIZE
    decreases |s| - head
  {
    hide ParseFrom, ReadHeader, Line.Valid, Line.Text, At;
    if ReadHeader(s[head..IndexFrom(s, '\n', head)]).PacketEnd? {
      lines := [];
      eol := EndAt(s, head);
      assert LinesText([]) + eol == eol;
    } else {
      var l := LineAt(s, head);
      AtBounds(s, head, l.Text());
      var more;
      more, eol := LinesOfPacket(s, head + |l.Text()|);
      ConsAt(s, head, l, more, eol);
      lines := [l] + more;
      assert Bodies(lines) == [l.body] + Bodies(more) by {
        assert lines[1..] == more;
      }
    }
  }

  lemma AtBounds(s: string, i: nat, text: string)
    requires At(s, i, text)
    ensures i + |text| <= |s|
  {
  }

  lemma SpelledByPacket(s: string) returns (blanks: string, lines: seq<Line>, eol: string)
    requires Parse(s).Packet?
    ensures Spells(s, blanks, lines, eol)
    ensures Bodies(lines) == Parse(s).records
    ensures Parse(s).consumed == |blanks| + |LinesText(lines)| + |eol|
    ensures |blanks| + |LinesText(lines)| <= MAX_PACKET_SIZE
  {
    hide ParseFrom;
    var k := SkipBlanks(s, 0);
    ParseBounds(s);
    blanks := s[..k];
    lines, eol := LinesOfPacket(s, k);
    assert At(s, 0, blanks + (LinesText(lines) + eol)) by {
      AtParts(s, 0, blanks, LinesText(lines) + eol);
    }
    assert blanks + (LinesText(lines) + eol) == blanks + LinesText(lines) + eol;
  }

  /** recv returns a packet exactly when the input starts with a text of the grammar within the limit. */
  lemma ParseIffSpelled(s: string, rs: seq<string>, n: nat)
    ensures Parse(s) == Packet(rs, n) <==>
            exists blanks, lines, eol ::
              && Spells(s, blanks, lines, eol)
              && Bodies(lines) == rs && n == |blanks| + |LinesText(lines)| + |eol|
              && |blanks| + |LinesText(lines)| <= MAX_PACKET_SIZE
  {
    hide Parse, Spells, LinesText, Bodies;
    if Parse(s) == Packet(rs, n) {
      var blanks, lines, eol := SpelledByPacket(s);
    }
    forall blanks, lines, eol | Spells(s, blanks, lines, eol)
      ensures Parse(s)
           == var size := |blanks| + |LinesText(lines)|;
              if size > MAX_PACKET_SIZE then Error else Packet(Bodies(lines), size + |eol|)
    {
      ParseSpelled(s, blanks, lines, eol);
    }
  }

  // ---------------------------------------------------------------- round trip

  /** How a peer may end the header line and the body line of each record. */
  function SpellRecord(s: string, crHeader: bool, crBody: bool): (l: Line)
    ensures l.body == s
  {
    Line(Dec(|s|) + if crHeader then "\r" else "", s, if crBody then "\r\n" else "\n")
  }

  function SpellRecords(p: seq<string>, crs: seq<(bool, bool)>): (lines: seq<Line>)
    requires |crs| == |p|
    ensures |lines| == |p|
  {
    if p == [] then [] else [SpellRecord(p[0], crs[0].0, crs[0].1)] + SpellRecords(p[1..], crs[1..])
  }

  lemma SpellRecordValid(s: string, crHeader: bool, crBody: bool)
    requires |s| < INT32_LIMIT
    ensures SpellRecord(s, crHeader, crBody).Valid()
  {
    var d, cr := Dec(|s|), if crHeader then "\r" else "";
    Dec32Length(|s|);
    ReadPrinted(d + cr, 0, |s|);
    assert IsDigit(d[0]) && (d + cr)[0] == d[0];
  }

  lemma {:induction false} SpellRecordsValid(p: seq<string>, crs: seq<(bool, bool)>)
    requires |crs| == |p| && Representable(p)
    ensures ValidLines(SpellRecords(p, crs)) && Bodies(SpellRecords(p, crs)) == p
  {
    hide SpellRecord, Line.Valid;
    if p != [] {
      SpellRecordValid(p[0], crs[0].0, crs[0].1);
      SpellRecordsValid(p[1..], crs[1..]);
      assert SpellRecords(p, crs)[1..] == SpellRecords(p[1..], crs[1..]);
    }
  }

  /**
   Any packet, sent with any mix of LF and CRLF line ends after any blank lines and followed by
   anything, is received as it was - unless it is over the limit, and then recv fails.
   */
  lemma RoundTripAnyLineEnds(blanks: string, p: seq<string>, crs: seq<(bool, bool)>, eol: string, rest: string)
    requires Blanks(blanks) && p != [] && Representable(p) && |crs| == |p| && IsLineEnd(eol)
    ensures Parse(blanks + LinesText(SpellRecords(p, crs)) + eol + rest)
         == var size := |blanks| + |LinesText(SpellRecords(p, crs))|;
            if size > MAX_PACKET_SIZE then Error else Packet(p, size + |eol|)
  {
    hide Parse, LinesText;
    SpellRecordsValid(p, crs);
    ParseSpelled(blanks + LinesText(SpellRecords(p, crs)) + eol + rest, blanks, SpellRecords(p, crs), eol);
  }

  lemma {:induction false} EncodedIsSpelled(p: seq<string>, crs: seq<(bool, bool)>)
    requires |crs| == |p| && forall i :: 0 <= i < |p| ==> crs[i] == (false, false)
    ensures LinesText(SpellRecords(p, crs)) == EncodeRecords(p)
  {
    if p != [] {
      EncodedIsSpelled(p[1..], crs[1..]);
      assert Dec(|p[0]|) + "" == Dec(|p[0]|);
    }
  }

  /** What send writes is what recv returns, exactly when the packet fits the limit. */
  lemma RoundTrip(p: seq<string>, rest: string)
    requires p != [] && Representable(p)
    ensures Parse(Encode(p) + rest) == if Sendable(p) then Packet(p, |Encode(p)|) else Error
  {
    hide Parse, LinesText;
    var crs := seq(|p|, _ => (false, false));
    EncodedIsSpelled(p, crs);
    RoundTripAnyLineEnds("", p, crs, "\n", rest);
    assert "" + EncodeRecords(p) == EncodeRecords(p);
  }

  /** An empty packet is a lone LF, which recv skips as a blank line: only the next packet arrives. */
  lemma EmptyPacketIsLost(p: seq<string>)
    requires Sendable(p) && |EncodeRecords(p)| < MAX_PACKET_SIZE
    ensures Parse(Encode([]) + Encode(p)) == Packet(p, |Encode([]) + Encode(p)|)
  {
    hide Parse, LinesText;
    var crs := seq(|p|, _ => (false, false));
    EncodedIsSpelled(p, crs);
    RoundTripAnyLineEnds("\n", p, crs, "\n", "");
    assert Encode([]) + Encode(p) == "\n" + EncodeRecords(p) + "\n" + "";
  }

  /** Before the last byte of a packet has arrived, recv neither fails nor returns anything. */
  lemma PrefixNotReady(p: seq<string>, k: nat)
    requires Sendable(p) && k < |Encode(p)|
    ensures Parse(Encode(p)[..k]) == NotReady
  {
    hide Parse, Encode, EncodeRecords;
    var s, t := Encode(p)[..k], Encode(p)[k..];
    if Parse(s) != NotReady {
      ParseStable(s, t);
      RoundTrip(p, "");
      assert s + t == Encode(p) + "";
      ParseBounds(s);
    }
  }

  lemma EncodeStartsWithDigit(p: seq<string>)
    requires p != []
    ensures Encode(p) != "" && IsDigit(Encode(p)[0])
  {
    var d := Dec(|p[0]|);
    assert IsDigit(d[0]);
    assert Encode(p)[0] == Record(p[0])[0] == d[0];
  }

  /** Whoever receives a sent packet, followed by anything, gets its records and keeps the rest. */
  lemma DeliveredPacket(p: seq<string>, more: string, records: seq<string>, rest: string)
    requires Sendable(p) && Delivers(Encode(p) + more, records, rest)
    ensures records == p && rest == more
  {
    hide Parse, Encode, EncodeRecords;
    RoundTrip(p, more);
    assert (Encode(p) + more)[|Encode(p)|..] == more;
  }
}
