/** str_escape and str_unescape of src/util/strings.h. */
module Escape {
  import opened Text

  predicate IsBytes(s: string) {
    forall i :: 0 <= i < |s| ==> s[i] < 256 as char
  }

  predicate Printable(s: string) {
    forall i :: 0 <= i < |s| ==> ' ' <= s[i] <= '~'
  }

  /** The table "0123456789abcdef". */
  function HexDigit(h: nat): char
    requires h < 16
  {
    if h < 10 then (h + '0' as int) as char else (h - 10 + 'a' as int) as char
  }

  /** A byte above '~' is negative as a C char, so it takes the hexadecimal branch. */
  function EscapeChar(c: char): string
    requires c < 256 as char
  {
    if c == '\r' then "\\r"
    else if c == '\n' then "\\n"
    else if c == '\t' then "\\t"
    else if c == '\\' then "\\\\"
    else if c == ' ' || '!' <= c <= '~' then [c]
    else "\\x" + [HexDigit(c as int / 16), HexDigit(c as int % 16)]
  }

  function Escaped(s: string): string
    requires IsBytes(s)
  {
    if s == "" then "" else EscapeChar(s[0]) + Escaped(s[1..])
  }

  /** hex_int checks nothing: any other character is read as if it were in 'a'..'f'. */
  function HexInt(c: char): int {
    if '0' <= c <= '9' then c as int - '0' as int else c as int - 'a' as int + 10
  }

  function UnescapeChar(c2: char): char {
    match c2
    case 'a' => 7 as char
    case 'b' => 8 as char
    case 'f' => 12 as char
    case 'v' => 11 as char
    case 'r' => '\r'
    case 'n' => '\n'
    case 't' => '\t'
    case _ => c2
  }

  function HexChar(c3: char, c4: char): char {
    ((HexInt(c3) * 16 + HexInt(c4)) % 256) as char
  }

  function Unescaped(s: string): string {
    if s == "" then ""
    else if s[0] != '\\' then [s[0]] + Unescaped(s[1..])
    else if |s| == 1 then ""
    else if s[1] != 'x' then [UnescapeChar(s[1])] + Unescaped(s[2..])
    else if |s| >= 4 then [HexChar(s[2], s[3])] + Unescaped(s[4..])
    else Unescaped(s[2..])
  }

  method StrEscape(s: string) returns (ret: string)
    requires IsBytes(s)
    ensures ret == Escaped(s)
  {
    ret := "";
    for i := 0 to |s|
      invariant ret + Escaped(s[i..]) == Escaped(s)
    {
      assert s[i..][1..] == s[i + 1..];
      ret := ret + EscapeChar(s[i]);
    }
  }

  method StrUnescape(s: string) returns (ret: string)
    ensures ret == Unescaped(s)
  {
    hide Unescaped;
    ret := "";
    UnescapedEnds(s);
    var i := 0;
    while i < |s|
      invariant 0 <= i <= |s|
      invariant ret + Unescaped(s[i..]) == Unescaped(s)
    {
      var c := s[i];
      UnescapedAt(s, i);
      if c != '\\' {
        ret := ret + [c];
      } else if i < |s| - 1 {
        i := i + 1;
        var c2 := s[i];
        if c2 == 'x' {
          if i < |s| - 2 {
            ret := ret + [HexChar(s[i + 1], s[i + 2])];
            i := i + 2;
          }
        } else {
          ret := ret + [UnescapeChar(c2)];
        }
      }
      i := i + 1;
    }
  }

  lemma UnescapedEnds(s: string)
    ensures "" + Unescaped(s[0..]) == Unescaped(s) && Unescaped(s[|s|..]) == ""
  {
    assert s[0..] == s;
  }

  /** One pass of the loop at position `i`. */
  lemma UnescapedAt(s: string, i: nat)
    requires i < |s|
    ensures Unescaped(s[i..]) ==
            if s[i] != '\\' then [s[i]] + Unescaped(s[i + 1..])
            else if i == |s| - 1 then ""
            else if s[i + 1] != 'x' then [UnescapeChar(s[i + 1])] + Unescaped(s[i + 2..])
            else if i + 4 <= |s| then [HexChar(s[i + 2], s[i + 3])] + Unescaped(s[i + 4..])
            else Unescaped(s[i + 2..])
  {
    hide HexChar, UnescapeChar;
    var t := s[i..];
    assert t[1..] == s[i + 1..];
    assert |t| > 1 ==> t[2..] == s[i + 2..];
    assert |t| > 3 ==> t[4..] == s[i + 4..];
  }

  lemma UnescapeOne(c: char, rest: string)
    requires c < 256 as char
    ensures Unescaped(EscapeChar(c) + rest) == [c] + Unescaped(rest)
  {
    hide HexDigit, HexChar;
    var e := EscapeChar(c);
    assert (e + rest)[|e|..] == rest;
    HexOfByte(c);
  }

  lemma HexOfByte(c: char)
    requires c < 256 as char
    ensures HexChar(HexDigit(c as int / 16), HexDigit(c as int % 16)) == c
  {
    hide HexDigit, HexInt;
    HexDigitIs(c as int / 16);
    HexDigitIs(c as int % 16);
  }

  lemma HexDigitIs(h: nat)
    requires h < 16
    ensures HexInt(HexDigit(h)) == h
  {
  }

  /** str_unescape undoes str_escape, on every byte string and in front of any other text. */
  lemma {:induction false} EscapeRoundTrip(s: string, rest: string)
    requires IsBytes(s)
    ensures Unescaped(Escaped(s) + rest) == s + Unescaped(rest)
  {
    if s == "" {
      assert Escaped(s) + rest == rest;
    } else {
      var e, t := EscapeChar(s[0]), Escaped(s[1..]);
      calc {
        Unescaped(Escaped(s) + rest);
        { Assoc(e, t, rest); }
        Unescaped(e + (t + rest));
        { UnescapeOne(s[0], t + rest); }
        [s[0]] + Unescaped(t + rest);
        { EscapeRoundTrip(s[1..], rest); }
        [s[0]] + (s[1..] + Unescaped(rest));
        { Assoc([s[0]], s[1..], Unescaped(rest)); }
        s + Unescaped(rest);
      }
    }
  }

  lemma {:induction false} EscapedIsPrintable(s: string)
    requires IsBytes(s)
    ensures Printable(Escaped(s))
  {
    if s != "" {
      EscapedIsPrintable(s[1..]);
    }
  }

  lemma {:induction false} EscapeDistributes(a: string, b: string)
    requires IsBytes(a) && IsBytes(b)
    ensures Escaped(a + b) == Escaped(a) + Escaped(b)
  {
    if a == "" {
      assert a + b == b;
    } else {
      assert (a + b)[1..] == a[1..] + b;
      EscapeDistributes(a[1..], b);
    }
  }

  lemma EscapeInjective(a: string, b: string)
    requires IsBytes(a) && IsBytes(b) && Escaped(a) == Escaped(b)
    ensures a == b
  {
    EscapeRoundTrip(a, "");
    EscapeRoundTrip(b, "");
    assert a + Unescaped("") == a && b + Unescaped("") == b;
  }

  // ------------------------------------------------------------ which form each byte takes

  predicate HasShortForm(c: char) {
    c == '\r' || c == '\n' || c == '\t' || c == '\\'
  }

  predicate IsVisible(c: char) {
    ' ' <= c <= '~'
  }

  predicate LowerCaseHex(c: char) {
    c in "0123456789abcdef"
  }

  /** How many characters a byte takes: two with a letter of its own, one as itself, four in hexadecimal. */
  lemma EscapeForms(c: char)
    requires c < 256 as char
    ensures |Escaped([c])| == if HasShortForm(c) then 2 else if IsVisible(c) then 1 else 4
    ensures |Escaped([c])| == 4 ==> LowerCaseHex(Escaped([c])[2]) && LowerCaseHex(Escaped([c])[3])
  {
    EscapedOne(c);
    if !HasShortForm(c) && !IsVisible(c) {
      HexIsLowerCase(c as int / 16);
      HexIsLowerCase(c as int % 16);
    }
  }

  lemma HexIsLowerCase(h: nat)
    requires h < 16
    ensures LowerCaseHex(HexDigit(h))
  {
    assert HexDigit(h) == "0123456789abcdef"[h];
  }

  /** Nothing else has this form and is read back as the byte: the escape is determined. */
  lemma EscapeIsDetermined(c: char, e: string)
    requires c < 256 as char && Printable(e) && Unescaped(e) == [c]
    requires |e| == if HasShortForm(c) then 2 else if IsVisible(c) then 1 else 4
    requires |e| == 4 ==> e[0] == '\\' && e[1] == 'x' && LowerCaseHex(e[2]) && LowerCaseHex(e[3])
    ensures e == Escaped([c])
  {
    EscapedOne(c);
    if |e| == 1 {
      OneCharacter(c, e);
    } else if |e| == 2 {
      TwoCharacters(c, e);
    } else {
      FourCharacters(c, e);
    }
  }

  lemma OneCharacter(c: char, e: string)
    requires |e| == 1 && Unescaped(e) == [c]
    ensures e == [c]
  {
    assert e == [e[0]] && e[1..] == "";
  }

  lemma FourCharacters(c: char, e: string)
    requires c < 256 as char && |e| == 4 && Unescaped(e) == [c]
    requires e[0] == '\\' && e[1] == 'x' && LowerCaseHex(e[2]) && LowerCaseHex(e[3])
    ensures e == "\\x" + [HexDigit(c as int / 16), HexDigit(c as int % 16)]
  {
    hide HexDigit, HexChar, LowerCaseHex;
    assert e[4..] == "";
    assert ([HexChar(e[2], e[3])] + "")[0] == HexChar(e[2], e[3]) == c;
    HexInverse(e[2], e[3]);
    assert e == "\\x" + [e[2], e[3]];
  }

  lemma EscapedOne(c: char)
    requires c < 256 as char
    ensures Escaped([c]) == EscapeChar(c)
  {
    assert [c][1..] == "" && EscapeChar(c) + "" == EscapeChar(c);
  }

  lemma TwoCharacters(c: char, e: string)
    requires HasShortForm(c) && |e| == 2 && Printable(e) && Unescaped(e) == [c]
    ensures e == EscapeChar(c)
  {
    assert e == [e[0], e[1]] && e[1..] == [e[1]] && e[2..] == "";
    if e[0] == '\\' {
      assert e[1] == 'x' ==> Unescaped(e) == "";
      assert e[1] != 'x' ==> Unescaped(e) == [UnescapeChar(e[1])] + "";
      assert Unescaped(e)[0] == UnescapeChar(e[1]);
    } else {
      assert Unescaped(e)[0] == e[0];
    }
  }

  lemma HexInverse(c3: char, c4: char)
    requires LowerCaseHex(c3) && LowerCaseHex(c4)
    ensures HexDigit(HexChar(c3, c4) as int / 16) == c3 && HexDigit(HexChar(c3, c4) as int % 16) == c4
  {
    hide HexInt, HexDigit, LowerCaseHex, HexChar;
    HexDigitOf(c3);
    HexDigitOf(c4);
    HexCharOf(c3, c4);
    DivideBy16(HexInt(c3), HexInt(c4));
  }

  lemma HexCharOf(c3: char, c4: char)
    requires 0 <= HexInt(c3) < 16 && 0 <= HexInt(c4) < 16
    ensures HexChar(c3, c4) as int == HexInt(c3) * 16 + HexInt(c4)
  {
    hide HexInt;
    DivideBy16(HexInt(c3), HexInt(c4));
  }

  lemma DivideBy16(a: int, b: int)
    requires 0 <= a < 16 && 0 <= b < 16
    ensures 0 <= a * 16 + b < 256 && (a * 16 + b) / 16 == a && (a * 16 + b) % 16 == b
    ensures (a * 16 + b) % 256 == a * 16 + b
  {
  }

  lemma HexDigitOf(c: char)
    requires LowerCaseHex(c)
    ensures 0 <= HexInt(c) < 16 && HexDigit(HexInt(c)) == c
  {
  }

  // ------------------------------------------------------------ what str_unescape makes of other texts

  /** The letters of the C escapes, in the order of the codes 7 to 13 that they stand for. */
  const C_LETTERS := "abtnvfr"

  lemma CEscapes(k: nat, rest: string)
    requires k < 7
    ensures Unescaped("\\" + [C_LETTERS[k]] + rest) == [(7 + k) as char] + Unescaped(rest)
  {
    assert C_LETTERS[k] in "abtnvfr" && C_LETTERS[k] != 'x';
    EscapePair(C_LETTERS[k], rest);
  }

  /** Any other character but 'x' stands for itself. */
  lemma OtherEscapes(c: char, rest: string)
    requires c != 'x' && c !in C_LETTERS
    ensures Unescaped("\\" + [c] + rest) == [c] + Unescaped(rest)
  {
    assert forall d :: d in ['a', 'b', 'f', 'v', 'r', 'n', 't'] ==> d in C_LETTERS;
    EscapePair(c, rest);
  }

  lemma EscapePair(c: char, rest: string)
    requires c != 'x'
    ensures Unescaped("\\" + [c] + rest) == [UnescapeChar(c)] + Unescaped(rest)
  {
    hide UnescapeChar;
    assert ("\\" + [c] + rest)[2..] == rest;
  }

  /** The value of a hexadecimal digit in either case. */
  function HexValue(c: char): int {
    if '0' <= c <= '9' then c as int - '0' as int
    else if 'a' <= c <= 'f' then c as int - 'a' as int + 10
    else c as int - 'A' as int + 10
  }

  predicate IsHex(c: char) {
    '0' <= c <= '9' || 'a' <= c <= 'f' || 'A' <= c <= 'F'
  }

  /**
   Two hexadecimal digits are read as their value exactly if the second is not in upper case. The
   first may be: what hex_int gets wrong there is a multiple of 256.
   */
  lemma HexReadIff(c3: char, c4: char, rest: string)
    requires IsHex(c3) && IsHex(c4)
    ensures Unescaped("\\x" + [c3, c4] + rest) == [(16 * HexValue(c3) + HexValue(c4)) as char] + Unescaped(rest)
       <==> !('A' <= c4 <= 'F')
  {
    var s := "\\x" + [c3, c4] + rest;
    assert s[4..] == rest;
    assert Unescaped(s) == [HexChar(c3, c4)] + Unescaped(rest);
    var v := 16 * HexValue(c3) + HexValue(c4);
    assert 0 <= v < 256;
    var h := HexInt(c3) * 16 + HexInt(c4);
    assert h == v - (if 'A' <= c3 <= 'F' then 512 else 0) - (if 'A' <= c4 <= 'F' then 32 else 0);
    assert ([HexChar(c3, c4)] + Unescaped(rest))[0] == HexChar(c3, c4);
    assert ([v as char] + Unescaped(rest))[0] == v as char;
  }

  /** A hexadecimal escape that is cut off leaves nothing, and neither does a lone backslash. */
  lemma CutEscapes(c: char)
    ensures Unescaped("\\") == "" && Unescaped("\\x") == ""
    ensures c != '\\' ==> Unescaped("\\x" + [c]) == [c]
  {
    assert ("\\x" + [c])[2..] == [c] && [c][1..] == "";
    assert "\\x"[2..] == "";
  }
}
