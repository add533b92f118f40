/**
 The C library text routines the wire formats depend on: memchr, %d printing,
 strtol/atoi with their saturation and truncation, snprintf's cut-off, tolower.

 A string stands for a byte string, one char per byte.
 */
module Text {

  const INT32_LIMIT := 0x8000_0000
  const INT64_LIMIT := 0x8000_0000_0000_0000

  /** The three states of the C errno that the sources tell apart. */
  datatype Errno = Clear | Invalid | Other

  /** errno has been left alone, or set to something that is not EINVAL. */
  predicate KeptOrMasked(before: Errno, after: Errno) {
    after == before || after == Other
  }

  // ---------------------------------------------------------------- searching

  /** memchr from position `i` on: the position of the next `c`, or |s| when there is none. */
  function IndexFrom(s: string, c: char, i: nat): (k: nat)
    requires i <= |s|
    ensures i <= k <= |s|
    ensures forall j :: i <= j < k ==> s[j] != c
    ensures k < |s| ==> s[k] == c
    decreases |s| - i
  {
    if i == |s| || s[i] == c then i else IndexFrom(s, c, i + 1)
  }

  // ----------------------------------------------------------------- printing

  predicate IsDigit(c: char) {
    '0' <= c <= '9'
  }

  predicate AllDigits(s: string) {
    forall i :: 0 <= i < |s| ==> IsDigit(s[i])
  }

  function DigitVal(c: char): (v: nat)
    requires IsDigit(c)
    ensures v < 10
  {
    c as int - '0' as int
  }

  function DigitChar(d: nat): (c: char)
    requires d < 10
    ensures IsDigit(c) && DigitVal(c) == d
  {
    (d + '0' as int) as char
  }

  /** What "%d" prints for a non-negative number. */
  function Dec(n: nat): (s: string)
    ensures s != "" && AllDigits(s)
  {
    if n < 10 then [DigitChar(n)] else Dec(n / 10) + [DigitChar(n % 10)]
  }

  /** What "%d" and PRId64 print. */
  function PrintInt(v: int): (s: string)
    ensures s != ""
  {
    if v < 0 then "-" + Dec(-v) else Dec(v)
  }

  /** snprintf(buf, size, ...): the text is cut to size - 1 characters. */
  function Snprintf(size: nat, text: string): string
    requires size > 0
  {
    if |text| < size then text else text[..size - 1]
  }

  // ------------------------------------------------------------------ parsing

  function DigitsEnd(s: string, i: nat): (k: nat)
    requires i <= |s|
    ensures i <= k <= |s|
    ensures forall j :: i <= j < k ==> IsDigit(s[j])
    ensures k < |s| ==> !IsDigit(s[k])
    decreases |s| - i
  {
    if i == |s| || !IsDigit(s[i]) then i else DigitsEnd(s, i + 1)
  }

  /** The number that the digits s[i..k] denote. */
  function Value(s: string, i: nat, k: nat): nat
    requires i <= k <= |s| && forall j :: i <= j < k ==> IsDigit(s[j])
  {
    if i == k then 0 else 10 * Value(s, i, k - 1) + DigitVal(s[k - 1])
  }

  predicate IsSpace(c: char) {
    c == ' ' || 9 <= c as int <= 13
  }

  function SkipSpaces(s: string, i: nat): (k: nat)
    requires i <= |s|
    ensures i <= k <= |s|
    decreases |s| - i
  {
    if i == |s| || !IsSpace(s[i]) then i else SkipSpaces(s, i + 1)
  }

  function Clamp64(v: int): int {
    if v >= INT64_LIMIT then INT64_LIMIT - 1 else if v < -INT64_LIMIT then -INT64_LIMIT else v
  }

  /** The cast (int) of a 64-bit long. */
  function ToInt32(v: int): (r: int)
    ensures -INT32_LIMIT <= r < INT32_LIMIT
    ensures -INT32_LIMIT <= v < INT32_LIMIT ==> r == v
  {
    (v + INT32_LIMIT) % (2 * INT32_LIMIT) - INT32_LIMIT
  }

  function ToInt64(v: int): (r: int)
    ensures -INT64_LIMIT <= r < INT64_LIMIT
    ensures -INT64_LIMIT <= v < INT64_LIMIT ==> r == v
  {
    (v + INT64_LIMIT) % (2 * INT64_LIMIT) - INT64_LIMIT
  }

  /** What strtol finds at a position, before saturation; `end` is its end pointer. */
  datatype Number = Number(value: int, end: nat)

  function ReadNumber(s: string, i: nat): (n: Number)
    requires i <= |s|
    ensures i <= n.end <= |s|
  {
    var w := SkipSpaces(s, i);
    var d := if w < |s| && (s[w] == '-' || s[w] == '+') then w + 1 else w;
    var k := DigitsEnd(s, d);
    if k == d then Number(0, i)
    else if s[w] == '-' then Number(0 - Value(s, d, k), k)
    else Number(Value(s, d, k), k)
  }

  /** strtol and strtoll where long has 64 bits. */
  function Strtol(s: string, i: nat): int
    requires i <= |s|
  {
    Clamp64(ReadNumber(s, i).value)
  }

  function ErrnoAfterStrtol(s: string, i: nat, errno: Errno): Errno
    requires i <= |s|
  {
    if Strtol(s, i) == ReadNumber(s, i).value then errno else Other
  }

  function Atoi(s: string): int {
    ToInt32(Strtol(s, 0))
  }

  function StrToInt64(s: string): int {
    Strtol(s, 0)
  }

  function StrToInt(s: string): int {
    ToInt32(Strtol(s, 0))
  }

  /** The errno that str_to_int and str_to_int64 leave behind: only a whole number is accepted. */
  function ErrnoAfterWhole(s: string, errno: Errno): Errno {
    var e := ErrnoAfterStrtol(s, 0, errno);
    if ReadNumber(s, 0).end == |s| then Clear else if e == Clear then Invalid else e
  }

  /** str(int64_t): prints into a 21-byte buffer. */
  function StrInt64(v: int): string {
    Snprintf(21, PrintInt(v))
  }

  // ---------------------------------------------------------------- lowercase

  function LowerChar(c: char): char {
    if 'A' <= c <= 'Z' then (c as int + 32) as char else c
  }

  /** strtolower in the C locale. */
  function Lower(s: string): (t: string)
    ensures |t| == |s| && forall i :: 0 <= i < |s| ==> t[i] == LowerChar(s[i])
  {
    seq(|s|, i requires 0 <= i < |s| => LowerChar(s[i]))
  }

  // ------------------------------------------------------------------- lemmas

  lemma Assoc(a: string, b: string, c: string)
    ensures (a + b) + c == a + (b + c)
  {
  }

  /** `text` stands in `s` at position `i`. */
  predicate At(s: string, i: nat, text: string) {
    i + |text| <= |s| && s[i..i + |text|] == text
  }

  lemma AtParts(s: string, i: nat, a: string, b: string)
    ensures At(s, i, a + b) <==> At(s, i, a) && At(s, i + |a|, b)
  {
    var j, k := i + |a|, i + |a| + |b|;
    if k <= |s| {
      assert s[i..k] == s[i..j] + s[j..k];
      assert a == (a + b)[..|a|] && b == (a + b)[|a|..];
    }
  }

  lemma AtIndex(s: string, i: nat, text: string, k: nat)
    requires At(s, i, text) && k < |text|
    ensures s[i + k] == text[k]
  {
    assert s[i..i + |text|][k] == s[i + k];
  }

  lemma {:induction false} ValueAt(s: string, i: nat, n: nat)
    requires At(s, i, Dec(n))
    ensures forall j :: i <= j < i + |Dec(n)| ==> IsDigit(s[j])
    ensures Value(s, i, i + |Dec(n)|) == n
  {
    var d := Dec(n);
    AtIndex(s, i, d, |d| - 1);
    if n >= 10 {
      AtParts(s, i, Dec(n / 10), [DigitChar(n % 10)]);
      ValueAt(s, i, n / 10);
    } else {
      assert Value(s, i, i) == 0;
    }
  }

  function Pow10(k: nat): (p: nat)
    ensures p > 0
  {
    if k == 0 then 1 else 10 * Pow10(k - 1)
  }

  lemma {:induction false} DecLength(n: nat, k: nat)
    requires k > 0 && n < Pow10(k)
    ensures |Dec(n)| <= k
  {
    if n >= 10 {
      assert Pow10(0) == 1;
      DecLength(n / 10, k - 1);
    }
  }

  /** A 32-bit length prints in at most ten digits, so `char len[16]` holds it and its LF. */
  lemma Dec32Length(n: nat)
    requires n <= INT32_LIMIT
    ensures |Dec(n)| <= 10
  {
    assert Pow10(5) == 100000;
    assert Pow10(10) == 10 * 10 * 10 * 10 * 10 * Pow10(5);
    DecLength(n, 10);
  }

  lemma Int64Length(n: nat)
    requires n <= INT64_LIMIT
    ensures |Dec(n)| <= 19
  {
    assert Pow10(5) == 100000;
    assert Pow10(10) == 10 * 10 * 10 * 10 * 10 * Pow10(5);
    assert Pow10(15) == 10 * 10 * 10 * 10 * 10 * Pow10(10);
    assert Pow10(19) == 10 * 10 * 10 * 10 * Pow10(15);
    DecLength(n, 19);
  }

  /** strtol reads a printed integer back and stops right behind it, whatever non-digit follows. */
  lemma ReadPrinted(s: string, i: nat, v: int)
    requires At(s, i, PrintInt(v))
    requires var k := i + |PrintInt(v)|; k < |s| ==> !IsDigit(s[k])
    ensures ReadNumber(s, i) == Number(v, i + |PrintInt(v)|)
  {
    var n, d := if v < 0 then -v else v, if v < 0 then i + 1 else i;
    if v < 0 {
      AtParts(s, i, "-", Dec(n));
      AtIndex(s, i, "-", 0);
    }
    ValueAt(s, d, n);
    assert IsDigit(s[d]);
    assert DigitsEnd(s, d) == d + |Dec(n)|;
    assert SkipSpaces(s, i) == i;
  }

  /**
   Every int64 prints without being cut by the 21-byte buffer, reads back as itself,
   and the whole-string test of str_to_int64 accepts the text.
   */
  lemma Int64RoundTrip(v: int, errno: Errno)
    requires -INT64_LIMIT <= v < INT64_LIMIT
    ensures StrInt64(v) == PrintInt(v)
    ensures StrToInt64(StrInt64(v)) == v
    ensures ErrnoAfterWhole(StrInt64(v), errno) == Clear
  {
    Int64Length(if v < 0 then -v else v);
    ReadPrinted(PrintInt(v), 0, v);
  }

  /** The count that stands for "all" where SSDB wants one. */
  lemma TwoThousandMillion()
    ensures ReadNumber("2000000000", 0) == Number(2000000000, 10)
  {
    var s := "2000000000";
    assert forall i :: 0 <= i < 10 ==> IsDigit(s[i]);
    assert Value(s, 0, 1) == 2 && Value(s, 0, 2) == 20 && Value(s, 0, 3) == 200;
    assert Value(s, 0, 4) == 2000 && Value(s, 0, 5) == 20000 && Value(s, 0, 6) == 200000;
    assert Value(s, 0, 7) == 2000000 && Value(s, 0, 8) == 20000000 && Value(s, 0, 9) == 200000000;
  }

  // ------------------------------------------------------------------- other spellings of a number

  predicate Spaces(s: string) {
    forall i :: 0 <= i < |s| ==> s[i] in " \t\n\r" || s[i] as int == 11 || s[i] as int == 12
  }

  /** White space of any kind and a plus sign may stand before the digits, white space before the minus. */
  lemma NumberBehindSpaces(spaces: string, sign: string, n: nat, rest: string)
    requires Spaces(spaces) && (sign == "" || sign == "+" || sign == "-")
    requires rest != "" ==> !IsDigit(rest[0])
    ensures ReadNumber(spaces + sign + Dec(n) + rest, 0)
         == Number(if sign == "-" then 0 - n else n, |spaces + sign + Dec(n)|)
  {
    hide Dec, ReadNumber;
    var s, w, d := spaces + sign + Dec(n) + rest, |spaces|, |spaces + sign|;
    var k := d + |Dec(n)|;
    assert s[d..k] == Dec(n);
    assert forall i :: d <= i < k ==> s[i] == Dec(n)[i - d];
    assert k < |s| ==> s[k] == rest[0];
    assert forall i :: 0 <= i < w ==> s[i] == spaces[i];
    assert sign != "" ==> s[w] == sign[0];
    ValueAt(s, d, n);
    NumberAt(s, w, d, k);
  }

  lemma NumberAt(s: string, w: nat, d: nat, k: nat)
    requires w <= d < k <= |s| && (forall j :: 0 <= j < w ==> IsSpace(s[j]))
    requires (forall j :: d <= j < k ==> IsDigit(s[j])) && (k < |s| ==> !IsDigit(s[k]))
    requires d == w || (d == w + 1 && (s[w] == '-' || s[w] == '+'))
    ensures ReadNumber(s, 0) == Number(if s[w] == '-' then 0 - Value(s, d, k) else Value(s, d, k), k)
  {
    SkipAllSpaces(s, 0, w);
    DigitsUpTo(s, d, k);
  }

  lemma {:induction false} SkipAllSpaces(s: string, i: nat, k: nat)
    requires i <= k < |s| && (forall j :: i <= j < k ==> IsSpace(s[j])) && !IsSpace(s[k])
    ensures SkipSpaces(s, i) == k
    decreases k - i
  {
    if i < k {
      SkipAllSpaces(s, i + 1, k);
    }
  }

  lemma DigitsUpTo(s: string, d: nat, k: nat)
    requires d <= k <= |s| && (forall j :: d <= j < k ==> IsDigit(s[j])) && (k < |s| ==> !IsDigit(s[k]))
    ensures DigitsEnd(s, d) == k
  {
  }

  /** A number out of range is read as the nearest one in it, and only then errno is touched. */
  lemma Saturates(v: int, errno: Errno)
    ensures Strtol(PrintInt(v), 0)
         == if v > 0x7fff_ffff_ffff_ffff then 0x7fff_ffff_ffff_ffff
            else if v < -0x8000_0000_0000_0000 then -0x8000_0000_0000_0000 else v
    ensures ErrnoAfterStrtol(PrintInt(v), 0, errno)
         == if -0x8000_0000_0000_0000 <= v <= 0x7fff_ffff_ffff_ffff then errno else Other
  {
    hide ReadNumber, PrintInt;
    assert At(PrintInt(v), 0, PrintInt(v));
    ReadPrinted(PrintInt(v), 0, v);
  }

  // ------------------------------------------------------------------- letter case

  const UPPER := "ABCDEFGHIJKLMNOPQRSTUVWXYZ"
  const LOWER := "abcdefghijklmnopqrstuvwxyz"

  /** The 26 letters become theirs in lower case, and nothing else changes. */
  lemma LowerLetters(c: char)
    ensures forall i :: 0 <= i < 26 ==> Lower([UPPER[i]]) == [LOWER[i]]
    ensures c !in UPPER ==> Lower([c]) == [c]
  {
    assert forall i :: 0 <= i < 26 ==> UPPER[i] as int == 'A' as int + i && LOWER[i] as int == 'a' as int + i;
    if 'A' <= c <= 'Z' {
      assert UPPER[c as int - 'A' as int] == c;
    }
  }
}
