/** The pieces that requests and replies of the Redis serialization protocol are made of. */
module Resp {
  import opened Text

  /** A type character, a length printed as "%d" after a cast to int, and CRLF. */
  function Heading(kind: char, n: nat): string {
    [kind] + PrintInt(ToInt32(n)) + "\r\n"
  }

  function BulkText(val: string): string {
    Heading('$', |val|) + (val + "\r\n")
  }

  lemma HeadingIsDecimal(kind: char, n: nat)
    requires n < INT32_LIMIT
    ensures Heading(kind, n) == [kind] + Dec(n) + "\r\n"
  {
  }
}
