/** class Buffer of src/util/bytes.h and bytes.cpp: a window sliding over a growing block of memory. */
module Buffers {
  import opened Text

  function Max(a: int, b: int): int {
    if a < b then b else a
  }

  function Record(s: string): string {
    Dec(|s|) + "\n" + s + "\n"
  }

  /** What can be seen of a Buffer: the window starts at `off` in a block of `total` bytes. */
  datatype Window = Window(off: nat, total: nat, contents: string) {

    predicate Valid() {
      off + |contents| <= total
    }

    function Space(): int {
      total - off - |contents|
    }

    function Nice(): (w: Window)
      requires Valid()
      ensures w.Valid() && w.total == total && w.contents == contents
    {
      if off > total / 2 then this.(off := 0) else this
    }

    function Grow(): (w: Window)
      requires Valid()
      ensures w.Valid() && w.total > total && w.contents == contents
    {
      this.(total := if total < 8 * 1024 then 8 * 1024
                     else if total < 512 * 1024 then 8 * total
                     else 2 * total)
    }

    /** The loop `while(n > space()) grow();`. */
    function MakeRoom(n: nat): (w: Window)
      requires Valid()
      ensures w.Valid() && w.off == off && w.contents == contents
      ensures w.Space() >= n && w.total >= total
      decreases n - Space()
    {
      if n > Space() then Grow().MakeRoom(n) else this
    }

    /** The tail of recv and recv_req: give a full buffer room again. */
    function Reclaim(): (w: Window)
      requires Valid()
      ensures w.Valid() && w.total >= total && w.contents == contents
    {
      if Space() > 0 then this else if Nice().Space() > 0 then Nice() else Nice().Grow()
    }

    function Incr(data: string): (w: Window)
      requires Valid() && |data| <= Space()
      ensures w.Valid()
    {
      this.(contents := contents + data)
    }

    function Decr(n: nat): (w: Window)
      requires Valid() && n <= |contents|
      ensures w.Valid() && |w.contents| == |contents| - n
    {
      this.(off := off + n, contents := contents[n..])
    }

    function Append(data: string): (w: Window)
      requires Valid()
      ensures w.Valid() && w.off == off && w.contents == contents + data && w.total >= total
    {
      MakeRoom(|data|).Incr(data)
    }

    /** 16 bytes are set aside for the length line, however short it is. */
    function AppendRecord(s: string): (w: Window)
      requires Valid() && |s| < INT32_LIMIT
      ensures w.Valid() && w.off == off && w.contents == contents + Record(s) && w.total >= total
    {
      RecordLength(s);
      MakeRoom(16 + |s| + 1).Incr(Record(s))
    }
  }

  /** `char len[16]` never cuts the length line of a 32-bit size. */
  lemma LengthLine(n: nat)
    requires n < INT32_LIMIT
    ensures Snprintf(16, Dec(n) + "\n") == Dec(n) + "\n"
    ensures |Dec(n)| <= 10
  {
    Dec32Length(n);
  }

  lemma RecordLength(s: string)
    requires |s| < INT32_LIMIT
    ensures |Record(s)| <= 16 + |s| + 1
  {
    LengthLine(|s|);
  }

  /** The memory behind a buffer after nice(). */
  function AfterNice(mem: string, off: nat, size: nat): (after: string)
    requires off + size <= |mem|
    ensures |after| == |mem|
  {
    if off > |mem| / 2 then mem[off..off + size] + mem[size..] else mem
  }

  /** `data` written over the memory from `at` on. */
  function Put(mem: string, at: nat, data: string): (after: string)
    requires at + |data| <= |mem|
    ensures |after| == |mem|
  {
    mem[..at] + data + mem[at + |data|..]
  }

  lemma PutNothing(mem: string, at: nat)
    requires at <= |mem|
    ensures Put(mem, at, "") == mem
  {
  }

  lemma PutTwice(mem: string, at: nat, a: string, b: string)
    requires at + |a| + |b| <= |mem|
    ensures |a + b| == |a| + |b| && Put(Put(mem, at, a), at + |a|, b) == Put(mem, at, a + b)
  {
  }

  /** How much a read may deliver behind the contents after nice(). */
  function SpaceToRead(total: nat, off: nat, size: nat): nat
    requires off + size <= total
  {
    if off > total / 2 then total - size else total - off - size
  }

  /** The memory after Link::read: nice(), and `chunk` behind the contents. */
  function AfterRead(mem: string, off: nat, size: nat, chunk: string): (after: string)
    requires off + size <= |mem| && |chunk| <= SpaceToRead(|mem|, off, size)
    ensures |after| == |mem|
  {
    Put(AfterNice(mem, off, size), if off > |mem| / 2 then size else off + size, chunk)
  }

  /** memcpy is undefined on overlapping regions, so it demands that they do not overlap. */
  method Memcpy(mem: array<char>, dst: nat, src: nat, n: nat)
    requires dst + n <= mem.Length && src + n <= mem.Length
    requires n == 0 || dst + n <= src || src + n <= dst
    modifies mem
    ensures mem[dst..dst + n] == old(mem[src..src + n])
    ensures forall i :: 0 <= i < mem.Length && !(dst <= i < dst + n) ==> mem[i] == old(mem[i])
  {
    forall i | 0 <= i < n {
      mem[dst + i] := mem[src + i];
    }
  }

  method Store(mem: array<char>, dst: nat, data: string)
    requires dst + |data| <= mem.Length
    modifies mem
    ensures mem[dst..dst + |data|] == data
    ensures mem[..dst] == old(mem[..dst])
    ensures mem[..] == Put(old(mem[..]), dst, data)
  {
    forall i | 0 <= i < |data| {
      mem[dst + i] := data[i];
    }
  }

  /** The three writes of append_record: the length line, the body and the closing LF. */
  method StoreRecord(mem: array<char>, slot: nat, s: string) returns (n: nat)
    requires |s| < INT32_LIMIT && slot + |Record(s)| <= mem.Length
    modifies mem
    ensures n == |Record(s)|
    ensures mem[slot..slot + n] == Record(s)
    ensures mem[..slot] == old(mem[..slot])
  {
    hide Put;
    LengthLine(|s|);
    var len := Snprintf(16, Dec(|s|) + "\n");
    var p := slot;
    Store(mem, p, len);
    p := p + |len|;
    Store(mem, p, s);
    assert mem[slot..p] == len;
    p := p + |s|;
    mem[p] := '\n';
    n := |len| + |s| + 1;
    assert mem[slot..p + 1] == mem[slot..slot + |len|] + mem[slot + |len|..p] + [mem[p]];
  }

  class Buffer {
    var buf: array<char>
    var off: nat    // data_ - buf
    var size: nat
    var total: nat

    ghost predicate Valid()
      reads this
    {
      off + size <= total && buf.Length == total
    }

    function Contents(): (s: string)
      requires Valid()
      reads this, buf
      ensures |s| == size
    {
      buf[off..off + size]
    }

    ghost function View(): (w: Window)
      requires Valid()
      reads this, buf
      ensures w.Valid()
    {
      Window(off, total, Contents())
    }

    function Space(): int
      requires Valid()
      reads this
    {
      total - off - size
    }

    constructor (total: nat)
      ensures Valid() && fresh(buf)
      ensures View() == Window(0, total, "")
    {
      this.total := total;
      this.buf := new char[total];
      this.off, this.size := 0, 0;
    }

    /**
     The memcpy regions never overlap. Nothing is written unless the contents start in the second
     half of the block, and then only as many bytes as there are contents, all in the first half.
     */
    method Nice()
      requires Valid()
      modifies this, buf
      ensures Valid() && buf == old(buf)
      ensures View() == old(View()).Nice()
      ensures buf[..] == AfterNice(old(buf[..]), old(off), size)
      ensures old(off) <= total / 2 ==> buf[..] == old(buf[..])
      ensures forall i :: size <= i < total ==> buf[i] == old(buf[i])
      ensures buf[total / 2..] == old(buf[total / 2..])
    {
      if off > total / 2 {
        Memcpy(buf, 0, off, size);
        off := 0;
        assert buf[..] == buf[0..0 + size] + buf[size..];
      }
    }

    method Grow() returns (n: int)
      requires Valid()
      modifies this
      ensures Valid() && fresh(buf)
      ensures View() == old(View()).Grow() && n == total
      ensures buf[..old(total)] == old(buf[..])
    {
      if total < 8 * 1024 {
        n := 8 * 1024;
      } else if total < 512 * 1024 {
        n := 8 * total;
      } else {
        n := 2 * total;
      }
      var p := new char[n];
      forall i | 0 <= i < total {
        p[i] := buf[i];
      }
      assert p[..total] == buf[..];
      assert p[off..off + size] == p[..total][off..off + size] == buf[off..off + size];
      buf := p;
      total := n;
    }

    method MakeRoom(n: nat)
      requires Valid()
      modifies this
      ensures Valid() && (buf == old(buf) || fresh(buf))
      ensures View() == old(View()).MakeRoom(n)
    {
      while n > Space()
        invariant Valid() && (buf == old(buf) || fresh(buf))
        invariant View().MakeRoom(n) == old(View()).MakeRoom(n)
        decreases n - Space()
      {
        var _ := Grow();
      }
    }

    method Reclaim()
      requires Valid()
      modifies this, buf
      ensures Valid() && (buf == old(buf) || fresh(buf))
      ensures View() == old(View()).Reclaim()
    {
      if Space() == 0 {
        Nice();
        if Space() == 0 {
          var _ := Grow();
        }
      }
    }

    /** The bytes already written at slot() become part of the contents. */
    method Incr(num: nat)
      requires Valid() && num <= Space()
      modifies this
      ensures Valid() && buf == old(buf)
      ensures View() == old(View()).Incr(old(buf[off + size..off + size + num]))
    {
      size := size + num;
    }

    method Decr(num: nat)
      requires Valid() && num <= size
      modifies this
      ensures Valid() && buf == old(buf)
      ensures View() == old(View()).Decr(num)
    {
      size := size - num;
      off := off + num;
    }

    method Append(data: string) returns (n: int)
      requires Valid()
      modifies this, buf
      ensures Valid() && (buf == old(buf) || fresh(buf))
      ensures View() == old(View()).Append(data) && n == |data|
    {
      MakeRoom(|data|);
      ghost var before := Contents();
      Store(buf, off + size, data);
      assert Contents() == before;
      Incr(|data|);
      n := |data|;
    }

    method AppendRecord(s: string) returns (n: int)
      requires Valid() && |s| < INT32_LIMIT
      modifies this, buf
      ensures Valid() && (buf == old(buf) || fresh(buf))
      ensures View() == old(View()).AppendRecord(s) && n == |Record(s)|
    {
      hide Record, Window.MakeRoom;
      MakeRoom(16 + |s| + 1);
      RecordLength(s);
      ghost var before := Contents();
      n := StoreRecord(buf, off + size, s);
      assert Contents() == before;
      Incr(n);
    }
  }

  // ------------------------------------------------------------------- Bytes

  /**
   class Bytes holds a pointer, not the text: into the memory of the input buffer, or into a string
   kept elsewhere. Only a slice depends on what the buffer's memory holds now.
   */
  datatype Bytes = Slice(start: nat, len: nat) | Owned(text: string) {

    predicate Within(mem: seq<char>) {
      Slice? ==> start + len <= |mem|
    }

    function String(mem: seq<char>): string
      requires Within(mem)
    {
      match this
      case Slice(start, len) => mem[start..start + len]
      case Owned(text) => text
    }
  }

  predicate AllWithin(bs: seq<Bytes>, mem: seq<char>) {
    forall i :: 0 <= i < |bs| ==> bs[i].Within(mem)
  }

  function Strings(bs: seq<Bytes>, mem: seq<char>): (ts: seq<string>)
    requires AllWithin(bs, mem)
    ensures |ts| == |bs|
    ensures forall i :: 0 <= i < |bs| ==> ts[i] == bs[i].String(mem)
  {
    seq(|bs|, i requires 0 <= i < |bs| => bs[i].String(mem))
  }

  /** The slices `bs`, taken from `data` standing at `base` in the memory, read as `texts`. */
  predicate SlicesOf(bs: seq<Bytes>, data: string, base: nat, texts: seq<string>) {
    |bs| == |texts| && forall i :: 0 <= i < |bs| ==>
      && bs[i].Slice? && base <= bs[i].start && bs[i].start + bs[i].len <= base + |data|
      && data[bs[i].start - base..bs[i].start - base + bs[i].len] == texts[i]
  }

  lemma NoSlices(data: string, base: nat)
    ensures SlicesOf([], data, base, [])
  {
  }

  lemma PushSlice(bs: seq<Bytes>, data: string, base: nat, texts: seq<string>, at: nat, len: nat)
    requires SlicesOf(bs, data, base, texts) && at + len <= |data|
    ensures SlicesOf(bs + [Slice(base + at, len)], data, base, texts + [data[at..at + len]])
  {
  }

  lemma SliceOfSlice(mem: seq<char>, base: nat, size: nat, at: nat, n: nat)
    requires base + size <= |mem| && at + n <= size
    ensures mem[base..base + size][at..at + n] == mem[base + at..base + at + n]
  {
    var w := mem[base..base + size];
    assert forall k :: at <= k < at + n ==> w[k] == mem[base + k];
  }

  lemma SlicesRead(bs: seq<Bytes>, mem: seq<char>, base: nat, size: nat, texts: seq<string>)
    requires base + size <= |mem| && SlicesOf(bs, mem[base..base + size], base, texts)
    ensures AllWithin(bs, mem) && Strings(bs, mem) == texts
  {
    forall i | 0 <= i < |bs|
      ensures bs[i].Within(mem) && bs[i].String(mem) == texts[i]
    {
      SliceOfSlice(mem, base, size, bs[i].start - base, bs[i].len);
    }
  }

  // ------------------------------------------------------------------ lemmas

  /** The growth loop ends with a block proportional to what was asked for. */
  lemma {:induction false} MakeRoomBound(w: Window, n: nat)
    requires w.Valid()
    ensures w.MakeRoom(n).total <= Max(Max(w.total, 8 * 1024), 8 * (w.off + |w.contents| + n))
    decreases n - w.Space()
  {
    if n > w.Space() {
      MakeRoomBound(w.Grow(), n);
    }
  }
}
