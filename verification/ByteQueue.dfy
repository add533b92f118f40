/** Every sequence of Buffer operations behaves like a plain queue of bytes. */
module ByteQueue {
  import opened Text
  import opened Buffers

  datatype Operation =
    | Append(data: string)
    | AppendRecord(s: string)
    | Incr(data: string)        // bytes that a read has put into the free space
    | Decr(n: nat)
    | Nice
    | Grow
    | Reclaim

  predicate Allowed(w: Window, op: Operation)
    requires w.Valid()
  {
    match op
    case AppendRecord(s) => |s| < INT32_LIMIT
    case Incr(data) => |data| <= w.Space()
    case Decr(n) => n <= |w.contents|
    case _ => true
  }

  function Do(w: Window, op: Operation): (w': Window)
    requires w.Valid() && Allowed(w, op)
    ensures w'.Valid()
  {
    match op
    case Append(data) => w.Append(data)
    case AppendRecord(s) => w.AppendRecord(s)
    case Incr(data) => w.Incr(data)
    case Decr(n) => w.Decr(n)
    case Nice => w.Nice()
    case Grow => w.Grow()
    case Reclaim => w.Reclaim()
  }

  /** The queue's view: bytes come in at the end and leave at the front; the rest is housekeeping. */
  function Queued(q: string, op: Operation): string {
    match op
    case Append(data) => q + data
    case AppendRecord(s) => q + Record(s)
    case Incr(data) => q + data
    case Decr(n) => if n <= |q| then q[n..] else ""
    case _ => q
  }

  predicate AllAllowed(w: Window, ops: seq<Operation>)
    requires w.Valid()
    decreases |ops|
  {
    ops == [] || (Allowed(w, ops[0]) && AllAllowed(Do(w, ops[0]), ops[1..]))
  }

  function DoAll(w: Window, ops: seq<Operation>): (w': Window)
    requires w.Valid() && AllAllowed(w, ops)
    ensures w'.Valid()
    decreases |ops|
  {
    if ops == [] then w else DoAll(Do(w, ops[0]), ops[1..])
  }

  function QueuedAll(q: string, ops: seq<Operation>): string
    decreases |ops|
  {
    if ops == [] then q else QueuedAll(Queued(q, ops[0]), ops[1..])
  }

  /** The window stays inside its block, the block never shrinks, and the contents are the queue's. */
  lemma {:induction false} BufferIsQueue(w: Window, ops: seq<Operation>)
    requires w.Valid() && AllAllowed(w, ops)
    ensures var w' := DoAll(w, ops);
            && w'.off + |w'.contents| <= w'.total && w'.total >= w.total
            && w'.contents == QueuedAll(w.contents, ops)
    decreases |ops|
  {
    hide Window.MakeRoom;
    if ops != [] {
      BufferIsQueue(Do(w, ops[0]), ops[1..]);
    }
  }
}
