/** The keystroke ring buffer of kernel/src/keyboard.rs, for any capacity `N >= 1`. */
module KeyBuffer {
  import opened Wrappers
  import opened Bits

  // --- the bounded queue it implements ------------------------------------------------

  /** Append unless `n - 1` characters are pending already; then the new character is dropped. */
  function Enqueue(n: nat, q: string, c: char): string {
    if |q| + 1 < n then q + [c] else q
  }

  lemma Wraps(i: nat, n: nat)
    requires i < n
    ensures (i + 1) % n == if i + 1 == n then 0 else i + 1
  {
    if i + 1 == n {
      RemainderIs(n, n, 1, 0);
    } else {
      RemainderIs(i + 1, n, 0, i + 1);
    }
  }

  class RingBuffer {
    const data: array<char>
    var head: nat
    var tail: nat

    ghost predicate Valid()
      reads this
    {
      head < data.Length && tail < data.Length
    }

    /** The pending characters, oldest first. */
    ghost function Contents(): string
      requires Valid()
      reads this, data
    {
      if tail <= head then data[tail..head] else data[tail..] + data[..head]
    }

    constructor (n: nat)
      requires 0 < n
      ensures Valid() && fresh(data) && data.Length == n && Contents() == []
    {
      data := new char[n](i => '\0');
      head, tail := 0, 0;
    }

    /** The queue gains the character, unless it is full: then nothing changes. */
    method Push(c: char)
      requires Valid()
      modifies this, data
      ensures Valid() && |Contents()| < data.Length
      ensures Contents() == Enqueue(data.Length, old(Contents()), c)
      ensures |old(Contents())| == data.Length - 1 ==> Contents() == old(Contents())
      ensures |old(Contents())| < data.Length - 1 ==> Contents() == old(Contents()) + [c]
    {
      Wraps(head, data.Length);
      var next := (head + 1) % data.Length;
      if next == tail {
        return;
      }
      data[head] := c;
      head := next;
    }

    method Pop() returns (c: Option<char>)
      requires Valid()
      modifies this
      ensures Valid() && |Contents()| < data.Length
      ensures c == if old(Contents()) == [] then None else Some(old(Contents())[0])
      ensures Contents() == if old(Contents()) == [] then [] else old(Contents())[1..]
    {
      if head == tail {
        return None;
      }
      c := Some(data[tail]);
      Wraps(tail, data.Length);
      tail := (tail + 1) % data.Length;
    }
  }

  // --- every history of the queue -------------------------------------------------------

  datatype Op = Push(c: char) | Pop

  /** What is pending, what was accepted and what was popped. */
  datatype History = History(pending: string, accepted: string, popped: string)

  function Step(n: nat, h: History, op: Op): History {
    match op
    case Push(c) =>
      History(Enqueue(n, h.pending, c), if |h.pending| + 1 < n then h.accepted + [c] else h.accepted, h.popped)
    case Pop => if h.pending == [] then h else History(h.pending[1..], h.accepted, h.popped + [h.pending[0]])
  }

  function Run(n: nat, ops: seq<Op>): History {
    if ops == [] then History([], [], []) else Step(n, Run(n, ops[..|ops| - 1]), ops[|ops| - 1])
  }

  /**
   First in, first out: in every reachable state the accepted characters are the popped ones
   followed by the pending ones, and at most `n - 1` are pending.
   */
  lemma {:induction false} FirstInFirstOut(n: nat, ops: seq<Op>)
    requires 0 < n
    ensures var h := Run(n, ops); h.accepted == h.popped + h.pending && |h.pending| < n
  {
    if ops != [] {
      FirstInFirstOut(n, ops[..|ops| - 1]);
    }
  }
}
