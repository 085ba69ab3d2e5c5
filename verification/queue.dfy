/** The generic first-in first-out queue backed by an array: new elements
    go to the back, removal takes the front. */
module Queues {
  import opened Wrappers

  datatype Queue<T> = Queue(items: seq<T>)

  /** A fresh queue, as the field initialiser creates it. */
  function Empty<T>(): (q: Queue<T>)
    ensures Size(q) == 0
  {
    Queue([])
  }

  function Size<T>(q: Queue<T>): (n: nat)
    ensures n == 0 <==> q.items == []
  {
    |q.items|
  }

  function IsEmpty<T>(q: Queue<T>): (b: bool)
    ensures b <==> Size(q) == 0
  {
    |q.items| == 0
  }

  /** `push`: the new element goes last, the earlier ones keep their
      positions. */
  function Enqueue<T>(q: Queue<T>, x: T): (r: Queue<T>)
    ensures Size(r) == Size(q) + 1
    ensures forall i :: 0 <= i < Size(q) ==> r.items[i] == q.items[i]
    ensures r.items[Size(q)] == x
  {
    Queue(q.items + [x])
  }

  /** `shift`: the front element and the queue without it; `None` (the
      source's `undefined`) and the same queue when it is empty. */
  function Dequeue<T>(q: Queue<T>): (r: (Option<T>, Queue<T>))
    ensures r.0.None? <==> IsEmpty(q)
    ensures r.0.None? ==> r.1 == q
    ensures r.0.Some? ==> [r.0.value] + r.1.items == q.items
  {
    if |q.items| == 0 then (None, q) else (Some(q.items[0]), Queue(q.items[1..]))
  }

  /** `items[0]`: the element `Dequeue` would return, the queue untouched. */
  function Peek<T>(q: Queue<T>): (r: Option<T>)
    ensures r == Dequeue(q).0
  {
    if |q.items| == 0 then None else Some(q.items[0])
  }

  /** Replaces the contents by an empty array. */
  function Clear<T>(q: Queue<T>): (r: Queue<T>)
    ensures Size(r) == 0 && IsEmpty(r)
    ensures Dequeue(r).0 == None
  {
    Queue([])
  }

  /** Size bookkeeping: one more after `Enqueue`, one fewer after a
      `Dequeue` that found an element, unchanged after one that did not. */
  lemma SizeChanges<T>(q: Queue<T>, x: T)
    ensures Size(Enqueue(q, x)) == Size(q) + 1
    ensures !IsEmpty(q) ==> Size(Dequeue(q).1) == Size(q) - 1
    ensures IsEmpty(q) ==> Size(Dequeue(q).1) == 0
  {
    if !IsEmpty(q) {
      assert |Dequeue(q).1.items| + 1 == |q.items|;
    }
  }

  /** Enqueuing behind a non-empty queue does not change what comes out
      first, and the new element stays at the back of what remains. */
  lemma DequeueAfterEnqueue<T>(q: Queue<T>, x: T)
    ensures IsEmpty(q) ==> Dequeue(Enqueue(q, x)) == (Some(x), q)
    ensures !IsEmpty(q) ==>
      Dequeue(Enqueue(q, x)) == (Dequeue(q).0, Enqueue(Dequeue(q).1, x))
  {
    if !IsEmpty(q) {
      assert (q.items + [x])[1..] == q.items[1..] + [x];
    }
  }

  /** Enqueuing `a` and then `b` on an empty queue dequeues `a` and then
      `b`, and leaves the queue empty. */
  lemma TwoInOrder<T>(a: T, b: T)
    ensures var (first, rest) := Dequeue(Enqueue(Enqueue(Empty<T>(), a), b));
            var (second, last) := Dequeue(rest);
            first == Some(a) && second == Some(b) && IsEmpty(last)
  {
    DequeueAfterEnqueue(Enqueue(Empty<T>(), a), b);
    DequeueAfterEnqueue(Empty<T>(), a);
  }

  /** Enqueues the elements of `xs` one after the other. */
  function EnqueueAll<T>(q: Queue<T>, xs: seq<T>): (r: Queue<T>)
    ensures Size(r) == Size(q) + |xs|
    decreases |xs|
  {
    if xs == [] then q else EnqueueAll(Enqueue(q, xs[0]), xs[1..])
  }

  /** The elements obtained by dequeuing until `undefined` comes back. */
  function DrainAll<T>(q: Queue<T>): seq<T>
    decreases Size(q)
  {
    match Dequeue(q)
    case (None, _) => []
    case (Some(x), rest) =>
      SizeChanges(q, x);
      [x] + DrainAll(rest)
  }

  /** Dequeuing until empty yields exactly the contents, front first. */
  lemma {:induction false} DrainAllIsContents<T>(q: Queue<T>)
    ensures DrainAll(q) == q.items
    decreases Size(q)
  {
    match Dequeue(q)
    case (None, _) =>
    case (Some(x), rest) =>
      SizeChanges(q, x);
      DrainAllIsContents(rest);
  }

  /** Enqueuing appends, in the given order, behind what was there. */
  lemma {:induction false} EnqueueAllAppends<T>(q: Queue<T>, xs: seq<T>)
    ensures EnqueueAll(q, xs).items == q.items + xs
    decreases |xs|
  {
    if xs != [] {
      EnqueueAllAppends(Enqueue(q, xs[0]), xs[1..]);
      assert q.items + [xs[0]] + xs[1..] == q.items + xs;
    }
  }

  /** First in, first out: whatever is enqueued into an empty queue comes
      back out in the same order. */
  lemma FirstInFirstOut<T>(xs: seq<T>)
    ensures DrainAll(EnqueueAll(Empty<T>(), xs)) == xs
  {
    EnqueueAllAppends(Empty<T>(), xs);
    DrainAllIsContents(EnqueueAll(Empty<T>(), xs));
  }
}
