/**
 A functional model of the persistent singly-linked stack: every list is an
 immutable chain of nodes, and `Append`/`Tail` build new lists that share the
 nodes of the list they start from.
 */
module PersistStack {
  import opened Wrappers

  /** A link to the first node of a chain; `Nil` ends the chain. */
  datatype Link<T> = Nil | Node(elem: T, next: Link<T>)

  /** A list is a handle on the head link of a chain. */
  datatype List<T> = List(head: Link<T>)

  /** The elements of the chain starting at `link`, front to back. */
  function Elems<T>(link: Link<T>): seq<T>
  {
    match link
    case Nil => []
    case Node(e, next) => [e] + Elems(next)
  }

  /** The contents of a list. */
  function Items<T>(l: List<T>): seq<T>
  {
    Elems(l.head)
  }

  /** `a` is reached from `b` by following zero or more `next` links,
      that is, the chain `a` is shared by `b` as a suffix. */
  ghost predicate IsSuffix<T>(a: Link<T>, b: Link<T>)
    decreases b
  {
    a == b || (b.Node? && IsSuffix(a, b.next))
  }

  /** An empty list. */
  function New<T>(): (r: List<T>)
    ensures Items(r) == []
    ensures Head(r) == None
  {
    List(Nil)
  }

  /** Pushes `x` on the front; the new node links to the receiver's head,
      which is shared, not copied. */
  function Append<T>(l: List<T>, x: T): (r: List<T>)
    ensures Items(r) == [x] + Items(l)
    ensures Head(r) == Some(x)
    ensures r.head.Node? && r.head.next == l.head
    ensures IsSuffix(l.head, r.head)
  {
    List(Node(x, l.head))
  }

  /** The list without its first element; the empty list's tail is empty. */
  function Tail<T>(l: List<T>): (r: List<T>)
    ensures Items(l) == [] ==> Items(r) == []
    ensures Items(l) != [] ==> Items(r) == Items(l)[1..]
    ensures IsSuffix(r.head, l.head)
  {
    List(if l.head.Node? then l.head.next else Nil)
  }

  /** Peeks at the first element. */
  function Head<T>(l: List<T>): (r: Option<T>)
    ensures r.None? <==> Items(l) == []
    ensures r.Some? ==> r.value == Items(l)[0]
  {
    match l.head
    case Nil => None
    case Node(e, _) => Some(e)
  }

  /** A borrowing iterator: the node it will yield next, if any. */
  datatype Iter<T> = Iter(next: Link<T>)

  /** Starts an iteration at the front of the list. */
  function Iterate<T>(l: List<T>): (it: Iter<T>)
    ensures Elems(it.next) == Items(l)
  {
    Iter(l.head)
  }

  /** Yields the current element and advances to its successor; once the
      chain is exhausted it yields `None` and stays exhausted. */
  function Next<T>(it: Iter<T>): (res: (Option<T>, Iter<T>))
    ensures res.0.None? <==> Elems(it.next) == []
    ensures res.0.Some? ==> [res.0.value] + Elems(res.1.next) == Elems(it.next)
    ensures res.0.None? ==> res.1 == it
  {
    match it.next
    case Nil => (None, it)
    case Node(e, next) => (Some(e), Iter(next))
  }

  /** Drives an iterator over `l` until it yields `None`, collecting what it
      yields. The items come out front to back, and the iterator is asked
      exactly once more than the list is long. */
  method Collect<T>(l: List<T>) returns (xs: seq<T>, calls: nat)
    ensures xs == Items(l)
    ensures calls == |Items(l)| + 1
  {
    var it := Iterate(l);
    xs := [];
    calls := 0;
    var done := false;
    while !done
      invariant xs + Elems(it.next) == Items(l)
      invariant done ==> Elems(it.next) == []
      invariant calls == |xs| + (if done then 1 else 0)
      decreases |Elems(it.next)| + (if done then 0 else 1)
    {
      var step := Next(it);
      calls := calls + 1;
      match step.0
      case None =>
        done := true;
      case Some(x) =>
        xs := xs + [x];
        it := step.1;
    }
  }

  /** `Tail` undoes `Append`, returning exactly the original list (the very
      same chain of nodes), and `Append` of the head undoes `Tail`. */
  lemma AppendTailInverse<T>(l: List<T>, x: T)
    ensures Tail(Append(l, x)) == l
    ensures Items(Tail(Append(l, x))) == Items(l)
    ensures Head(l).Some? ==> Append(Tail(l), Head(l).value) == l
  {
  }

  /** A shared suffix chain carries a suffix of the elements. */
  lemma {:induction false} SuffixElems<T>(a: Link<T>, b: Link<T>)
    requires IsSuffix(a, b)
    ensures |Elems(a)| <= |Elems(b)|
    ensures Elems(b)[|Elems(b)| - |Elems(a)|..] == Elems(a)
    decreases b
  {
    if a != b {
      SuffixElems(a, b.next);
    }
  }

  /** Sharing is transitive: a suffix of a suffix is a suffix. */
  lemma {:induction false} SuffixTransitive<T>(a: Link<T>, b: Link<T>, c: Link<T>)
    requires IsSuffix(a, b) && IsSuffix(b, c)
    ensures IsSuffix(a, c)
    decreases c
  {
    if b != c {
      SuffixTransitive(a, b, c.next);
    }
  }

  /** The list obtained by appending `xs[0]`, then `xs[1]`, and so on, to `l`. */
  function AppendAll<T>(l: List<T>, xs: seq<T>): List<T>
    decreases |xs|
  {
    if |xs| == 0 then l else Append(AppendAll(l, xs[..|xs| - 1]), xs[|xs| - 1])
  }

  /** The list obtained by taking the tail of `l` `k` times. */
  function TailN<T>(l: List<T>, k: nat): List<T>
  {
    if k == 0 then l else Tail(TailN(l, k - 1))
  }

  /** Persistence under any number of appends: the new list ends with the very
      chain of `l`, and its contents are the appended elements, last first,
      followed by `l`'s contents. */
  lemma {:induction false} Persistence<T>(l: List<T>, xs: seq<T>)
    ensures IsSuffix(l.head, AppendAll(l, xs).head)
    ensures |Items(AppendAll(l, xs))| == |xs| + |Items(l)|
    ensures Items(AppendAll(l, xs))[|xs|..] == Items(l)
    ensures forall i :: 0 <= i < |xs| ==> Items(AppendAll(l, xs))[i] == xs[|xs| - 1 - i]
    decreases |xs|
  {
    if |xs| > 0 {
      var prefix := AppendAll(l, xs[..|xs| - 1]);
      Persistence(l, xs[..|xs| - 1]);
      SuffixTransitive(l.head, prefix.head, AppendAll(l, xs).head);
      assert Items(AppendAll(l, xs)) == [xs[|xs| - 1]] + Items(prefix);
    }
  }

  /** Persistence under any number of tails: the result is a suffix of `l`'s
      chain holding `l`'s contents minus the first `k` (all of them when `k`
      exceeds the length), and the empty list's tails never fail. */
  lemma {:induction false} TailsAreSuffixes<T>(l: List<T>, k: nat)
    ensures IsSuffix(TailN(l, k).head, l.head)
    ensures k <= |Items(l)| ==> Items(TailN(l, k)) == Items(l)[k..]
    ensures k > |Items(l)| ==> Items(TailN(l, k)) == []
  {
    if k > 0 {
      TailsAreSuffixes(l, k - 1);
      SuffixTransitive(TailN(l, k).head, TailN(l, k - 1).head, l.head);
    }
  }

  /** Iterating `Append(l, x)` yields `x` and then what iterating `l` yields. */
  lemma IterateAppend<T>(l: List<T>, x: T)
    ensures Next(Iterate(Append(l, x))).0 == Some(x)
    ensures Next(Iterate(Append(l, x))).1 == Iterate(l)
  {
  }

  /** The `basics` scenario: three appends, then four tails, the last one on
      the empty list. */
  lemma BasicsScenario()
    ensures Head(New<int>()) == None
    ensures Head(Append(Append(Append(New<int>(), 1), 2), 3)) == Some(3)
    ensures Head(Tail(Append(Append(Append(New<int>(), 1), 2), 3))) == Some(2)
    ensures Head(Tail(Tail(Append(Append(Append(New<int>(), 1), 2), 3)))) == Some(1)
    ensures Tail(Tail(Tail(Append(Append(Append(New<int>(), 1), 2), 3)))) == New()
    ensures Tail(New<int>()) == New()
  {
  }

  /** The `iter` scenario: appending 1, 2, 3 iterates as 3, 2, 1. */
  lemma IterScenario()
    ensures Items(Append(Append(Append(New<int>(), 1), 2), 3)) == [3, 2, 1]
  {
  }
}
