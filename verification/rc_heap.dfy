/**
 A model of the nodes behind the persistent stack as `Rc` allocations with
 strong counts. A list value owns one strong reference to its head cell and
 every cell owns one to its successor. `Append` and `Tail` clone a reference;
 `Drop` releases a list, freeing cells one at a time for as long as the list
 was their only owner.
 */
module RcHeap {
  import opened Wrappers
  import PersistStack

  /** The address of an `Rc<Node<T>>` allocation. */
  type Ref = nat

  /** One allocation: the node's element, its `next` link, its strong count. */
  datatype Cell<T> = Cell(elem: T, next: Option<Ref>, rc: nat)

  /** The live allocations. */
  type Heap<T> = map<Ref, Cell<T>>

  /** The cells whose `next` link holds a reference to `r`. */
  function Referrers<T>(heap: Heap<T>, r: Ref): set<Ref>
  {
    set m | m in heap && heap[m].next == Some(r)
  }

  /** Every link in the heap, every live list head in `roots` and the link
      `local` held by the code running point at allocated cells. */
  ghost predicate Closed<T>(heap: Heap<T>, roots: multiset<Ref>, local: Option<Ref>)
  {
    && (forall m {:trigger heap[m]} :: m in heap && heap[m].next.Some? ==> heap[m].next.value in heap)
    && (forall r :: r in roots ==> r in heap)
    && (local.Some? ==> local.value in heap)
  }

  /** Each strong count is exactly the number of owners of the cell: the cells
      linking to it, the live lists whose head it is, and `local`. */
  ghost predicate Counted<T>(heap: Heap<T>, roots: multiset<Ref>, local: Option<Ref>)
  {
    forall r {:trigger Referrers(heap, r)} :: r in heap ==>
      heap[r].rc == |Referrers(heap, r)| + roots[r] + (if local == Some(r) then 1 else 0)
  }

  ghost predicate Valid<T>(heap: Heap<T>, roots: multiset<Ref>, local: Option<Ref>)
  {
    Closed(heap, roots, local) && Counted(heap, roots, local)
  }

  /** `p` follows `next` links through allocated cells. */
  ghost predicate IsPath<T>(heap: Heap<T>, p: seq<Ref>)
  {
    && (forall i :: 0 <= i < |p| ==> p[i] in heap)
    && (forall i :: 1 <= i < |p| ==> heap[p[i - 1]].next == Some(p[i]))
  }

  /** A path grows by the cell its last cell links to. */
  lemma ExtendPath<T>(heap: Heap<T>, p: seq<Ref>, r: Ref)
    requires IsPath(heap, p) && r in heap
    requires |p| > 0 ==> heap[p[|p| - 1]].next == Some(r)
    ensures IsPath(heap, p + [r])
  {
  }

  /** `p` is the whole chain of cells of the list whose head link is `head`. */
  ghost predicate ListAt<T>(heap: Heap<T>, head: Option<Ref>, p: seq<Ref>)
  {
    && IsPath(heap, p)
    && (if |p| == 0 then head.None? else head == Some(p[0]) && heap[p[|p| - 1]].next.None?)
  }

  /** The elements stored along `p`, front to back. */
  ghost function Values<T>(heap: Heap<T>, p: seq<Ref>): seq<T>
    requires IsPath(heap, p)
  {
    seq(|p|, i requires 0 <= i < |p| => heap[p[i]].elem)
  }

  /** The link after the cells `freed`, which start at `head`. */
  function After<T>(heap: Heap<T>, head: Option<Ref>, freed: seq<Ref>): Option<Ref>
    requires |freed| > 0 ==> freed[|freed| - 1] in heap
  {
    if |freed| == 0 then head else heap[freed[|freed| - 1]].next
  }

  /** `Append` on a list whose head link is `head`: allocates the unused address `addr` for a cell
      holding `x` and a clone of `head`, which bumps the head cell's count. */
  function Append<T>(heap: Heap<T>, head: Option<Ref>, x: T, addr: Ref): (heap': Heap<T>)
    requires addr !in heap
    requires head.Some? ==> head.value in heap
    ensures heap'.Keys == heap.Keys + {addr}
    ensures heap'[addr] == Cell(x, head, 1)
    ensures forall r :: r in heap ==> heap'[r].elem == heap[r].elem && heap'[r].next == heap[r].next
    ensures forall r :: r in heap && Some(r) != head ==> heap'[r].rc == heap[r].rc
    ensures head.Some? ==> heap'[head.value].rc == heap[head.value].rc + 1
  {
    var cloned := if head.Some? then heap[head.value := heap[head.value].(rc := heap[head.value].rc + 1)] else heap;
    cloned[addr := Cell(x, head, 1)]
  }

  /** `Tail` on a list whose head link is `head`: clones the head cell's
      `next` link, bumping its count; the empty list's tail is empty. */
  function Tail<T>(heap: Heap<T>, head: Option<Ref>): (res: (Heap<T>, Option<Ref>))
    requires head.Some? ==> head.value in heap
    requires head.Some? && heap[head.value].next.Some? ==> heap[head.value].next.value in heap
    ensures head.None? ==> res == (heap, None)
    ensures head.Some? ==> res.1 == heap[head.value].next
    ensures res.0.Keys == heap.Keys
    ensures forall r :: r in heap ==> res.0[r].elem == heap[r].elem && res.0[r].next == heap[r].next
    ensures forall r :: r in heap && Some(r) != res.1 ==> res.0[r].rc == heap[r].rc
    ensures res.1.Some? ==> res.0[res.1.value].rc == heap[res.1.value].rc + 1
  {
    match head
    case None => (heap, None)
    case Some(h) =>
      match heap[h].next
      case None => (heap, None)
      case Some(n) => (heap[n := heap[n].(rc := heap[n].rc + 1)], Some(n))
  }

  /** Referrers depend only on the `next` links. */
  lemma SameLinksSameReferrers<T>(heap: Heap<T>, heap': Heap<T>, r: Ref)
    requires heap'.Keys == heap.Keys
    requires forall m :: m in heap ==> heap'[m].next == heap[m].next
    ensures Referrers(heap', r) == Referrers(heap, r)
  {
  }

  /** After `Append`, the new cell is the one extra referrer of the old head. */
  lemma AppendReferrers<T>(heap: Heap<T>, head: Option<Ref>, x: T, addr: Ref, r: Ref)
    requires addr !in heap
    requires head.Some? ==> head.value in heap
    requires r in heap
    ensures Referrers(Append(heap, head, x, addr), r)
         == Referrers(heap, r) + (if head == Some(r) then {addr} else {})
  {
  }

  /** `Append` keeps the counts exact: the new list is one more live root. */
  lemma AppendValid<T>(heap: Heap<T>, roots: multiset<Ref>, head: Option<Ref>, x: T, addr: Ref)
    requires Valid(heap, roots, None)
    requires addr !in heap
    requires head.Some? ==> head.value in heap
    ensures Valid(Append(heap, head, x, addr), roots + multiset{addr}, None)
  {
    var heap' := Append(heap, head, x, addr);
    var roots' := roots + multiset{addr};
    assert roots[addr] == 0;
    assert Closed(heap', roots', None);
    forall r | r in heap'
      ensures heap'[r].rc == |Referrers(heap', r)| + roots'[r]
    {
      if r == addr {
        assert Referrers(heap', r) == {};
      } else {
        AppendReferrers(heap, head, x, addr, r);
      }
    }
  }

  /** `Tail` keeps the counts exact: the new list is one more live root. */
  lemma TailValid<T>(heap: Heap<T>, roots: multiset<Ref>, head: Option<Ref>)
    requires Valid(heap, roots, None)
    requires head.Some? ==> head.value in heap
    ensures var (heap', tail) := Tail(heap, head);
      Valid(heap', if tail.Some? then roots + multiset{tail.value} else roots, None)
  {
    var (heap', tail) := Tail(heap, head);
    forall r | r in heap' {
      SameLinksSameReferrers(heap, heap', r);
    }
  }

  /** `Append` leaves the receiver's chain and elements as they were, and the
      new list is the new cell followed by that same chain. */
  lemma AppendListAt<T>(heap: Heap<T>, head: Option<Ref>, x: T, addr: Ref, p: seq<Ref>)
    requires addr !in heap
    requires ListAt(heap, head, p)
    ensures ListAt(Append(heap, head, x, addr), head, p)
    ensures Values(Append(heap, head, x, addr), p) == Values(heap, p)
    ensures ListAt(Append(heap, head, x, addr), Some(addr), [addr] + p)
    ensures Values(Append(heap, head, x, addr), [addr] + p) == [x] + Values(heap, p)
  {
  }

  /** `Tail` leaves the receiver's chain as it was; the new list is that chain
      minus its first cell. */
  lemma TailListAt<T>(heap: Heap<T>, head: Option<Ref>, p: seq<Ref>)
    requires ListAt(heap, head, p)
    ensures |p| > 1 ==> p[1] in heap && heap[p[0]].next == Some(p[1])
    ensures ListAt(Tail(heap, head).0, head, p)
    ensures Values(Tail(heap, head).0, p) == Values(heap, p)
    ensures |p| == 0 ==> Tail(heap, head).1.None?
    ensures |p| > 0 ==> ListAt(Tail(heap, head).0, Tail(heap, head).1, p[1..])
    ensures |p| > 0 ==> Values(Tail(heap, head).0, p[1..]) == Values(heap, p)[1..]
  {
  }

  /** The value-level list that the chain `p` represents. */
  ghost function Abstract<T>(heap: Heap<T>, p: seq<Ref>): PersistStack.Link<T>
    requires forall i :: 0 <= i < |p| ==> p[i] in heap
    decreases |p|
  {
    if |p| == 0 then PersistStack.Nil
    else PersistStack.Node(heap[p[0]].elem, Abstract(heap, p[1..]))
  }

  /** Reading a chain's elements through the abstraction gives its values. */
  lemma {:induction false} AbstractValues<T>(heap: Heap<T>, p: seq<Ref>)
    requires IsPath(heap, p)
    ensures PersistStack.Elems(Abstract(heap, p)) == Values(heap, p)
    decreases |p|
  {
    if |p| > 0 {
      assert IsPath(heap, p[1..]);
      AbstractValues(heap, p[1..]);
    }
  }

  /** A chain whose cells keep their elements represents the same list. */
  lemma {:induction false} AbstractFrame<T>(heap: Heap<T>, heap': Heap<T>, p: seq<Ref>)
    requires forall i :: 0 <= i < |p| ==> p[i] in heap && p[i] in heap' && heap'[p[i]].elem == heap[p[i]].elem
    ensures Abstract(heap', p) == Abstract(heap, p)
    decreases |p|
  {
    if |p| > 0 {
      AbstractFrame(heap, heap', p[1..]);
    }
  }

  /** `Append` on cells refines `Append` on values: the new chain represents
      the value-level `Append` of the list the receiver's chain represents,
      and the receiver still represents the same list. */
  lemma AppendRefines<T>(heap: Heap<T>, head: Option<Ref>, x: T, addr: Ref, p: seq<Ref>)
    requires addr !in heap
    requires ListAt(heap, head, p)
    ensures Abstract(Append(heap, head, x, addr), p) == Abstract(heap, p)
    ensures Abstract(Append(heap, head, x, addr), [addr] + p)
         == PersistStack.Append(PersistStack.List(Abstract(heap, p)), x).head
  {
    var heap' := Append(heap, head, x, addr);
    AbstractFrame(heap, heap', p);
    assert ([addr] + p)[1..] == p;
  }

  /** `Tail` on cells refines `Tail` on values, and the receiver still
      represents the same list. */
  lemma TailRefines<T>(heap: Heap<T>, head: Option<Ref>, p: seq<Ref>)
    requires ListAt(heap, head, p)
    ensures |p| > 1 ==> p[1] in heap && heap[p[0]].next == Some(p[1])
    ensures Abstract(Tail(heap, head).0, p) == Abstract(heap, p)
    ensures Abstract(Tail(heap, head).0, if |p| == 0 then [] else p[1..])
         == PersistStack.Tail(PersistStack.List(Abstract(heap, p))).head
  {
    TailListAt(heap, head, p);
    AbstractFrame(heap, Tail(heap, head).0, p);
    if |p| > 0 {
      AbstractFrame(heap, Tail(heap, head).0, p[1..]);
    }
  }

  /** Freeing a uniquely owned cell: nothing else refers to it, so the heap
      stays closed, and ownership of its successor moves to `local`. */
  lemma FreeStep<T>(heap: Heap<T>, roots: multiset<Ref>, r: Ref)
    requires Valid(heap, roots, Some(r))
    requires heap[r].rc == 1
    ensures heap[r].next != Some(r)
    ensures Valid(heap - {r}, roots, heap[r].next)
  {
    var heap' := heap - {r};
    var next := heap[r].next;
    assert Referrers(heap, r) == {};
    assert next == Some(r) ==> r in Referrers(heap, r);
    forall m | m in heap' && heap'[m].next.Some?
      ensures heap'[m].next.value in heap'
    {
      assert heap'[m].next == Some(r) ==> m in Referrers(heap, r);
    }
    forall q | q in heap'
      ensures heap'[q].rc == |Referrers(heap', q)| + roots[q] + (if next == Some(q) then 1 else 0)
    {
      assert Referrers(heap', q) == Referrers(heap, q) - {r};
      if next == Some(q) {
        assert r in Referrers(heap, q);
      }
    }
  }

  /** Releasing a shared cell: its count drops by one and nothing is freed. */
  lemma ReleaseStep<T>(heap: Heap<T>, roots: multiset<Ref>, r: Ref)
    requires Valid(heap, roots, Some(r))
    ensures heap[r].rc >= 1
    ensures Valid(heap[r := heap[r].(rc := heap[r].rc - 1)], roots, None)
  {
    assert heap[r].rc == |Referrers(heap, r)| + roots[r] + 1;
    var heap' := heap[r := heap[r].(rc := heap[r].rc - 1)];
    forall q | q in heap' {
      SameLinksSameReferrers(heap, heap', q);
    }
  }

  /** A closed heap keeps every path that starts at a live root, as long as
      the surviving cells keep their links. */
  lemma {:induction false} RootPathsSurvive<T>(heap: Heap<T>, heap': Heap<T>, roots: multiset<Ref>, p: seq<Ref>)
    requires Closed(heap', roots, None)
    requires forall m :: m in heap' ==> m in heap && heap'[m].next == heap[m].next
    requires IsPath(heap, p) && |p| > 0 && p[0] in roots
    ensures IsPath(heap', p)
    decreases |p|
  {
    if |p| > 1 {
      var q := p[..|p| - 1];
      assert IsPath(heap, q);
      RootPathsSurvive(heap, heap', roots, q);
      assert p[|p| - 2] in heap';
    }
  }

  /** What holds between the steps of `Drop`: `cur` is the heap after freeing
      `freed`, a uniquely owned prefix of the dropped chain, and `h` is the
      link that follows it. */
  ghost predicate DropInv<T>(heap: Heap<T>, roots: multiset<Ref>, head: Option<Ref>,
                             cur: Heap<T>, freed: seq<Ref>, h: Option<Ref>)
  {
    && Valid(cur, roots, h)
    && IsPath(heap, freed) && (|freed| > 0 ==> head == Some(freed[0]))
    && h == After(heap, head, freed)
    && (forall i :: 0 <= i < |freed| ==> heap[freed[i]].rc == 1)
    && (forall r :: r in cur <==> r in heap && r !in freed)
    && (forall r :: r in cur ==> cur[r] == heap[r])
  }

  /** One step of `Drop` that frees the uniquely owned cell `r`. */
  lemma FreeMaintains<T>(heap: Heap<T>, roots: multiset<Ref>, head: Option<Ref>,
                         cur: Heap<T>, freed: seq<Ref>, r: Ref)
    requires DropInv(heap, roots, head, cur, freed, Some(r))
    requires cur[r].rc == 1
    ensures DropInv(heap, roots, head, cur - {r}, freed + [r], cur[r].next)
  {
    FreeStep(cur, roots, r);
    ExtendPath(heap, freed, r);
  }

  /** What `Drop` leaves behind, given the cells it `freed`: the counts are
      exact again without the dropped list, each freed cell was owned by the
      dropped list alone, the cell that stopped the walk (if any) lost one
      owner, and every other cell is untouched. */
  ghost predicate Dropped<T>(heap: Heap<T>, roots: multiset<Ref>, head: Option<Ref>,
                             heap': Heap<T>, freed: seq<Ref>)
  {
    && Valid(heap', roots, None)
    && IsPath(heap, freed) && (|freed| > 0 ==> head == Some(freed[0]))
    && (forall i :: 0 <= i < |freed| ==> heap[freed[i]].rc == 1)
    && (forall r :: r in heap' <==> r in heap && r !in freed)
    && (After(heap, head, freed).None? ==> forall r :: r in heap' ==> heap'[r] == heap[r])
    && (After(heap, head, freed).Some? ==>
          var stop := After(heap, head, freed).value;
          && stop in heap'
          && heap[stop].rc >= 2
          && heap'[stop] == heap[stop].(rc := heap[stop].rc - 1)
          && forall r :: r in heap' && r != stop ==> heap'[r] == heap[r])
  }

  /** The walk ends at the end of the chain: everything it visited was freed. */
  lemma EndOfChainDropped<T>(heap: Heap<T>, roots: multiset<Ref>, head: Option<Ref>,
                             cur: Heap<T>, freed: seq<Ref>)
    requires DropInv(heap, roots, head, cur, freed, None)
    ensures Dropped(heap, roots, head, cur, freed)
  {
  }

  /** The walk ends at a shared cell `r`: its reference is released. */
  lemma SharedCellDropped<T>(heap: Heap<T>, roots: multiset<Ref>, head: Option<Ref>,
                             cur: Heap<T>, freed: seq<Ref>, r: Ref)
    requires DropInv(heap, roots, head, cur, freed, Some(r))
    requires cur[r].rc != 1
    ensures cur[r].rc >= 2
    ensures Dropped(heap, roots, head, cur[r := cur[r].(rc := cur[r].rc - 1)], freed)
  {
    ReleaseStep(cur, roots, r);
  }

  /** `Drop` of a list whose head link is `head`, while the lists with heads
      `roots` stay alive. Walks the chain and frees each cell it owns alone;
      at the first cell with another owner it only releases its reference and
      stops. Returns the heap afterwards and the cells freed, in order. */
  method Drop<T>(heap: Heap<T>, roots: multiset<Ref>, head: Option<Ref>) returns (heap': Heap<T>, freed: seq<Ref>)
    requires Valid(heap, roots, head)
    ensures Valid(heap', roots, None)
    ensures IsPath(heap, freed) && (|freed| > 0 ==> head == Some(freed[0]))
    ensures forall i :: 0 <= i < |freed| ==> heap[freed[i]].rc == 1
    ensures forall r :: r in heap' <==> r in heap && r !in freed
    ensures After(heap, head, freed).None? ==> forall r :: r in heap' ==> heap'[r] == heap[r]
    ensures After(heap, head, freed).Some? ==>
      var stop := After(heap, head, freed).value;
      && stop in heap'
      && heap[stop].rc >= 2
      && heap'[stop] == heap[stop].(rc := heap[stop].rc - 1)
      && forall r :: r in heap' && r != stop ==> heap'[r] == heap[r]
    ensures forall p :: IsPath(heap, p) && |p| > 0 && p[0] in roots ==> IsPath(heap', p)
  {
    heap' := heap;
    freed := [];
    var h := head;
    while h.Some?
      invariant DropInv(heap, roots, head, heap', freed, h)
      decreases heap'.Keys
    {
      var r := h.value;
      if heap'[r].rc == 1 {
        FreeMaintains(heap, roots, head, heap', freed, r);
        h := heap'[r].next;
        heap' := heap' - {r};
        freed := freed + [r];
      } else {
        SharedCellDropped(heap, roots, head, heap', freed, r);
        heap' := heap'[r := heap'[r].(rc := heap'[r].rc - 1)];
        break;
      }
    }
    if h.None? {
      EndOfChainDropped(heap, roots, head, heap', freed);
    }
    assert Dropped(heap, roots, head, heap', freed);
    forall p | IsPath(heap, p) && |p| > 0 && p[0] in roots
      ensures IsPath(heap', p)
    {
      RootPathsSurvive(heap, heap', roots, p);
    }
  }

  /** After `Drop`, every other live list still has its whole chain, with the
      same elements, front to back. */
  lemma OthersKeepElements<T>(heap: Heap<T>, roots: multiset<Ref>, head: Option<Ref>,
                              heap': Heap<T>, freed: seq<Ref>, o: Ref, p: seq<Ref>)
    requires Dropped(heap, roots, head, heap', freed)
    requires o in roots && ListAt(heap, Some(o), p)
    ensures ListAt(heap', Some(o), p)
    ensures Values(heap', p) == Values(heap, p)
  {
    RootPathsSurvive(heap, heap', roots, p);
  }
}
