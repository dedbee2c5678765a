/** The flight waitlist of waitlist.py: a binary max-heap of passengers kept
    in a growable list, the passenger with the highest priority at index 0.
    The Python list the object mutates is the sequence field `heap`, which
    every operation reassigns. */
module Waitlist {

  /** A waiting passenger: whatever the caller stores about them, and the
      priority the heap orders by. */
  datatype Passenger<P> = Passenger(info: P, priority: int)

  /** The exception `heap_maximum_element` raises. */
  datatype QueueError = IndexError(message: string)

  datatype Result<T> = Ok(value: T) | Err(error: QueueError)

  const EmptyMessage := "Maximum Heap Priority queue is empty."

  /** `(index - 1) // 2`; Dafny's division by a positive constant floors
      like Python's, so index 0 gives -1 as it does there. */
  function Parent(i: int): (r: int)
    ensures i == 0 ==> r == -1
    ensures i > 0 ==> 0 <= r < i && (i == 2 * r + 1 || i == 2 * r + 2)
  {
    (i - 1) / 2
  }

  /** Every passenger's priority is at most its parent's. */
  predicate IsMaxHeap<P>(h: seq<Passenger<P>>) {
    forall i :: 0 < i < |h| ==> h[Parent(i)].priority >= h[i].priority
  }

  /** The state `shift_up(k)` repairs: the heap order holds everywhere except
      between k and its parent, and k's parent also dominates k's children. */
  predicate HeapExceptUp<P>(h: seq<Passenger<P>>, k: int) {
    && (forall i :: 0 < i < |h| && i != k ==> h[Parent(i)].priority >= h[i].priority)
    && (forall i :: 0 < i < |h| && Parent(i) == k && k > 0 ==> h[Parent(k)].priority >= h[i].priority)
  }

  /** The state `shift_down(k)` repairs: the heap order holds everywhere except
      between k and its children, and k's parent also dominates k's children. */
  predicate HeapExceptDown<P>(h: seq<Passenger<P>>, k: int) {
    && (forall i :: 0 < i < |h| && Parent(i) != k ==> h[Parent(i)].priority >= h[i].priority)
    && (forall i :: 0 < i < |h| && Parent(i) == k && k > 0 ==> h[Parent(k)].priority >= h[i].priority)
  }

  /** The tuple assignment that exchanges two list entries. */
  function Swap<T>(s: seq<T>, i: int, j: int): (r: seq<T>)
    requires 0 <= i < |s| && 0 <= j < |s|
    ensures |r| == |s| && multiset(r) == multiset(s)
    ensures r[i] == s[j] && r[j] == s[i]
    ensures forall m :: 0 <= m < |s| && m != i && m != j ==> r[m] == s[m]
  {
    s[i := s[j]][j := s[i]]
  }

  /** In a max-heap every ancestor dominates its descendants, so the root
      holds a highest priority. */
  lemma {:induction false} RootIsMax<P>(h: seq<Passenger<P>>, i: int)
    requires IsMaxHeap(h) && 0 <= i < |h|
    ensures h[0].priority >= h[i].priority
    decreases i
  {
    if i > 0 {
      RootIsMax(h, Parent(i));
    }
  }

  /** One step of `shift_up`: swapping k with a lower-priority parent moves
      the only possible violation one level up. */
  lemma SwapUpStep<P>(h: seq<Passenger<P>>, k: int)
    requires 0 < k < |h| && h[k].priority > h[Parent(k)].priority
    requires HeapExceptUp(h, k)
    ensures HeapExceptUp(Swap(h, k, Parent(k)), Parent(k))
  {
    var p := Parent(k);
    var h' := Swap(h, k, p);
    forall i | 0 < i < |h'| && i != p
      ensures h'[Parent(i)].priority >= h'[i].priority
    {
      if i == k {
      } else if Parent(i) == p {
        assert h[p].priority >= h[i].priority;
      } else if Parent(i) == k {
        assert h[Parent(k)].priority >= h[i].priority;
      } else {
        assert Parent(i) != p && h'[i] == h[i];
      }
    }
    forall i | 0 < i < |h'| && Parent(i) == p && p > 0
      ensures h'[Parent(p)].priority >= h'[i].priority
    {
      assert h[Parent(p)].priority >= h[p].priority;
      if i != k {
        assert h[p].priority >= h[i].priority;
      }
    }
  }

  /** One step of `shift_down`: swapping k with its larger child c moves the
      only possible violation down to c. */
  lemma SwapDownStep<P>(h: seq<Passenger<P>>, k: int, c: int)
    requires 0 <= k < c < |h| && Parent(c) == k
    requires h[c].priority > h[k].priority
    requires forall i :: 0 < i < |h| && Parent(i) == k ==> h[c].priority >= h[i].priority
    requires HeapExceptDown(h, k)
    ensures HeapExceptDown(Swap(h, k, c), c)
  {
    var h' := Swap(h, k, c);
    forall i | 0 < i < |h'| && Parent(i) != c
      ensures h'[Parent(i)].priority >= h'[i].priority
    {
      if i == k {
        assert h[Parent(k)].priority >= h[c].priority;
      } else if Parent(i) == k {
      } else {
        assert Parent(i) != k && Parent(i) != c;
      }
    }
    forall i | 0 < i < |h'| && Parent(i) == c && c > 0
      ensures h'[Parent(c)].priority >= h'[i].priority
    {
      assert i != k && i != c;
      assert h[c].priority >= h[i].priority;
    }
  }

  /** Replacing the root of a heap with its last entry and dropping the
      last slot leaves a heap except below the root. */
  lemma LastToRootOrder<P>(h: seq<Passenger<P>>)
    requires IsMaxHeap(h) && |h| > 0
    ensures HeapExceptDown(h[0 := h[|h| - 1]][..|h| - 1], 0)
  {
    var h' := h[0 := h[|h| - 1]][..|h| - 1];
    forall i | 0 < i < |h'| && Parent(i) != 0
      ensures h'[Parent(i)].priority >= h'[i].priority
    {
      assert 0 < Parent(i) < i;
    }
  }

  /** The same move loses exactly the old root. */
  lemma LastToRootContents<T>(h: seq<T>)
    requires |h| > 0
    ensures multiset(h[0 := h[|h| - 1]][..|h| - 1]) == multiset(h) - multiset{h[0]}
  {
    var n := |h|;
    if n > 1 {
      assert h == [h[0]] + h[1..n - 1] + [h[n - 1]];
      assert h[0 := h[n - 1]][..n - 1] == [h[n - 1]] + h[1..n - 1];
    }
  }

  class MaxHeapPriorityQueue<P> {
    /** The heap in level order: the children of index i sit at 2i+1 and 2i+2. */
    var heap: seq<Passenger<P>>

    /** `__init__`: an empty waitlist. */
    constructor()
      ensures heap == []
    {
      heap := [];
    }

    predicate Valid()
      reads this
    {
      IsMaxHeap(heap)
    }

    /** `shift_up`: while the passenger at `index` outranks its parent, swap
        the two and continue from the parent. */
    method ShiftUp(index: int)
      requires 0 <= index < |heap|
      modifies this
      ensures |heap| == old(|heap|) && multiset(heap) == old(multiset(heap))
      ensures old(HeapExceptUp(heap, index)) ==> IsMaxHeap(heap)
      decreases index
    {
      var parentIndex := Parent(index);
      if index > 0 && heap[index].priority > heap[parentIndex].priority {
        if HeapExceptUp(heap, index) {
          SwapUpStep(heap, index);
        }
        heap := Swap(heap, index, parentIndex);
        ShiftUp(parentIndex);
      }
    }

    /** `insert`: append the passenger and let it rise to its place. */
    method Insert(passenger: Passenger<P>)
      modifies this
      ensures |heap| == old(|heap|) + 1
      ensures multiset(heap) == old(multiset(heap)) + multiset{passenger}
      ensures old(Valid()) ==> Valid()
    {
      heap := heap + [passenger];
      ShiftUp(|heap| - 1);
    }

    /** `heap_maximum_element`: the passenger at the root, or the
        `IndexError` an empty waitlist raises. On a valid heap nobody
        waiting has a higher priority. */
    function HeapMaximumElement(): (r: Result<Passenger<P>>)
      reads this
      ensures r.Err? <==> |heap| == 0
      ensures r.Err? ==> r.error == IndexError(EmptyMessage)
      ensures r.Ok? ==> r.value == heap[0]
      ensures r.Ok? && Valid() ==> forall i :: 0 <= i < |heap| ==> heap[i].priority <= r.value.priority
    {
      if IsEmpty() then
        Err(IndexError(EmptyMessage))
      else
        assert forall i :: 0 <= i < |heap| && Valid() ==> heap[i].priority <= heap[0].priority by {
          forall i | 0 <= i < |heap| && Valid() ensures heap[i].priority <= heap[0].priority {
            RootIsMax(heap, i);
          }
        }
        Ok(heap[0])
    }

    /** `shift_down`: swap the passenger at `index` with its larger child,
        the left one on a tie, while that child outranks it. */
    method ShiftDown(index: int)
      requires 0 <= index
      modifies this
      ensures |heap| == old(|heap|) && multiset(heap) == old(multiset(heap))
      ensures old(HeapExceptDown(heap, index)) ==> IsMaxHeap(heap)
      decreases |heap| - index
    {
      var heapSize := |heap|;
      var left := 2 * index + 1;
      var right := 2 * index + 2;
      var largest;
      if left < heapSize && heap[left].priority > heap[index].priority {
        largest := left;
      } else {
        largest := index;
      }
      if right < heapSize && heap[right].priority > heap[largest].priority {
        largest := right;
      }
      if largest != index {
        if HeapExceptDown(heap, index) {
          forall i | 0 < i < |heap| && Parent(i) == index
            ensures heap[largest].priority >= heap[i].priority
          {
            assert i == left || i == right;
          }
          SwapDownStep(heap, index, largest);
        }
        heap := Swap(heap, index, largest);
        ShiftDown(largest);
      } else if HeapExceptDown(heap, index) {
        forall i | 0 < i < |heap| ensures heap[Parent(i)].priority >= heap[i].priority {
          if Parent(i) == index {
            assert i == left || i == right;
          }
        }
      }
    }

    /** `extract_max`: return the root passenger, move the last passenger to
        the root, drop the last slot and let the new root sink. An empty
        waitlist raises `IndexError` and is left as it was. */
    method ExtractMax() returns (r: Result<Passenger<P>>)
      modifies this
      ensures old(heap) == [] ==> r == Err(IndexError(EmptyMessage)) && heap == old(heap)
      ensures old(heap) != [] ==> r == Ok(old(heap)[0])
      ensures old(heap) != [] ==> |heap| == old(|heap|) - 1 && multiset(heap) == old(multiset(heap)) - multiset{r.value}
      ensures old(Valid()) && r.Ok? ==> forall p :: p in old(heap) ==> p.priority <= r.value.priority
      ensures old(Valid()) ==> Valid()
    {
      r := HeapMaximumElement();
      if r.Err? {
        return;
      }
      var h := heap;
      if Valid() {
        forall p | p in h ensures p.priority <= r.value.priority {
          var i :| 0 <= i < |h| && h[i] == p;
        }
        LastToRootOrder(h);
      }
      LastToRootContents(h);
      heap := h[0 := h[|h| - 1]][..|h| - 1];
      ShiftDown(0);
    }

    /** `is_empty`: nobody is waiting. */
    function IsEmpty(): (r: bool)
      reads this
      ensures r <==> heap == []
    {
      |heap| == 0
    }
  }

  /** A passenger whose priority beats everyone else's is the one
      `extract_max` hands out, whatever the heap layout. */
  lemma Served<P>(h: seq<Passenger<P>>, v: Passenger<P>, top: Passenger<P>, rest: multiset<Passenger<P>>)
    requires multiset(h) == rest + multiset{top}
    requires forall p :: p in rest ==> p.priority < top.priority
    requires v in h && forall p :: p in h ==> p.priority <= v.priority
    ensures v == top && multiset(h) - multiset{v} == rest
  {
    assert top in multiset(h);
    assert v in multiset(h);
  }

  /** With two passengers sharing the highest priority, `extract_max` hands
      out one of them and keeps the other. */
  lemma ServedOneOfTwo<P>(h: seq<Passenger<P>>, v: Passenger<P>, t1: Passenger<P>, t2: Passenger<P>, rest: multiset<Passenger<P>>)
    requires multiset(h) == rest + multiset{t1, t2} && t1.priority == t2.priority
    requires forall p :: p in rest ==> p.priority < t1.priority
    requires v in h && forall p :: p in h ==> p.priority <= v.priority
    ensures (v == t1 && multiset(h) - multiset{v} == rest + multiset{t2}) ||
            (v == t2 && multiset(h) - multiset{v} == rest + multiset{t1})
  {
    assert t1 in multiset(h);
    assert v in multiset(h);
  }

  /** `extract_max` on a valid waitlist whose highest priority belongs to
      one passenger only. */
  method ServeTop<P>(q: MaxHeapPriorityQueue<P>, top: Passenger<P>, ghost rest: multiset<Passenger<P>>)
    returns (v: Passenger<P>)
    requires q.Valid() && multiset(q.heap) == rest + multiset{top}
    requires forall p :: p in rest ==> p.priority < top.priority
    modifies q
    ensures v == top && q.Valid() && multiset(q.heap) == rest
  {
    ghost var h := q.heap;
    var r := q.ExtractMax();
    Served(h, r.value, top, rest);
    v := r.value;
  }

  /** Two `extract_max` calls on a valid waitlist whose two highest
      priorities are shared by two passengers: both leave, one after the other. */
  method ServeTied<P(==)>(q: MaxHeapPriorityQueue<P>, t1: Passenger<P>, t2: Passenger<P>, ghost rest: multiset<Passenger<P>>)
    returns (v1: Passenger<P>, v2: Passenger<P>)
    requires q.Valid() && multiset(q.heap) == rest + multiset{t1, t2} && t1.priority == t2.priority
    requires forall p :: p in rest ==> p.priority < t1.priority
    modifies q
    ensures (v1 == t1 && v2 == t2) || (v1 == t2 && v2 == t1)
    ensures q.Valid() && multiset(q.heap) == rest
  {
    ghost var h := q.heap;
    var r := q.ExtractMax();
    ServedOneOfTwo(h, r.value, t1, t2, rest);
    v1 := r.value;
    v2 := ServeTop(q, if v1 == t1 then t2 else t1, rest);
  }

  /** The passengers of the usage example at the end of waitlist.py, all
      waiting for flight 1400. */
  const Sujan := Passenger("Sujan", 5)
  const Zach := Passenger("Zach", 3)
  const Akku := Passenger("Akku", 2)
  const Kamal := Passenger("Kamal", 4)
  const Max := Passenger("Max", 1)
  const Caleb := Passenger("Caleb", 4)

  /** The example's six `insert` calls on a new waitlist. */
  method ExampleWaitlist() returns (q: MaxHeapPriorityQueue<string>)
    ensures fresh(q) && q.Valid()
    ensures multiset(q.heap) == multiset{Zach, Akku, Max} + multiset{Kamal, Caleb} + multiset{Sujan}
  {
    q := new MaxHeapPriorityQueue<string>();
    q.Insert(Sujan);
    q.Insert(Zach);
    q.Insert(Akku);
    q.Insert(Kamal);
    q.Insert(Max);
    q.Insert(Caleb);
  }

  /** The usage example at the end of waitlist.py: six passengers join the
      waitlist and are taken off it highest priority first. The two
      passengers with priority 4 leave second and third, in an order the
      heap layout decides; the waitlist is empty only at the end. */
  method WaitlistExample() returns (served: seq<string>, emptyAfterThree: bool, emptyAfterSix: bool)
    ensures served == ["Sujan", "Kamal", "Caleb", "Zach", "Akku", "Max"] ||
            served == ["Sujan", "Caleb", "Kamal", "Zach", "Akku", "Max"]
    ensures !emptyAfterThree && emptyAfterSix
  {
    var q := ExampleWaitlist();
    ghost var low := multiset{Zach, Akku, Max};
    var first := ServeTop(q, Sujan, low + multiset{Kamal, Caleb});

    var second, third := ServeTied(q, Kamal, Caleb, low);
    emptyAfterThree := q.IsEmpty();
    assert |q.heap| == 3;

    var fourth := ServeTop(q, Zach, multiset{Akku, Max});
    var fifth := ServeTop(q, Akku, multiset{Max});
    var sixth := ServeTop(q, Max, multiset{});
    emptyAfterSix := q.IsEmpty();
    assert |q.heap| == 0;

    served := [first.info, second.info, third.info, fourth.info, fifth.info, sixth.info];
  }
}
