/**
 The Vec-backed doubly linked list of monolake-services/src/common/cancel/linked_list.rs.

 `SlabSpec` is the reference: an insertion-ordered sequence of (handle, value) beside a
 LIFO stack of vacated handles.  `LinkedList` is the code: three indices and a vector of
 nodes, updated in place.  Every method is proved against the reference, and the whole-run
 theorems are proved about the reference.
 */
module SlabSpec {
  import opened Wrappers
  import opened Sequences

  datatype Entry<T> = Entry(handle: nat, value: T)

  /** `live` in insertion order, `free` with the next handle to reuse first, `size` nodes allocated. */
  datatype Slab<T> = Slab(live: seq<Entry<T>>, free: seq<nat>, size: nat)

  datatype Op<T> = Push(value: T) | Remove(handle: nat) | Write(handle: nat, value: T)

  predicate Live<T>(s: Slab<T>, h: nat) {
    exists k :: 0 <= k < |s.live| && s.live[k].handle == h
  }

  ghost function Position<T>(s: Slab<T>, h: nat): (k: nat)
    requires Live(s, h)
    ensures k < |s.live| && s.live[k].handle == h
  {
    var k :| 0 <= k < |s.live| && s.live[k].handle == h; k
  }

  ghost function Lookup<T>(s: Slab<T>, h: nat): (r: Option<T>)
    ensures r.Some? ==> Entry(h, r.value) in s.live
    ensures r.None? ==> forall k :: 0 <= k < |s.live| ==> s.live[k].handle != h
  {
    if Live(s, h) then Some(s.live[Position(s, h)].value) else None
  }

  /** Reuse comes before growth. */
  function NextHandle<T>(s: Slab<T>): nat {
    if s.free == [] then s.size else s.free[0]
  }

  function Pushed<T>(s: Slab<T>, v: T): Slab<T> {
    var live := s.live + [Entry(NextHandle(s), v)];
    if s.free == [] then Slab(live, [], s.size + 1) else Slab(live, s.free[1..], s.size)
  }

  ghost function Removed<T>(s: Slab<T>, h: nat): Slab<T> {
    if Live(s, h) then s.(live := Delete(s.live, Position(s, h)), free := [h] + s.free) else s
  }

  ghost function Written<T>(s: Slab<T>, h: nat, v: T): Slab<T> {
    if Live(s, h) then s.(live := s.live[Position(s, h) := Entry(h, v)]) else s
  }

  ghost function Apply<T>(s: Slab<T>, op: Op<T>): Slab<T> {
    match op
    case Push(v) => Pushed(s, v)
    case Remove(h) => Removed(s, h)
    case Write(h, v) => Written(s, h, v)
  }

  /** The slab after a whole history of operations on a new list. */
  ghost function Run<T>(ops: seq<Op<T>>): Slab<T> {
    if ops == [] then Slab([], [], 0) else Apply(Run(ops[..|ops| - 1]), ops[|ops| - 1])
  }

  /** Live and vacant handles partition the allocated range, without repetition. */
  ghost predicate Partition<T>(s: Slab<T>) {
    && (forall i, j :: 0 <= i < j < |s.live| ==> s.live[i].handle != s.live[j].handle)
    && (forall i, j :: 0 <= i < j < |s.free| ==> s.free[i] != s.free[j])
    && (forall h: nat :: h < s.size <==> Live(s, h) || h in s.free)
    && (forall h: nat :: !(Live(s, h) && h in s.free))
    && |s.live| + |s.free| == s.size
  }

  lemma PushedPartition<T>(s: Slab<T>, v: T)
    requires Partition(s)
    ensures Partition(Pushed(s, v))
  {
    var t, h := Pushed(s, v), NextHandle(s);
    assert s.free != [] ==> s.free[0] in s.free && s.free == [h] + t.free;
    forall g: nat ensures Live(t, g) <==> Live(s, g) || g == h {
      if Live(s, g) {
        assert t.live[Position(s, g)].handle == g;
      }
      assert t.live[|s.live|].handle == h;
    }
    forall i | 0 <= i < |s.live| ensures s.live[i].handle != h {
      assert Live(s, s.live[i].handle);
    }
  }

  lemma RemovedPartition<T>(s: Slab<T>, h: nat)
    requires Partition(s) && Live(s, h)
    ensures Partition(Removed(s, h))
  {
    var t, k := Removed(s, h), Position(s, h);
    assert forall i {:trigger t.live[i]} :: 0 <= i < |t.live| ==> t.live[i] == s.live[if i < k then i else i + 1];
    forall g: nat ensures Live(t, g) <==> Live(s, g) && g != h {
      if Live(s, g) && g != h {
        var i := Position(s, g);
        assert t.live[if i < k then i else i - 1].handle == g;
      }
    }
    forall g: nat ensures g in t.free <==> g in s.free || g == h {
      assert t.free[0] == h;
    }
    assert forall i {:trigger t.free[i]} :: 0 < i < |t.free| ==> t.free[i] == s.free[i - 1] && t.free[i] in s.free;
  }

  lemma WrittenPartition<T>(s: Slab<T>, h: nat, v: T)
    requires Partition(s) && Live(s, h)
    ensures Partition(Written(s, h, v))
  {
    var t := Written(s, h, v);
    assert forall i :: 0 <= i < |s.live| ==> t.live[i].handle == s.live[i].handle;
    forall g: nat ensures Live(t, g) <==> Live(s, g) {
      if Live(s, g) {
        assert t.live[Position(s, g)].handle == g;
      }
    }
  }

  lemma ApplyPartition<T>(s: Slab<T>, op: Op<T>)
    requires Partition(s)
    ensures Partition(Apply(s, op))
  {
    match op
    case Push(v) => PushedPartition(s, v);
    case Remove(h) => if Live(s, h) { RemovedPartition(s, h); }
    case Write(h, v) => if Live(s, h) { WrittenPartition(s, h, v); }
  }

  lemma {:induction false} RunPartition<T>(ops: seq<Op<T>>)
    ensures Partition(Run(ops))
  {
    if ops != [] {
      RunPartition(ops[..|ops| - 1]);
      ApplyPartition(Run(ops[..|ops| - 1]), ops[|ops| - 1]);
    }
  }

  lemma {:induction false} RunSize<T>(ops: seq<Op<T>>)
    ensures Run(ops).size <= |ops|
  {
    if ops != [] {
      RunSize(ops[..|ops| - 1]);
    }
  }

  /** The largest number of values that were ever live at once during the history. */
  ghost function Peak<T>(ops: seq<Op<T>>): nat {
    if ops == [] then 0 else
      var before := Peak(ops[..|ops| - 1]);
      if |Run(ops).live| > before then |Run(ops).live| else before
  }

  /** No node leaks: the vector is exactly as long as the largest live population so far. */
  lemma {:induction false} SizeIsPeak<T>(ops: seq<Op<T>>)
    ensures Run(ops).size == Peak(ops)
  {
    if ops != [] {
      SizeIsPeak(ops[..|ops| - 1]);
      RunPartition(ops[..|ops| - 1]);
      RunPartition(ops);
    }
  }

  /** What an operation answers: the new handle, the value taken out, or whether a value was found. */
  datatype Answer<T> = Handle(handle: nat) | Taken(value: Option<T>) | Found(found: bool)

  ghost function AnswerTo<T>(s: Slab<T>, op: Op<T>): Answer<T> {
    match op
    case Push(_) => Handle(NextHandle(s))
    case Remove(h) => Taken(Lookup(s, h))
    case Write(h, _) => Found(Live(s, h))
  }

  // ----- traversal order -----

  /** The handle that the p-th operation returned, when it was a push. */
  ghost function HandleAt<T>(ops: seq<Op<T>>, p: nat): nat
    requires p < |ops|
  {
    NextHandle(Run(ops[..p]))
  }

  /** The p-th operation pushed a value that no later operation removed. */
  ghost predicate Survives<T>(ops: seq<Op<T>>, p: nat) {
    p < |ops| && ops[p].Push? &&
    forall q :: p < q < |ops| ==> ops[q] != Remove(HandleAt(ops, p))
  }

  /** The value last stored for the push at p: its own, or that of the latest write to its handle. */
  ghost function LastValue<T>(ops: seq<Op<T>>, p: nat): T
    requires p < |ops| && ops[p].Push?
  {
    var last := ops[|ops| - 1];
    if p == |ops| - 1 then last.value
    else if last.Write? && last.handle == HandleAt(ops, p) then last.value
    else LastValue(ops[..|ops| - 1], p)
  }

  /** The operations whose values are still in the list, in list order. */
  ghost function Births<T>(ops: seq<Op<T>>): (b: seq<nat>)
    ensures |b| == |Run(ops).live|
  {
    if ops == [] then [] else
      var init, last := ops[..|ops| - 1], ops[|ops| - 1];
      match last
      case Push(_) => Births(init) + [|init|]
      case Remove(h) => if Live(Run(init), h) then Delete(Births(init), Position(Run(init), h)) else Births(init)
      case Write(_, _) => Births(init)
  }

  lemma InitAgrees<T>(ops: seq<Op<T>>, p: nat)
    requires p < |ops| - 1
    ensures HandleAt(ops[..|ops| - 1], p) == HandleAt(ops, p)
    ensures Survives(ops, p) <==> Survives(ops[..|ops| - 1], p) && ops[|ops| - 1] != Remove(HandleAt(ops, p))
  {
    assert ops[..|ops| - 1][..p] == ops[..p];
  }

  /** What the k-th list entry is, in terms of the history alone. */
  ghost predicate BornAt<T>(ops: seq<Op<T>>, k: nat, p: nat)
    requires k < |Run(ops).live|
  {
    && Survives(ops, p)
    && Run(ops).live[k] == Entry(HandleAt(ops, p), LastValue(ops, p))
  }

  lemma BornAtStep<T>(ops: seq<Op<T>>, k: nat, j: nat, p: nat)
    requires ops != []
    requires k < |Run(ops).live| && j < |Run(ops[..|ops| - 1]).live|
    requires BornAt(ops[..|ops| - 1], j, p)
    requires var h := Run(ops[..|ops| - 1]).live[j].handle;
             && ops[|ops| - 1] != Remove(h)
             && Run(ops).live[k] == if ops[|ops| - 1].Write? && ops[|ops| - 1].handle == h
                                    then Entry(h, ops[|ops| - 1].value) else Run(ops[..|ops| - 1]).live[j]
    ensures BornAt(ops, k, p)
  {
    InitAgrees(ops, p);
  }

  /**
   Main result: over every history the list holds exactly the pushes whose handle was not
   removed afterwards, in the order in which they were pushed, each under the handle its push
   returned and with the value written last.
   */
  lemma {:induction false} TraversalIsInsertionOrder<T>(ops: seq<Op<T>>)
    ensures forall i, j :: 0 <= i < j < |Births(ops)| ==> Births(ops)[i] < Births(ops)[j]
    ensures forall p: nat :: Survives(ops, p) <==> p in Births(ops)
    ensures forall k :: 0 <= k < |Births(ops)| ==> BornAt(ops, k, Births(ops)[k])
  {
    if ops != [] {
      var init, last := ops[..|ops| - 1], ops[|ops| - 1];
      TraversalIsInsertionOrder(init);
      RunPartition(init);
      forall k | 0 <= k < |Births(init)| ensures Births(init)[k] < |init| {
        assert BornAt(init, k, Births(init)[k]);
      }
      BirthsIncrease(ops);
      forall k | 0 <= k < |Births(ops)| ensures BornAt(ops, k, Births(ops)[k]) {
        BirthStep(ops, k);
      }
      SurvivorsStep(ops);
    }
  }

  /** Where the k-th entry after the last operation stood before it. */
  ghost function Before<T>(ops: seq<Op<T>>, k: nat): nat
    requires ops != []
  {
    var init, last := ops[..|ops| - 1], ops[|ops| - 1];
    if last.Remove? && Live(Run(init), last.handle) && k >= Position(Run(init), last.handle) then k + 1 else k
  }

  lemma EntryStep<T>(ops: seq<Op<T>>, k: nat)
    requires ops != []
    requires Partition(Run(ops[..|ops| - 1]))
    requires k < |Run(ops).live| && Before(ops, k) < |Run(ops[..|ops| - 1]).live|
    ensures var h := Run(ops[..|ops| - 1]).live[Before(ops, k)].handle;
            && ops[|ops| - 1] != Remove(h)
            && Run(ops).live[k] == if ops[|ops| - 1].Write? && ops[|ops| - 1].handle == h
                                   then Entry(h, ops[|ops| - 1].value)
                                   else Run(ops[..|ops| - 1]).live[Before(ops, k)]
  {
    var s := Run(ops[..|ops| - 1]);
    assert Live(s, s.live[Before(ops, k)].handle);
  }

  lemma BirthsBefore<T>(ops: seq<Op<T>>, k: nat)
    requires ops != [] && k < |Births(ops)|
    ensures var init := ops[..|ops| - 1];
            if Before(ops, k) < |Births(init)| then Births(ops)[k] == Births(init)[Before(ops, k)]
            else Births(ops)[k] == |init| == |ops| - 1 && ops[|init|].Push? && k == |Births(init)|
  {
    hide Run, Live, Position, Delete;
    var init, last := ops[..|ops| - 1], ops[|ops| - 1];
    match last
    case Push(_) => assert Births(ops) == Births(init) + [|init|];
    case Remove(h) =>
      if Live(Run(init), h) {
        DeletedAt(Births(init), Position(Run(init), h), k);
      }
    case Write(_, _) => assert Births(ops) == Births(init);
  }

  lemma BirthsIncrease<T>(ops: seq<Op<T>>)
    requires ops != []
    requires var init := ops[..|ops| - 1];
             && (forall i, j :: 0 <= i < j < |Births(init)| ==> Births(init)[i] < Births(init)[j])
             && (forall k :: 0 <= k < |Births(init)| ==> Births(init)[k] < |init|)
    ensures forall i, j :: 0 <= i < j < |Births(ops)| ==> Births(ops)[i] < Births(ops)[j]
  {
  }

  lemma BirthStep<T>(ops: seq<Op<T>>, k: nat)
    requires ops != [] && k < |Births(ops)|
    requires Partition(Run(ops[..|ops| - 1]))
    requires var init := ops[..|ops| - 1];
             forall i :: 0 <= i < |Births(init)| ==> BornAt(init, i, Births(init)[i])
    ensures BornAt(ops, k, Births(ops)[k])
  {
    var init, j := ops[..|ops| - 1], Before(ops, k);
    BirthsBefore(ops, k);
    if j < |Births(init)| {
      assert BornAt(init, j, Births(init)[j]);
      EntryStep(ops, k);
      BornAtStep(ops, k, j, Births(init)[j]);
    }
  }

  /** A birth stays in the list unless the last operation removes that very entry. */
  lemma BirthStays<T>(ops: seq<Op<T>>, k: nat)
    requires ops != [] && k < |Births(ops[..|ops| - 1])|
    requires var s, last := Run(ops[..|ops| - 1]), ops[|ops| - 1];
             last.Remove? && Live(s, last.handle) ==> Position(s, last.handle) != k
    ensures Births(ops[..|ops| - 1])[k] in Births(ops)
  {
    hide Run, Live, Position, Delete;
    var init, last := ops[..|ops| - 1], ops[|ops| - 1];
    match last
    case Push(_) => assert Births(ops)[k] == Births(init)[k];
    case Remove(h) =>
      if Live(Run(init), h) {
        var p := Position(Run(init), h);
        DeletedAt(Births(init), p, if k < p then k else k - 1);
      } else {
        assert Births(ops)[k] == Births(init)[k];
      }
    case Write(_, _) => assert Births(ops)[k] == Births(init)[k];
  }

  lemma SurvivorsStep<T>(ops: seq<Op<T>>)
    requires ops != []
    requires var init := ops[..|ops| - 1];
             && (forall p: nat :: Survives(init, p) <==> p in Births(init))
             && (forall k :: 0 <= k < |Births(init)| ==> BornAt(init, k, Births(init)[k]))
    requires forall k :: 0 <= k < |Births(ops)| ==> BornAt(ops, k, Births(ops)[k])
    ensures forall p: nat :: Survives(ops, p) <==> p in Births(ops)
  {
    forall p: nat | Survives(ops, p) ensures p in Births(ops) {
      SurvivorKept(ops, p);
    }
  }

  lemma SurvivorKept<T>(ops: seq<Op<T>>, p: nat)
    requires Survives(ops, p)
    requires var init := ops[..|ops| - 1];
             && (Survives(init, p) ==> p in Births(init))
             && (forall k :: 0 <= k < |Births(init)| ==> BornAt(init, k, Births(init)[k]))
    ensures p in Births(ops)
  {
    var init := ops[..|ops| - 1];
    if p == |init| {
      assert Births(ops)[|Births(init)|] == p;
    } else {
      InitAgrees(ops, p);
      var k :| 0 <= k < |Births(init)| && Births(init)[k] == p;
      assert BornAt(init, k, p);
      BirthStays(ops, k);
    }
  }
}

module SlabList {
  import opened Wrappers
  import opened Sequences
  import opened SlabSpec

  /** `usize::MAX` on a 64-bit target. */
  const NULL: nat := 0xFFFF_FFFF_FFFF_FFFF

  datatype Node<T> = Node(prev: nat, next: nat, data: Option<T>)

  function At(chain: seq<nat>, k: int): nat {
    if 0 <= k < |chain| then chain[k] else NULL
  }

  ghost predicate Distinct(chain: seq<nat>) {
    forall i, j :: 0 <= i < j < |chain| ==> chain[i] != chain[j]
  }

  /** Following `next` from `head` visits exactly the occupied nodes, in the order of `chain`. */
  ghost predicate Chain<T>(head: nat, data: seq<Node<T>>, chain: seq<nat>) {
    && |data| <= NULL
    && Distinct(chain)
    && head == At(chain, 0)
    && (forall k :: 0 <= k < |chain| ==> chain[k] < |data|)
    && (forall k {:trigger data[chain[k]]} :: 0 <= k < |chain| ==>
          data[chain[k]].data.Some? && data[chain[k]].next == At(chain, k + 1))
    && (forall i :: 0 <= i < |data| && data[i].data.Some? ==> i in chain)
  }

  function Entries<T>(data: seq<Node<T>>, chain: seq<nat>): (e: seq<Entry<T>>)
    requires forall k :: 0 <= k < |chain| ==> chain[k] < |data| && data[chain[k]].data.Some?
  {
    seq(|chain|, k requires 0 <= k < |chain| => Entry(chain[k], data[chain[k]].data.value))
  }

  function Values<T>(data: seq<Node<T>>, chain: seq<nat>): (v: seq<T>)
    requires forall k :: 0 <= k < |chain| ==> chain[k] < |data| && data[chain[k]].data.Some?
    ensures |v| == |chain|
  {
    seq(|chain|, k requires 0 <= k < |chain| => data[chain[k]].data.value)
  }

  /** `prev` is the inverse of `next` along the chain. */
  ghost predicate Back<T>(tail: nat, data: seq<Node<T>>, chain: seq<nat>) {
    && (forall k :: 0 <= k < |chain| ==> chain[k] < |data|)
    && tail == At(chain, |chain| - 1)
    && (forall k {:trigger data[chain[k]]} :: 0 <= k < |chain| ==> data[chain[k]].prev == At(chain, k - 1))
  }

  /**
   The vacant nodes form a chain of their own.  The last conjunct is what makes reuse sound:
   neither removal nor reuse ever resets `prev`, so a node taken from the free list by an empty
   list must already carry a NULL `prev`.
   */
  ghost predicate Vacant<T>(vacancyHead: nat, data: seq<Node<T>>, chain: seq<nat>, free: seq<nat>) {
    && Distinct(free)
    && vacancyHead == At(free, 0)
    && (forall k :: 0 <= k < |free| ==> free[k] < |data|)
    && (forall k {:trigger data[free[k]]} :: 0 <= k < |free| ==>
          data[free[k]].data.None? && data[free[k]].next == At(free, k + 1))
    && (forall i :: 0 <= i < |data| && data[i].data.None? ==> i in free)
    && |chain| + |free| == |data|
    && (chain == [] && free != [] ==> data[free[0]].prev == NULL)
  }

  // ----- what the updates of push_back and remove do to each chain -----

  /** The node that `push_back` fills, linked behind `tail`. */
  ghost predicate Appended<T>(data: seq<Node<T>>, after: seq<Node<T>>, idx: nat, tail: nat, val: T) {
    && |data| <= |after| <= NULL && idx < |after|
    && (idx < |data| ==> |after| == |data|)
    && (idx >= |data| ==> idx == |data| && |after| == |data| + 1)
    && after[idx].next == NULL && after[idx].data == Some(val)
    && (tail != NULL || idx >= |data| ==> after[idx].prev == tail)
    && (tail == NULL && idx < |data| ==> after[idx].prev == data[idx].prev)
    && forall i :: 0 <= i < |data| && i != idx ==> after[i] == if i == tail then data[i].(next := idx) else data[i]
  }

  lemma AppendedChain<T>(head: nat, data: seq<Node<T>>, after: seq<Node<T>>, chain: seq<nat>, idx: nat,
      tail: nat, val: T)
    requires Chain(head, data, chain) && Back(tail, data, chain)
    requires Appended(data, after, idx, tail, val)
    requires idx < |data| ==> data[idx].data.None?
    ensures Chain(At(chain + [idx], 0), after, chain + [idx])
  {
  }

  lemma AppendedBack<T>(head: nat, data: seq<Node<T>>, after: seq<Node<T>>, chain: seq<nat>, idx: nat,
      tail: nat, val: T)
    requires Chain(head, data, chain) && Back(tail, data, chain)
    requires Appended(data, after, idx, tail, val)
    requires idx < |data| ==> data[idx].data.None?
    requires chain == [] && idx < |data| ==> data[idx].prev == NULL
    ensures Back(idx, after, chain + [idx])
  {
  }

  lemma AppendedVacant<T>(data: seq<Node<T>>, after: seq<Node<T>>, chain: seq<nat>, free: seq<nat>, idx: nat,
      tail: nat, val: T)
    requires Vacant(At(free, 0), data, chain, free)
    requires forall k :: 0 <= k < |chain| ==> chain[k] < |data| && data[chain[k]].data.Some?
    requires tail == At(chain, |chain| - 1)
    requires Appended(data, after, idx, tail, val)
    requires idx == if free == [] then |data| else free[0]
    ensures var rest := if free == [] then [] else free[1..];
            Vacant(At(rest, 0), after, chain + [idx], rest)
  {
    var rest := if free == [] then [] else free[1..];
    forall k | 0 <= k < |rest|
      ensures rest[k] < |after| && after[rest[k]].data.None? && after[rest[k]].next == At(rest, k + 1)
    {
      assert rest[k] == free[k + 1] && data[free[k + 1]].data.None?;
    }
    forall i | 0 <= i < |after| && after[i].data.None? ensures i in rest {
      var j :| 0 <= j < |free| && free[j] == i;
      assert rest[j - 1] == i;
    }
  }

  lemma AppendedEntries<T>(data: seq<Node<T>>, after: seq<Node<T>>, chain: seq<nat>, idx: nat, val: T)
    requires forall k :: 0 <= k < |chain| ==> chain[k] < |data| && data[chain[k]].data.Some?
    requires idx < |data| ==> data[idx].data.None?
    requires idx < |after| && |data| <= |after| && after[idx].data == Some(val)
    requires forall i :: 0 <= i < |data| && i != idx ==> after[i].data == data[i].data
    ensures forall k :: 0 <= k < |chain| ==> after[chain[k]].data.Some?
    ensures Entries(after, chain + [idx]) == Entries(data, chain) + [Entry(idx, val)]
  {
  }

  lemma Ends<T>(head: nat, tail: nat, vacancyHead: nat, data: seq<Node<T>>, chain: seq<nat>, free: seq<nat>)
    requires Chain(head, data, chain) && Back(tail, data, chain) && Vacant(vacancyHead, data, chain, free)
    ensures |data| <= NULL && head == At(chain, 0) && vacancyHead == At(free, 0)
    ensures tail == NULL <==> chain == []
    ensures tail != NULL ==> tail < |data| && data[tail].data.Some?
    ensures vacancyHead == NULL <==> free == []
    ensures chain == [] && free != [] ==> data[free[0]].prev == NULL
    ensures tail == At(chain, |chain| - 1)
    ensures free != [] ==> free[0] < |data| && data[free[0]].data.None? && data[free[0]].next == At(free[1..], 0)
  {
  }

  lemma Occupied<T>(head: nat, data: seq<Node<T>>, chain: seq<nat>)
    requires Chain(head, data, chain)
    ensures forall k :: 0 <= k < |chain| ==> chain[k] < |data| && data[chain[k]].data.Some?
  {
  }

  /** The two groups of assignments in `push_back`: fill a node, then link it behind the tail. */
  ghost predicate FilledThenLinked<T>(data: seq<Node<T>>, filled: seq<Node<T>>, after: seq<Node<T>>,
                                      idx: nat, tail: nat, val: T) {
    && (if idx < |data| then filled == data[idx := data[idx].(next := NULL, data := Some(val))]
        else idx == |data| && filled == data + [Node(NULL, NULL, Some(val))])
    && (if tail == NULL then after == filled
        else tail < |filled|
             && after == filled[tail := filled[tail].(next := idx)][idx := filled[idx].(prev := tail)])
  }

  lemma PushedChains<T>(head: nat, tail: nat, data: seq<Node<T>>, filled: seq<Node<T>>, after: seq<Node<T>>,
                        chain: seq<nat>, free: seq<nat>, idx: nat, val: T)
    requires Chain(head, data, chain) && Back(tail, data, chain) && Vacant(At(free, 0), data, chain, free)
    requires free == [] ==> |data| < NULL
    requires idx == if free == [] then |data| else free[0]
    requires FilledThenLinked(data, filled, after, idx, tail, val)
    ensures var c, rest := chain + [idx], if free == [] then [] else free[1..];
            && Chain(At(c, 0), after, c) && Back(idx, after, c) && Vacant(At(rest, 0), after, c, rest)
            && Entries(after, c) == Entries(data, chain) + [Entry(idx, val)]
  {
    hide Chain, Back, Vacant, FilledThenLinked;
    Ends(head, tail, At(free, 0), data, chain, free);
    Occupied(head, data, chain);
    FillAppends(data, filled, after, idx, tail, val);
    AppendedChain(head, data, after, chain, idx, tail, val);
    AppendedBack(head, data, after, chain, idx, tail, val);
    AppendedVacant(data, after, chain, free, idx, tail, val);
    AppendedEntries(data, after, chain, idx, val);
  }

  lemma FillAppends<T>(data: seq<Node<T>>, filled: seq<Node<T>>, after: seq<Node<T>>, idx: nat, tail: nat, val: T)
    requires FilledThenLinked(data, filled, after, idx, tail, val)
    requires |data| <= NULL && (idx >= |data| ==> |data| < NULL)
    requires tail != NULL ==> tail < |data| && tail != idx
    ensures Appended(data, after, idx, tail, val)
  {
  }

  /** The node that `remove` vacates, its neighbours linked to each other. */
  ghost predicate Unlinked<T>(data: seq<Node<T>>, after: seq<Node<T>>, idx: nat, vacancyHead: nat) {
    && |after| == |data| && idx < |data|
    && after[idx] == Node(data[idx].prev, vacancyHead, None)
    && forall i :: 0 <= i < |data| && i != idx ==>
         after[i] == Node(if i == data[idx].next then data[idx].prev else data[i].prev,
                          if i == data[idx].prev then data[idx].next else data[i].next,
                          data[i].data)
  }

  /** An occupied node's links lead to occupied nodes other than itself, or to NULL at the ends. */
  lemma Neighbours<T>(head: nat, tail: nat, data: seq<Node<T>>, chain: seq<nat>, k: nat)
    requires Chain(head, data, chain) && Back(tail, data, chain) && k < |chain|
    ensures data[chain[k]].prev == At(chain, k - 1) && data[chain[k]].next == At(chain, k + 1)
    ensures k > 0 ==> chain[k - 1] < |data| && chain[k - 1] != chain[k]
    ensures k + 1 < |chain| ==> chain[k + 1] < |data| && chain[k + 1] != chain[k]
    ensures k > 0 && k + 1 < |chain| ==> chain[k - 1] != chain[k + 1]
    ensures data[chain[k]].data.Some? && chain[k] < |data| <= NULL && Distinct(chain)
  {
  }

  lemma UnlinkedAt<T>(head: nat, data: seq<Node<T>>, after: seq<Node<T>>, chain: seq<nat>, k: nat, tail: nat,
      vacancyHead: nat, i: nat)
    requires Chain(head, data, chain) && Back(tail, data, chain)
    requires k < |chain| && Unlinked(data, after, chain[k], vacancyHead)
    requires i < |chain| - 1
    ensures var c := Delete(chain, k);
            && c[i] < |after| && after[c[i]].data.Some?
            && after[c[i]].next == At(c, i + 1) && after[c[i]].prev == At(c, i - 1)
  {
  }

  lemma UnlinkedChain<T>(head: nat, data: seq<Node<T>>, after: seq<Node<T>>, chain: seq<nat>, k: nat,
      tail: nat, vacancyHead: nat)
    requires Chain(head, data, chain) && Back(tail, data, chain)
    requires k < |chain| && Unlinked(data, after, chain[k], vacancyHead)
    ensures Chain(At(Delete(chain, k), 0), after, Delete(chain, k))
    ensures Back(At(Delete(chain, k), |chain| - 2), after, Delete(chain, k))
  {
    var c := Delete(chain, k);
    forall i | 0 <= i < |c|
      ensures c[i] < |after| && after[c[i]].data.Some?
      ensures after[c[i]].next == At(c, i + 1) && after[c[i]].prev == At(c, i - 1)
    {
      UnlinkedAt(head, data, after, chain, k, tail, vacancyHead, i);
    }
    UnlinkedCovers(head, data, after, chain, k, vacancyHead);
  }

  lemma UnlinkedCovers<T>(head: nat, data: seq<Node<T>>, after: seq<Node<T>>, chain: seq<nat>, k: nat,
      vacancyHead: nat)
    requires Chain(head, data, chain)
    requires k < |chain| && Unlinked(data, after, chain[k], vacancyHead)
    ensures Distinct(Delete(chain, k))
    ensures forall i :: 0 <= i < |after| && after[i].data.Some? ==> i in Delete(chain, k)
  {
  }

  lemma UnlinkedVacant<T>(head: nat, data: seq<Node<T>>, after: seq<Node<T>>, chain: seq<nat>, free: seq<nat>,
      k: nat, tail: nat)
    requires Chain(head, data, chain) && Back(tail, data, chain) && Vacant(At(free, 0), data, chain, free)
    requires k < |chain| && Unlinked(data, after, chain[k], At(free, 0))
    ensures Vacant(chain[k], after, Delete(chain, k), [chain[k]] + free)
  {
  }

  lemma UnlinkedEntries<T>(data: seq<Node<T>>, after: seq<Node<T>>, chain: seq<nat>, k: nat)
    requires forall i :: 0 <= i < |chain| ==> chain[i] < |data| && data[chain[i]].data.Some?
    requires Distinct(chain) && k < |chain| && |after| == |data|
    requires forall i :: 0 <= i < |data| && i != chain[k] ==> after[i].data == data[i].data
    ensures forall i :: 0 <= i < |Delete(chain, k)| ==> after[Delete(chain, k)[i]].data.Some?
    ensures Entries(after, Delete(chain, k)) == Delete(Entries(data, chain), k)
  {
  }

  lemma LiveInChain<T>(head: nat, data: seq<Node<T>>, chain: seq<nat>, s: Slab<T>)
    requires Chain(head, data, chain) && s.live == Entries(data, chain)
    ensures forall h: nat :: Live(s, h) <==> h < |data| && data[h].data.Some?
    ensures forall i, j :: 0 <= i < j < |s.live| ==> s.live[i].handle != s.live[j].handle
    ensures |s.live| == |chain|
  {
    forall h: nat ensures Live(s, h) <==> h < |data| && data[h].data.Some? {
      if h < |data| && data[h].data.Some? {
        var k :| 0 <= k < |chain| && chain[k] == h;
        assert s.live[k].handle == h;
      }
    }
  }

  lemma PartitionFromChains<T>(head: nat, vacancyHead: nat, data: seq<Node<T>>, chain: seq<nat>, free: seq<nat>)
    requires Chain(head, data, chain) && Vacant(vacancyHead, data, chain, free)
    ensures Partition(Slab(Entries(data, chain), free, |data|))
  {
    hide Chain, Live;
    Occupied(head, data, chain);
    LiveInChain(head, data, chain, Slab(Entries(data, chain), free, |data|));
    assert forall k {:trigger free[k]} :: 0 <= k < |free| ==> data[free[k]].data.None?;
  }

  function Stored<T>(data: seq<Node<T>>, idx: nat, val: T): seq<Node<T>>
    requires idx < |data|
  {
    data[idx := data[idx].(data := Some(val))]
  }

  lemma StoredChain<T>(head: nat, data: seq<Node<T>>, chain: seq<nat>, k: nat, val: T)
    requires Chain(head, data, chain) && k < |chain|
    ensures Chain(head, Stored(data, chain[k], val), chain)
    ensures Entries(Stored(data, chain[k], val), chain) == Entries(data, chain)[k := Entry(chain[k], val)]
  {
  }

  lemma StoredBack<T>(head: nat, tail: nat, data: seq<Node<T>>, chain: seq<nat>, k: nat, val: T)
    requires Chain(head, data, chain) && Back(tail, data, chain) && k < |chain|
    ensures Back(tail, Stored(data, chain[k], val), chain)
  {
  }

  lemma StoredVacant<T>(head: nat, vacancyHead: nat, data: seq<Node<T>>, chain: seq<nat>, free: seq<nat>,
      k: nat, val: T)
    requires Chain(head, data, chain) && Vacant(vacancyHead, data, chain, free) && k < |chain|
    ensures Vacant(vacancyHead, Stored(data, chain[k], val), chain, free)
  {
  }

  /** The assignments of `remove`, in order: take the value, bridge the neighbours, chain the vacancy. */
  ghost predicate TakenThenBridged<T>(data: seq<Node<T>>, taken: seq<Node<T>>, bridged: seq<Node<T>>,
                                      closed: seq<Node<T>>, after: seq<Node<T>>, idx: nat, vacancyHead: nat) {
    && idx < |data|
    && taken == data[idx := data[idx].(data := None)]
    && Bridge(taken, bridged, data[idx].prev, data[idx].next)
    && CloseGap(bridged, closed, data[idx].prev, data[idx].next)
    && idx < |closed| && after == closed[idx := closed[idx].(next := vacancyHead)]
  }

  ghost predicate Bridge<T>(data: seq<Node<T>>, after: seq<Node<T>>, prev: nat, next: nat) {
    if prev == NULL then after == data else prev < |data| && after == data[prev := data[prev].(next := next)]
  }

  ghost predicate CloseGap<T>(data: seq<Node<T>>, after: seq<Node<T>>, prev: nat, next: nat) {
    if next == NULL then after == data else next < |data| && after == data[next := data[next].(prev := prev)]
  }

  lemma TakeUnlinks<T>(data: seq<Node<T>>, taken: seq<Node<T>>, bridged: seq<Node<T>>,
                       closed: seq<Node<T>>, after: seq<Node<T>>, idx: nat, vacancyHead: nat)
    requires TakenThenBridged(data, taken, bridged, closed, after, idx, vacancyHead)
    requires |data| <= NULL && data[idx].prev != idx && data[idx].next != idx
    ensures Unlinked(data, after, idx, vacancyHead)
  {
  }

  lemma RemovedChains<T>(head: nat, tail: nat, data: seq<Node<T>>, taken: seq<Node<T>>, bridged: seq<Node<T>>,
                         closed: seq<Node<T>>, after: seq<Node<T>>, chain: seq<nat>, free: seq<nat>, k: nat)
    requires Chain(head, data, chain) && Back(tail, data, chain) && Vacant(At(free, 0), data, chain, free)
    requires k < |chain| && TakenThenBridged(data, taken, bridged, closed, after, chain[k], At(free, 0))
    ensures var c, f := Delete(chain, k), [chain[k]] + free;
            && Chain(At(c, 0), after, c) && Back(At(c, |c| - 1), after, c) && Vacant(chain[k], after, c, f)
            && Entries(after, c) == Delete(Entries(data, chain), k)
  {
    hide Chain, Back, Vacant, TakenThenBridged;
    Neighbours(head, tail, data, chain, k);
    Occupied(head, data, chain);
    TakeUnlinks(data, taken, bridged, closed, after, chain[k], At(free, 0));
    UnlinkedChain(head, data, after, chain, k, tail, At(free, 0));
    UnlinkedVacant(head, data, after, chain, free, k, tail);
    UnlinkedEntries(data, after, chain, k);
  }

  class LinkedList<T> {
    var head: nat
    var tail: nat
    var vacancyHead: nat
    var data: seq<Node<T>>
    ghost var order: seq<nat>  // occupied nodes, first inserted first
    ghost var free: seq<nat>   // vacant nodes, last vacated first

    ghost predicate Valid()
      reads this
    {
      Chain(head, data, order) && Back(tail, data, order) && Vacant(vacancyHead, data, order, free)
    }

    ghost function View(): Slab<T>
      reads this
      requires Valid()
    {
      Slab(Entries(data, order), free, |data|)
    }

    constructor ()
      ensures Valid() && View() == Slab([], [], 0) && data == []
    {
      head, tail, vacancyHead := NULL, NULL, NULL;
      data := [];
      order, free := [], [];
    }

    lemma LiveIffOccupied(idx: nat)
      requires Valid()
      ensures Live(View(), idx) <==> idx < |data| && data[idx].data.Some?
      ensures Live(View(), idx) ==> |View().live| == |order| && order[Position(View(), idx)] == idx
      ensures Lookup(View(), idx) == if idx < |data| then data[idx].data else None
    {
      if idx < |data| && data[idx].data.Some? {
        var k :| 0 <= k < |order| && order[k] == idx;
        assert View().live[k].handle == idx;
      }
    }

    lemma ViewIsPartition()
      requires Valid()
      ensures Partition(View())
    {
      PartitionFromChains(head, vacancyHead, data, order, free);
    }

    method Get(idx: nat) returns (r: Option<T>)
      requires Valid()
      ensures r == Lookup(View(), idx)
      ensures r.Some? ==> Entry(idx, r.value) in View().live
      ensures r.None? ==> forall k :: 0 <= k < |View().live| ==> View().live[k].handle != idx
    {
      LiveIffOccupied(idx);
      r := if idx < |data| then data[idx].data else None;
    }

    /** `get_mut` followed by an assignment through the reference it returned. */
    method Write(idx: nat, val: T) returns (found: bool)
      requires Valid()
      modifies this`data
      ensures Valid() && |data| == old(|data|)
      ensures found == Live(old(View()), idx)
      ensures View() == Written(old(View()), idx, val)
    {
      hide Chain, Back, Vacant, Entries;
      LiveIffOccupied(idx);
      found := idx < |data| && data[idx].data.Some?;
      if found {
        ghost var k := Position(View(), idx);
        StoredChain(head, data, order, k, val);
        StoredBack(head, tail, data, order, k, val);
        StoredVacant(head, vacancyHead, data, order, free, k, val);
        data := data[idx := data[idx].(data := Some(val))];
      }
    }

    method PushBack(val: T) returns (idx: nat)
      requires Valid()
      requires vacancyHead != NULL || |data| < NULL
      modifies this
      ensures Valid() && |data| <= old(|data|) + 1
      ensures idx == NextHandle(old(View()))
      ensures idx == if old(vacancyHead) != NULL then old(vacancyHead) else old(|data|)
      ensures View().live == old(View()).live + [Entry(idx, val)]
      ensures View() == Pushed(old(View()), val)
    {
      hide Chain, Back, Vacant, Entries;
      Ends(head, tail, vacancyHead, data, order, free);
      if vacancyHead != NULL {
        idx := vacancyHead;
        vacancyHead := data[idx].next;
        data := data[idx := data[idx].(next := NULL, data := Some(val))];
      } else {
        idx := |data|;
        data := data + [Node(NULL, NULL, Some(val))];
      }
      ghost var filled := data;
      if tail == NULL {
        head, tail := idx, idx;
      } else {
        data := data[tail := data[tail].(next := idx)];
        data := data[idx := data[idx].(prev := tail)];
        tail := idx;
      }
      PushedChains(old(head), old(tail), old(data), filled, data, order, free, idx, val);
      order := order + [idx];
      free := if free == [] then [] else free[1..];
    }

    method Remove(idx: nat) returns (r: Option<T>)
      requires Valid()
      modifies this
      ensures Valid() && |data| == old(|data|)
      ensures r == Lookup(old(View()), idx)
      ensures r.Some? ==> Entry(idx, r.value) in old(View()).live && vacancyHead == idx
      ensures r.None? ==> View() == old(View()) && forall k :: 0 <= k < |View().live| ==> View().live[k].handle != idx
      ensures View() == Removed(old(View()), idx)
    {
      hide Chain, Back, Vacant, Entries;
      LiveIffOccupied(idx);
      if idx >= |data| {
        return None;
      }
      r := data[idx].data;
      if r.None? {
        return;
      }
      ghost var k := Position(View(), idx);
      Neighbours(head, tail, data, order, k);
      Ends(head, tail, vacancyHead, data, order, free);
      data := data[idx := data[idx].(data := None)];
      ghost var taken := data;
      var prev, next := data[idx].prev, data[idx].next;
      if prev == NULL {
        head := next;
      } else {
        data := data[prev := data[prev].(next := next)];
      }
      ghost var bridged := data;
      if next == NULL {
        tail := prev;
      } else {
        data := data[next := data[next].(prev := prev)];
      }
      ghost var closed := data;
      data := data[idx := data[idx].(next := vacancyHead)];
      vacancyHead := idx;
      RemovedChains(old(head), old(tail), old(data), taken, bridged, closed, data, order, free, k);
      order := Delete(order, k);
      free := [idx] + free;
    }

    /** Consumes the list: the iterator takes over the nodes and the list is left empty. */
    method IntoIter() returns (it: LinkedListIter<T>)
      requires Valid()
      modifies this
      ensures fresh(it) && it.Valid()
      ensures |it.Remaining()| == |old(View()).live|
      ensures forall k :: 0 <= k < |it.Remaining()| ==> it.Remaining()[k] == old(View()).live[k].value
      ensures head == NULL && data == []
    {
      it := new LinkedListIter(head, data, order);
      head, data := NULL, [];
      order, free := [], [];
    }

    /** The destructor of a list that still owns its nodes; `dropped` lists the destroyed values. */
    method Drop() returns (dropped: seq<T>)
      requires Valid()
      modifies this
      ensures |dropped| == |old(View()).live|
      ensures forall k :: 0 <= k < |dropped| ==> dropped[k] == old(View()).live[k].value
      ensures data == []
    {
      var rest;
      dropped, rest := TakeAll(head, data, order);
      assert forall i :: 0 <= i < |rest| ==> rest[i].data.None?;
      data := [];
    }
  }

  /**
   The loop that both destructors run: take each value and follow `next`.  Nothing is left
   behind, so cutting the vector to length 0 afterwards leaks nothing.
   */
  method TakeAll<T>(first: nat, nodes: seq<Node<T>>, ghost chain: seq<nat>) returns (dropped: seq<T>,
      rest: seq<Node<T>>)
    requires Chain(first, nodes, chain)
    ensures dropped == Values(nodes, chain)
    ensures |rest| == |nodes| && forall i :: 0 <= i < |rest| ==> rest[i].data.None?
  {
    hide Chain;
    Occupied(first, nodes, chain);
    var head := first;
    rest, dropped := nodes, [];
    assert chain[0..] == chain;
    ghost var k := 0;
    while head != NULL
      invariant 0 <= k <= |chain|
      invariant Chain(head, rest, chain[k..])
      invariant |rest| == |nodes|
      invariant dropped == Values(nodes, chain)[..k]
      invariant forall j :: k <= j < |chain| ==> rest[chain[j]] == nodes[chain[j]]
      decreases |chain| - k
    {
      TakeStep(head, rest, chain[k..]);
      assert chain[k..][0] == chain[k] && chain[k..][1..] == chain[k + 1..];
      dropped := dropped + [rest[head].data.value];
      rest := rest[head := rest[head].(data := None)];
      head := rest[head].next;
      k := k + 1;
    }
    Exhausted(head, rest, chain[k..]);
    assert Values(nodes, chain)[..k] == Values(nodes, chain);
  }

  lemma Exhausted<T>(head: nat, data: seq<Node<T>>, chain: seq<nat>)
    requires Chain(head, data, chain) && head == NULL
    ensures chain == [] && forall i :: 0 <= i < |data| ==> data[i].data.None?
  {
  }

  lemma TakeStep<T>(head: nat, data: seq<Node<T>>, chain: seq<nat>)
    requires Chain(head, data, chain) && head != NULL
    ensures chain != [] && head == chain[0] && head < |data| && data[head].data.Some? && Distinct(chain)
    ensures Chain(data[head].next, data[head := data[head].(data := None)], chain[1..])
  {
  }

  lemma TakenValues<T>(data: seq<Node<T>>, chain: seq<nat>)
    requires chain != [] && Distinct(chain)
    requires forall k :: 0 <= k < |chain| ==> chain[k] < |data| && data[chain[k]].data.Some?
    ensures var after := data[chain[0] := data[chain[0]].(data := None)];
            && (forall k :: 0 <= k < |chain[1..]| ==> chain[1..][k] < |after| && after[chain[1..][k]].data.Some?)
            && Values(after, chain[1..]) == Values(data, chain)[1..]
  {
  }

  class LinkedListIter<T> {
    var head: nat
    var data: seq<Node<T>>
    ghost var rest: seq<nat>  // nodes still to be visited

    ghost predicate Valid()
      reads this
    {
      Chain(head, data, rest)
    }

    ghost function Remaining(): seq<T>
      reads this
      requires Valid()
    {
      Values(data, rest)
    }

    constructor (head: nat, data: seq<Node<T>>, ghost chain: seq<nat>)
      requires Chain(head, data, chain)
      ensures Valid() && Remaining() == Values(data, chain)
    {
      this.head, this.data, this.rest := head, data, chain;
    }

    /** The code answers with whatever the node holds; the chain guarantees that it holds a value. */
    method Next() returns (r: Option<T>)
      requires Valid()
      modifies this
      ensures Valid()
      ensures old(Remaining()) == [] ==> r == None && Remaining() == []
      ensures old(Remaining()) != [] ==> r == Some(old(Remaining())[0]) && Remaining() == old(Remaining())[1..]
    {
      hide Chain;
      if head == NULL {
        Exhausted(head, data, rest);
        return None;
      }
      TakeStep(head, data, rest);
      Occupied(head, data, rest);
      TakenValues(data, rest);
      r := data[head].data;
      data := data[head := data[head].(data := None)];
      head := data[head].next;
      rest := rest[1..];
    }

    /** Dropping an iterator part way destroys exactly the values it has not yielded. */
    method Drop() returns (dropped: seq<T>)
      requires Valid()
      modifies this
      ensures dropped == old(Remaining()) && data == []
    {
      var left;
      dropped, left := TakeAll(head, data, rest);
      assert forall i :: 0 <= i < |left| ==> left[i].data.None?;
      data := [];
    }
  }

  /**
   Plays a history of operations on a new list.  The list ends in the state that the theorems of
   `SlabSpec` speak about, and every operation answers as the reference does.
   */
  method Replay<T>(ops: seq<Op<T>>) returns (list: LinkedList<T>, answers: seq<Answer<T>>)
    requires |ops| <= NULL
    ensures fresh(list) && list.Valid() && list.View() == Run(ops)
    ensures |answers| == |ops|
    ensures forall i :: 0 <= i < |ops| ==> answers[i] == AnswerTo(Run(ops[..i]), ops[i])
  {
    hide LinkedList.Valid, LinkedList.View, Run, Pushed, Removed, Written, Lookup, Live, NextHandle;
    RunStart<T>();
    list := new LinkedList();
    answers := [];
    for k := 0 to |ops|
      invariant fresh(list) && list.Valid() && list.View() == Run(ops[..k])
      invariant |answers| == k
      invariant forall i :: 0 <= i < k ==> answers[i] == AnswerTo(Run(ops[..i]), ops[i])
    {
      SizeBound(list, ops[..k]);
      RunStep(ops, k);
      match ops[k]
      case Push(v) =>
        var h := list.PushBack(v);
        answers := answers + [Handle(h)];
      case Remove(h) =>
        var v := list.Remove(h);
        answers := answers + [Taken(v)];
      case Write(h, v) =>
        var found := list.Write(h, v);
        answers := answers + [Found(found)];
    }
    assert ops[..|ops|] == ops;
  }

  lemma RunStart<T>()
    ensures Run<T>([]) == Slab([], [], 0)
  {
  }

  lemma RunStep<T>(ops: seq<Op<T>>, k: nat)
    requires k < |ops|
    ensures Run(ops[..k + 1]) == match ops[k]
                                 case Push(v) => Pushed(Run(ops[..k]), v)
                                 case Remove(h) => Removed(Run(ops[..k]), h)
                                 case Write(h, v) => Written(Run(ops[..k]), h, v)
  {
    assert ops[..k + 1][..k] == ops[..k];
  }

  lemma SizeBound<T>(list: LinkedList<T>, ops: seq<Op<T>>)
    requires list.Valid() && list.View() == Run(ops)
    ensures |list.data| <= |ops|
  {
    RunSize(ops);
  }
}
