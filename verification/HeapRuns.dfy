/** Runs of lib/heap.c: whatever its users do, it is a priority queue. */
module HeapRuns {
  import opened Options
  import opened Heap

  /** A user names a node by the number of the insertion that made it. SetAge is an assignment to heap->age. */
  datatype Op<T> = Add(data: T) | Remove(h: nat) | Change(h: nat, data: T) | Take | SetAge(age: real)

  /** What has become of each node inserted so far. */
  datatype Slot<T> = Gone | Live(key: real, data: T)
  datatype State<T> = State(slots: seq<Slot<T>>, age: real)

  predicate IsLive<T>(slots: seq<Slot<T>>, h: nat) {
    h < |slots| && slots[h].Live?
  }

  ghost predicate Least<T>(slots: seq<Slot<T>>, h: nat) {
    IsLive(slots, h) && forall i: nat :: IsLive(slots, i) ==> slots[h].key <= slots[i].key
  }

  /** Slot h becomes x, and the data it held is handed out. */
  ghost predicate Becomes<T>(st: State<T>, h: nat, x: Slot<T>, out: Option<T>, st': State<T>) {
    IsLive(st.slots, h) && out == Some(st.slots[h].data) && st' == st.(slots := st.slots[h := x])
  }

  /** What an operation of a priority queue does. Calls for nodes that are gone are not made. */
  ghost predicate Step<T>(gen: (T, real) -> real, st: State<T>, op: Op<T>, out: Option<T>, st': State<T>) {
    match op
    case Add(d) => out == None && st' == st.(slots := st.slots + [Live(gen(d, st.age), d)])
    case Remove(h) => if IsLive(st.slots, h) then Becomes(st, h, Gone, out, st') else out == None && st' == st
    case Change(h, d) =>
      if IsLive(st.slots, h) then Becomes(st, h, Live(gen(d, st.age), d), out, st') else out == None && st' == st
    case Take =>
      if exists i: nat :: IsLive(st.slots, i) then exists h: nat :: Least(st.slots, h) && Becomes(st, h, Gone, out, st')
      else out == None && st' == st
    case SetAge(age) => out == None && st' == st.(age := age)
  }

  ghost predicate Different<T>(made: seq<HeapNode<T>>) {
    forall i, j :: 0 <= i < j < |made| ==> made[i] != made[j]
  }

  /** The heap holds exactly the live slots of st; made[i] is the node of slot i. */
  ghost predicate Holds<T>(hp: Heap<T>, made: seq<HeapNode<T>>, st: State<T>)
    reads hp, hp.nodes, hp.elems, made
  {
    && hp.Valid() && hp.age == st.age && |made| == |st.slots| && Different(made)
    && (forall n <- hp.elems :: n in made)
    && (forall i :: 0 <= i < |made| ==> (IsLive(st.slots, i) <==> made[i] in hp.elems))
    && (forall i :: 0 <= i < |made| && IsLive(st.slots, i) ==> st.slots[i] == Live(made[i].key, made[i].data))
  }

  /** The node is in the heap. */
  method Present<T>(hp: Heap<T>, n: HeapNode<T>) returns (here: bool)
    requires hp.Valid()
    ensures here <==> n in hp.elems
  {
    here := n.id < hp.last && hp.nodes[n.id] == n;
  }

  method Perform<T>(hp: Heap<T>, made: seq<HeapNode<T>>, op: Op<T>, ghost st: State<T>)
    returns (out: Option<T>, made': seq<HeapNode<T>>, ghost st': State<T>)
    requires Holds(hp, made, st)
    modifies hp, hp.nodes, hp.elems
    ensures Holds(hp, made', st') && Step(hp.genKey, st, op, out, st')
    ensures hp.nodes == old(hp.nodes) || fresh(hp.nodes)
    ensures forall n <- hp.elems :: n in old(hp.elems) || fresh(n)
  {
    hide Heap.Valid;
    out, made', st' := None, made, st;
    match op {
      case Add(d) =>
        var n := hp.Insert(d);
        made', st' := made + [n], st.(slots := st.slots + [Live(n.key, d)]);
      case Remove(h) =>
        if h < |made| {
          var here := Present(hp, made[h]);
          if here {
            out, st' := Dismiss(hp, made, h, st);
          }
        }
      case Change(h, d) =>
        if h < |made| {
          var here := Present(hp, made[h]);
          if here {
            out, st' := Renew(hp, made, h, d, st);
          }
        }
      case Take =>
        out, st' := TakeLeast(hp, made, st);
      case SetAge(age) =>
        st' := st.(age := age);
        hp.age := age;
    }
  }

  /** The root's slot is a least one; without a root no slot is live. */
  lemma RootSlot<T>(hp: Heap<T>, made: seq<HeapNode<T>>, st: State<T>) returns (h: nat)
    requires Holds(hp, made, st)
    ensures hp.last > 0 ==> h < |made| && made[h] == hp.nodes[0] && Least(st.slots, h)
    ensures hp.last == 0 ==> forall i: nat :: !IsLive(st.slots, i)
  {
    h := 0;
    if hp.last == 0 {
      hp.Empty();
    } else {
      hp.RootIsLeast();
      assert hp.nodes[0] in hp.elems;
      hide Heap.Valid, Different;
      h :| h < |made| && made[h] == hp.nodes[0];
    }
  }

  method Dismiss<T>(hp: Heap<T>, made: seq<HeapNode<T>>, h: nat, ghost st: State<T>)
    returns (out: Option<T>, ghost st': State<T>)
    requires Holds(hp, made, st) && h < |made| && made[h] in hp.elems
    modifies hp`last, hp`elems, hp.nodes, hp.elems`id
    ensures Holds(hp, made, st') && Becomes(st, h, Gone, out, st') && hp.elems <= old(hp.elems)
  {
    hide Heap.Valid;
    var d := hp.Delete(made[h]);
    out, st' := Some(d), st.(slots := st.slots[h := Gone]);
  }

  method Renew<T>(hp: Heap<T>, made: seq<HeapNode<T>>, h: nat, d: T, ghost st: State<T>)
    returns (out: Option<T>, ghost st': State<T>)
    requires Holds(hp, made, st) && h < |made| && made[h] in hp.elems
    modifies hp.nodes, hp.elems
    ensures Holds(hp, made, st') && Becomes(st, h, Live(hp.genKey(d, hp.age), d), out, st')
  {
    hide Heap.Valid;
    var was := hp.Update(made[h], d);
    out, st' := Some(was), st.(slots := st.slots[h := Live(made[h].key, d)]);
  }

  method TakeRoot<T>(hp: Heap<T>, ghost made: seq<HeapNode<T>>, ghost h: nat, ghost st: State<T>)
    returns (out: Option<T>, ghost st': State<T>)
    requires Holds(hp, made, st) && hp.last > 0 && h < |made| && made[h] == hp.nodes[0]
    modifies hp`last, hp`elems, hp.nodes, hp.elems`id
    ensures Holds(hp, made, st') && Becomes(st, h, Gone, out, st') && hp.elems <= old(hp.elems)
  {
    assert made[h] in hp.elems;
    hide Heap.Valid;
    ghost var n;
    out, n := hp.ExtractMin();
    st' := st.(slots := st.slots[h := Gone]);
  }

  method TakeLeast<T>(hp: Heap<T>, ghost made: seq<HeapNode<T>>, ghost st: State<T>)
    returns (out: Option<T>, ghost st': State<T>)
    requires Holds(hp, made, st)
    modifies hp`last, hp`elems, hp.nodes, hp.elems`id
    ensures Holds(hp, made, st') && Step(hp.genKey, st, Take, out, st') && hp.elems <= old(hp.elems)
  {
    ghost var h := RootSlot(hp, made, st);
    hide Heap.Valid, Least, Becomes, Step, Different;
    if hp.last > 0 {
      out, st' := TakeRoot(hp, made, h, st);
      TakeStep(hp.genKey, st, h, out, st', true);
    } else {
      ghost var n;
      out, n := hp.ExtractMin();
      st' := st;
      TakeStep(hp.genKey, st, h, out, st', false);
    }
  }

  lemma TakeStep<T>(gen: (T, real) -> real, st: State<T>, h: nat, out: Option<T>, st': State<T>, some: bool)
    requires if some then Least(st.slots, h) && Becomes(st, h, Gone, out, st')
             else (forall i: nat :: !IsLive(st.slots, i)) && out == None && st' == st
    ensures Step(gen, st, Take, out, st')
  {}

  /** The data in the heap, with repetition. */
  function Data<T>(slots: seq<Slot<T>>): multiset<T> {
    if slots == [] then multiset{} else Data(slots[..|slots| - 1]) + Of(slots[|slots| - 1])
  }

  function Of<T>(slot: Slot<T>): multiset<T> {
    if slot.Live? then multiset{slot.data} else multiset{}
  }

  lemma Exchange<T>(a: multiset<T>, b: multiset<T>, c: multiset<T>, d: multiset<T>, e: multiset<T>)
    requires a + b == c + d
    ensures a + e + b == c + e + d
  {
    assert a + e + b == a + b + e;
    assert c + e + d == c + d + e;
  }

  lemma {:induction false} DataAfter<T>(slots: seq<Slot<T>>, h: nat, x: Slot<T>)
    requires h < |slots|
    ensures Data(slots[h := x]) + Of(slots[h]) == Data(slots) + Of(x)
  {
    hide Of;
    var n := |slots| - 1;
    if h == n {
      assert slots[h := x][..n] == slots[..n];
    } else {
      DataAfter(slots[..n], h, x);
      assert slots[h := x][..n] == slots[..n][h := x];
      Exchange(Data(slots[..n][h := x]), Of(slots[h]), Data(slots[..n]), Of(x), Of(slots[n]));
    }
  }

  /** What a call brings in, and what it hands out. */
  function Given<T>(st: State<T>, op: Op<T>): multiset<T> {
    match op
    case Add(d) => multiset{d}
    case Change(h, d) => if IsLive(st.slots, h) then multiset{d} else multiset{}
    case _ => multiset{}
  }

  function Returned<T>(out: Option<T>): multiset<T> {
    if out.Some? then multiset{out.value} else multiset{}
  }

  lemma SlotConserves<T>(st: State<T>, h: nat, x: Slot<T>, out: Option<T>, st': State<T>)
    requires Becomes(st, h, x, out, st')
    ensures Data(st'.slots) + Returned(out) == Data(st.slots) + Of(x)
  {
    hide Data;
    DataAfter(st.slots, h, x);
  }

  lemma StepConserves<T>(gen: (T, real) -> real, st: State<T>, op: Op<T>, out: Option<T>, st': State<T>)
    requires Step(gen, st, op, out, st')
    ensures Data(st'.slots) + Returned(out) == Data(st.slots) + Given(st, op)
  {
    hide Data, Becomes, Least;
    match op
    case Add(d) => DataAdd(st.slots, Live(gen(d, st.age), d));
    case Remove(h) => if IsLive(st.slots, h) { SlotConserves(st, h, Gone, out, st'); }
    case Change(h, d) => if IsLive(st.slots, h) { SlotConserves(st, h, Live(gen(d, st.age), d), out, st'); }
    case Take =>
      if exists i: nat :: IsLive(st.slots, i) {
        var h: nat :| Least(st.slots, h) && Becomes(st, h, Gone, out, st');
        SlotConserves(st, h, Gone, out, st');
      }
    case SetAge(_) =>
  }

  lemma DataAdd<T>(slots: seq<Slot<T>>, x: Slot<T>)
    ensures Data(slots + [x]) == Data(slots) + Of(x)
  {
    assert (slots + [x])[..|slots|] == slots;
  }

  /** trace[i] is the state before operation i and outs[i] what it returned. */
  ghost predicate Runs<T>(gen: (T, real) -> real, ops: seq<Op<T>>, outs: seq<Option<T>>, trace: seq<State<T>>) {
    && |outs| <= |ops| && |trace| == |outs| + 1 && trace[0].slots == []
    && forall i :: 0 <= i < |outs| ==> Step(gen, trace[i], ops[i], outs[i], trace[i + 1])
  }

  function AllGiven<T>(ops: seq<Op<T>>, trace: seq<State<T>>, n: nat): multiset<T>
    requires n <= |ops| && n <= |trace|
  {
    if n == 0 then multiset{} else AllGiven(ops, trace, n - 1) + Given(trace[n - 1], ops[n - 1])
  }

  function AllReturned<T>(outs: seq<Option<T>>, n: nat): multiset<T>
    requires n <= |outs|
  {
    if n == 0 then multiset{} else AllReturned(outs, n - 1) + Returned(outs[n - 1])
  }

  /** At every point of a run, what was put in is in the heap or has been handed out, and that once. */
  lemma {:induction false} Conserved<T>(gen: (T, real) -> real, ops: seq<Op<T>>, outs: seq<Option<T>>, trace: seq<State<T>>, n: nat)
    requires Runs(gen, ops, outs, trace) && n <= |outs|
    ensures Data(trace[n].slots) + AllReturned(outs, n) == AllGiven(ops, trace, n)
  {
    hide Step, Data, Given, Returned;
    if n == 0 {
      NoData<T>();
    } else {
      Conserved(gen, ops, outs, trace, n - 1);
      StepConserves(gen, trace[n - 1], ops[n - 1], outs[n - 1], trace[n]);
      var r, g := Returned(outs[n - 1]), Given(trace[n - 1], ops[n - 1]);
      Exchange(Data(trace[n].slots), r, Data(trace[n - 1].slots), g, AllReturned(outs, n - 1));
    }
  }

  lemma NoData<T>()
    ensures Data<T>([]) == multiset{}
  {}

  /** Any operations on a new heap: every one does what it would do on a priority queue. */
  method Run<T>(size: int, gen: (T, real) -> real, ops: seq<Op<T>>)
    returns (hp: Heap<T>, outs: seq<Option<T>>, made: seq<HeapNode<T>>, ghost trace: seq<State<T>>)
    ensures fresh(hp) && hp.genKey == gen && |outs| == |ops| && Runs(gen, ops, outs, trace)
    ensures Holds(hp, made, trace[|ops|])
  {
    hide Heap.Valid, Step;
    hp := new Heap<T>(size, gen);
    outs, made, trace := [], [], [State([], 0.0)];
    for i := 0 to |ops|
      invariant |outs| == i && Runs(gen, ops, outs, trace) && hp.genKey == gen
      invariant Holds(hp, made, trace[i])
      invariant fresh(hp) && fresh(hp.nodes) && forall n <- hp.elems :: fresh(n)
    {
      var out; ghost var st;
      out, made, st := Perform(hp, made, ops[i], trace[i]);
      outs, trace := outs + [out], trace + [st];
    }
  }
}
