/** `calculate_generations` as a step function over (generation map, queue),
    the two fallback passes, and what they promise.

    The queue loop of the program need not terminate (see
    `SelfMotherNeverDrains`), so `Run` takes a number of steps as fuel. The
    copies of the program differ in one place: two of them enqueue a parent
    or a child only when the offer would raise its recorded generation
    (`guarded`), the third enqueues unconditionally. */
module Generations {
  import opened Common
  import opened FamilyGraph

  /** A queue entry `(node, gen)`. */
  datatype Entry = Entry(id: string, gen: int)

  /** The generation map and the queue between two iterations. */
  datatype Relax = Relax(gm: map<string, int>, queue: seq<Entry>)

  predicate IsRoot(n: Node)
  {
    n.mother.None? && n.father.None?
  }

  /** `[n for n in nodes.values() if not n.mother and not n.father]` */
  function Roots(nodes: Nodes, order: seq<string>): (r: seq<string>)
    requires AllIn(nodes, order)
    ensures AllIn(nodes, r)
    ensures forall k :: k in r <==> k in order && IsRoot(nodes[k])
  {
    if order == [] then []
    else
      var init := order[..|order| - 1];
      var last := order[|order| - 1];
      assert forall c :: c in order <==> c in init || c == last;
      Roots(nodes, init) + (if IsRoot(nodes[last]) then [last] else [])
  }

  /** The queue starts with every root, offered `base`. */
  function InitialQueue(nodes: Nodes, order: seq<string>, base: int): (q: seq<Entry>)
    requires AllIn(nodes, order)
    ensures forall e :: e in q ==> e.gen == base && e.id in order && IsRoot(nodes[e.id])
    ensures forall k :: k in order && IsRoot(nodes[k]) ==> Entry(k, base) in q
  {
    var roots := Roots(nodes, order);
    var q := seq(|roots|, i requires 0 <= i < |roots| => Entry(roots[i], base));
    assert forall k :: k in roots ==> Entry(k, base) in q by {
      forall k | k in roots ensures Entry(k, base) in q {
        var i :| 0 <= i < |roots| && roots[i] == k;
        assert q[i] == Entry(k, base);
      }
    }
    q
  }

  /** Whether an offer of `g` to `id` is enqueued: always in the unguarded
      copy, otherwise only when `id` is unassigned or recorded below `g`. */
  predicate Admits(gm: map<string, int>, id: string, g: int, guarded: bool)
  {
    !guarded || id !in gm || gm[id] < g
  }

  /** The offers of `gen - 1` to the mother, then the father. */
  function ParentOffers(n: Node, gen: int, gm: map<string, int>, guarded: bool): seq<Entry>
  {
    (if n.mother.Some? && Admits(gm, n.mother.value, gen - 1, guarded) then [Entry(n.mother.value, gen - 1)] else []) +
    (if n.father.Some? && Admits(gm, n.father.value, gen - 1, guarded) then [Entry(n.father.value, gen - 1)] else [])
  }

  /** A parent is offered `gen - 1` exactly when the guard admits it. */
  lemma ParentOffersSpec(n: Node, gen: int, gm: map<string, int>, guarded: bool)
    ensures var r := ParentOffers(n, gen, gm, guarded);
      (forall e :: e in r ==> e.gen == gen - 1 && (Some(e.id) == n.mother || Some(e.id) == n.father) && Admits(gm, e.id, gen - 1, guarded)) &&
      (n.mother.Some? && Admits(gm, n.mother.value, gen - 1, guarded) ==> Entry(n.mother.value, gen - 1) in r) &&
      (n.father.Some? && Admits(gm, n.father.value, gen - 1, guarded) ==> Entry(n.father.value, gen - 1) in r)
  {
  }

  /** The offers of `gen + 1` to the children, in list order. */
  function ChildOffers(children: seq<string>, gen: int, gm: map<string, int>, guarded: bool): seq<Entry>
  {
    if children == [] then []
    else
      var init := children[..|children| - 1];
      var last := children[|children| - 1];
      ChildOffers(init, gen, gm, guarded) +
      (if Admits(gm, last, gen + 1, guarded) then [Entry(last, gen + 1)] else [])
  }

  /** A child is offered `gen + 1` exactly when the guard admits it; the
      unguarded copy offers once per entry of the children list. */
  lemma {:induction false} ChildOffersSpec(children: seq<string>, gen: int, gm: map<string, int>, guarded: bool)
    ensures var r := ChildOffers(children, gen, gm, guarded);
      (forall e :: e in r ==> e.gen == gen + 1 && e.id in children && Admits(gm, e.id, gen + 1, guarded)) &&
      (forall c :: c in children && Admits(gm, c, gen + 1, guarded) ==> Entry(c, gen + 1) in r) &&
      (!guarded ==> |r| == |children|)
  {
    if children != [] {
      var init := children[..|children| - 1];
      var last := children[|children| - 1];
      assert forall c :: c in children <==> c in init || c == last;
      ChildOffersSpec(init, gen, gm, guarded);
    }
  }

  predicate QueueOk(nodes: Nodes, q: seq<Entry>)
  {
    forall e :: e in q ==> e.id in nodes
  }

  predicate MapOk(nodes: Nodes, gm: map<string, int>)
  {
    forall k :: k in gm ==> k in nodes
  }

  /** One iteration of `while queue:`: pop the head; skip it when the
      recorded generation is at least the offer, else record the offer and
      enqueue the offers to the parents and the children. */
  function Step(nodes: Nodes, s: Relax, guarded: bool): (r: Relax)
    requires Linked(nodes) && s.queue != [] && QueueOk(nodes, s.queue)
    ensures QueueOk(nodes, r.queue)
    ensures MapOk(nodes, s.gm) ==> MapOk(nodes, r.gm)
    ensures var e := s.queue[0];
            if e.id in s.gm && s.gm[e.id] >= e.gen then r == Relax(s.gm, s.queue[1..])
            else r.gm == s.gm[e.id := e.gen] && r.queue == s.queue[1..] + Offers(nodes, e, r.gm, guarded)
  {
    var e := s.queue[0];
    if e.id in s.gm && s.gm[e.id] >= e.gen then Relax(s.gm, s.queue[1..])
    else
      var gm := s.gm[e.id := e.gen];
      var offers := Offers(nodes, e, gm, guarded);
      OffersSpec(nodes, e, gm, guarded);
      assert forall o :: o in s.queue[1..] + offers ==> o in s.queue[1..] || o in offers;
      Relax(gm, s.queue[1..] + offers)
  }

  /** What processing `e` enqueues, given the map after recording it. */
  function Offers(nodes: Nodes, e: Entry, gm: map<string, int>, guarded: bool): seq<Entry>
    requires e.id in nodes
  {
    ParentOffers(nodes[e.id], e.gen, gm, guarded) + ChildOffers(nodes[e.id].children, e.gen, gm, guarded)
  }

  /** Every offer names a node of a linked tree; with the guard, every
      offer would raise the recorded generation. */
  lemma OffersSpec(nodes: Nodes, e: Entry, gm: map<string, int>, guarded: bool)
    requires Linked(nodes) && e.id in nodes
    ensures forall o :: o in Offers(nodes, e, gm, guarded) ==> o.id in nodes
    ensures guarded ==> forall o :: o in Offers(nodes, e, gm, guarded) ==> o.id !in gm || gm[o.id] < o.gen
  {
    var n := nodes[e.id];
    var ups := ParentOffers(n, e.gen, gm, guarded);
    var downs := ChildOffers(n.children, e.gen, gm, guarded);
    ParentOffersSpec(n, e.gen, gm, guarded);
    ChildOffersSpec(n.children, e.gen, gm, guarded);
    assert forall o :: o in ups + downs ==> o in ups || o in downs;
  }

  /** A step keeps the rest of the queue in front, in order, and never
      lowers a recorded generation. */
  lemma StepKeepsOrder(nodes: Nodes, s: Relax, guarded: bool)
    requires Linked(nodes) && s.queue != [] && QueueOk(nodes, s.queue)
    ensures var r := Step(nodes, s, guarded);
            |r.queue| >= |s.queue| - 1 && r.queue[..|s.queue| - 1] == s.queue[1..] &&
            forall k :: k in s.gm ==> k in r.gm && s.gm[k] <= r.gm[k]
  {
    var r := Step(nodes, s, guarded);
    var e := s.queue[0];
    if !(e.id in s.gm && s.gm[e.id] >= e.gen) {
      assert r.queue == s.queue[1..] + Offers(nodes, e, r.gm, guarded);
    }
  }

  /** In the guarded copies every entry a step adds would raise the recorded
      generation of its node at the time it is added. */
  lemma StepGuard(nodes: Nodes, s: Relax)
    requires Linked(nodes) && s.queue != [] && QueueOk(nodes, s.queue)
    ensures var r := Step(nodes, s, true);
            |r.queue| >= |s.queue| - 1 &&
            forall e :: e in r.queue[|s.queue| - 1..] ==> e.id !in r.gm || r.gm[e.id] < e.gen
  {
    var r := Step(nodes, s, true);
    var e := s.queue[0];
    if !(e.id in s.gm && s.gm[e.id] >= e.gen) {
      var offers := Offers(nodes, e, r.gm, true);
      OffersSpec(nodes, e, r.gm, true);
      assert r.queue == s.queue[1..] + offers;
      assert r.queue[|s.queue| - 1..] == offers;
    } else {
      assert r.queue[|s.queue| - 1..] == [];
    }
  }

  /** At most `fuel` iterations of the queue loop; it stops early when the
      queue is empty. */
  function Run(nodes: Nodes, s: Relax, guarded: bool, fuel: nat): (r: Relax)
    requires Linked(nodes) && QueueOk(nodes, s.queue)
    ensures QueueOk(nodes, r.queue)
    ensures MapOk(nodes, s.gm) ==> MapOk(nodes, r.gm)
    decreases fuel
  {
    if fuel == 0 || s.queue == [] then s
    else Run(nodes, Step(nodes, s, guarded), guarded, fuel - 1)
  }

  /** One iteration, then the rest. */
  lemma RunUnfold(nodes: Nodes, s: Relax, guarded: bool, fuel: nat)
    requires Linked(nodes) && QueueOk(nodes, s.queue) && fuel > 0 && s.queue != []
    ensures Run(nodes, s, guarded, fuel) == Run(nodes, Step(nodes, s, guarded), guarded, fuel - 1)
  {
  }

  /** Over any number of iterations a recorded generation only grows. */
  lemma {:induction false} RunMonotone(nodes: Nodes, s: Relax, guarded: bool, fuel: nat)
    requires Linked(nodes) && QueueOk(nodes, s.queue)
    ensures var r := Run(nodes, s, guarded, fuel);
            forall k :: k in s.gm ==> k in r.gm && s.gm[k] <= r.gm[k]
    decreases fuel
  {
    if fuel > 0 && s.queue != [] {
      StepKeepsOrder(nodes, s, guarded);
      RunMonotone(nodes, Step(nodes, s, guarded), guarded, fuel - 1);
    }
  }

  // ---------------------------------------------------------------------
  // Fallback passes

  /** The recorded generations of the assigned parents. */
  function ParentGens(gm: map<string, int>, n: Node): (r: seq<int>)
    ensures forall g :: g in r <==>
      (n.mother.Some? && n.mother.value in gm && gm[n.mother.value] == g) ||
      (n.father.Some? && n.father.value in gm && gm[n.father.value] == g)
  {
    (if n.mother.Some? && n.mother.value in gm then [gm[n.mother.value]] else []) +
    (if n.father.Some? && n.father.value in gm then [gm[n.father.value]] else [])
  }

  /** The recorded generations of the assigned children. */
  function ChildGens(gm: map<string, int>, children: seq<string>): (r: seq<int>)
    ensures forall g :: g in r <==> exists c :: c in children && c in gm && gm[c] == g
  {
    if children == [] then []
    else
      var init := children[..|children| - 1];
      var last := children[|children| - 1];
      assert forall c :: c in children <==> c in init || c == last;
      ChildGens(gm, init) + (if last in gm then [gm[last]] else [])
  }

  function Max(s: seq<int>): (m: int)
    requires s != []
    ensures m in s && forall x :: x in s ==> x <= m
  {
    if |s| == 1 then s[0]
    else
      var m := Max(s[1..]);
      assert forall x :: x in s ==> x == s[0] || x in s[1..];
      if s[0] >= m then s[0] else m
  }

  function Min(s: seq<int>): (m: int)
    requires s != []
    ensures m in s && forall x :: x in s ==> m <= x
  {
    if |s| == 1 then s[0]
    else
      var m := Min(s[1..]);
      assert forall x :: x in s ==> x == s[0] || x in s[1..];
      if s[0] <= m then s[0] else m
  }

  /** One node in a fallback pass (the body of the inner loop). */
  function FillOne(nodes: Nodes, gm: map<string, int>, id: string): map<string, int>
    requires id in nodes
  {
    if id in gm then gm
    else
      var parentGens := ParentGens(gm, nodes[id]);
      if parentGens != [] then gm[id := Max(parentGens) + 1]
      else
        var childGens := ChildGens(gm, nodes[id].children);
        if childGens != [] then gm[id := Min(childGens) - 1] else gm
  }

  /** An assigned node is never changed; an unassigned one takes one more
      than its latest assigned parent, else one less than its earliest
      assigned child, else stays unassigned; no other node is touched. */
  lemma FillOneSpec(nodes: Nodes, gm: map<string, int>, id: string)
    requires id in nodes
    ensures var r := FillOne(nodes, gm, id);
      (forall k :: k in gm ==> k in r && r[k] == gm[k]) &&
      (forall k :: k in r ==> k in gm || k == id) &&
      (id !in gm && ParentGens(gm, nodes[id]) != [] ==>
        id in r && r[id] - 1 in ParentGens(gm, nodes[id]) &&
        forall g :: g in ParentGens(gm, nodes[id]) ==> g <= r[id] - 1) &&
      (id !in gm && ParentGens(gm, nodes[id]) == [] && ChildGens(gm, nodes[id].children) != [] ==>
        id in r && r[id] + 1 in ChildGens(gm, nodes[id].children) &&
        forall g :: g in ChildGens(gm, nodes[id].children) ==> r[id] + 1 <= g) &&
      (id !in gm && ParentGens(gm, nodes[id]) == [] && ChildGens(gm, nodes[id].children) == [] ==> r == gm)
  {
  }

  /** One pass over the nodes in order; later nodes see what earlier nodes
      of the same pass were given. */
  function FillPass(nodes: Nodes, order: seq<string>, gm: map<string, int>): map<string, int>
    requires AllIn(nodes, order)
  {
    if order == [] then gm
    else
      var init := order[..|order| - 1];
      assert forall k :: k in init ==> k in order;
      FillOne(nodes, FillPass(nodes, init, gm), order[|order| - 1])
  }

  /** One more node of a pass is one more `FillOne`. */
  lemma FillPassStep(nodes: Nodes, order: seq<string>, i: nat, gm: map<string, int>)
    requires AllIn(nodes, order) && i < |order|
    ensures FillPass(nodes, order[..i + 1], gm) == FillOne(nodes, FillPass(nodes, order[..i], gm), order[i])
  {
    assert order[..i + 1][..i] == order[..i];
  }

  /** A pass keeps every recorded generation and records only nodes it visits. */
  lemma {:induction false} FillPassKeeps(nodes: Nodes, order: seq<string>, gm: map<string, int>)
    requires AllIn(nodes, order)
    ensures var r := FillPass(nodes, order, gm);
      (forall k :: k in gm ==> k in r && r[k] == gm[k]) &&
      (forall k :: k in r ==> k in gm || k in order)
  {
    if order != [] {
      var init := order[..|order| - 1];
      assert forall k :: k in init ==> k in order;
      FillPassKeeps(nodes, init, gm);
      FillOneSpec(nodes, FillPass(nodes, init, gm), order[|order| - 1]);
    }
  }

  /** `for _ in range(2)`: the two fallback passes. */
  function Fallback(nodes: Nodes, order: seq<string>, gm: map<string, int>): map<string, int>
    requires AllIn(nodes, order)
  {
    FillPass(nodes, order, FillPass(nodes, order, gm))
  }

  /** The fallback never revises a generation the queue loop recorded, and
      only assigns nodes of the dictionary. */
  lemma FallbackKeeps(nodes: Nodes, order: seq<string>, gm: map<string, int>)
    requires AllIn(nodes, order)
    ensures var r := Fallback(nodes, order, gm);
      (forall k :: k in gm ==> k in r && r[k] == gm[k]) &&
      (forall k :: k in r ==> k in gm || k in order)
  {
    FillPassKeeps(nodes, order, gm);
    FillPassKeeps(nodes, order, FillPass(nodes, order, gm));
  }

  /** The stored result: the recorded generation, or -1. */
  function Assign(nodes: Nodes, gm: map<string, int>): (r: Nodes)
    ensures r.Keys == nodes.Keys
    ensures forall k :: k in r ==> r[k] == nodes[k].(generation := if k in gm then gm[k] else Unassigned)
  {
    map k | k in nodes :: nodes[k].(generation := if k in gm then gm[k] else Unassigned)
  }

  /** Storing generations changes no reference: a linked tree stays
      linked, with the same children lists. */
  lemma AssignKeepsLinks(nodes: Nodes, gm: map<string, int>)
    ensures var r := Assign(nodes, gm);
      (Linked(nodes) ==> Linked(r)) &&
      forall order :: ChildrenConsistent(nodes, order) ==> ChildrenConsistent(r, order)
  {
    var r := Assign(nodes, gm);
    forall order | ChildrenConsistent(nodes, order)
      ensures ChildrenConsistent(r, order)
    {
      forall p | p in r ensures r[p].children == ChildEntries(r, order, p) {
        ChildEntriesSameRefs(nodes, r, order, p);
      }
    }
  }

  // ---------------------------------------------------------------------
  // The queue loop need not end

  /** A root R and its child X, whose mother is X itself (as linking leaves them). */
  function SelfMotherTree(): Nodes
  {
    map[
      "R" := Node("R", "R", None, None, ["X"], Unassigned),
      "X" := Node("X", "X", Some("X"), Some("R"), ["X"], Unassigned)]
  }

  /** The state the loop returns to, with X's generation one higher each time. */
  function SelfMotherState(k: int): Relax
  {
    Relax(map["R" := k - 2, "X" := k - 1], [Entry("X", k)])
  }

  lemma SelfMotherLinked()
    ensures Linked(SelfMotherTree())
  {
  }

  /** X at `k`: recorded, its parents not re-offered, X itself offered `k + 1`
      through its own children list, and R offered `k - 1` as X's father. */
  lemma SelfMotherCycleFirst(k: int)
    requires k >= 3
    ensures Linked(SelfMotherTree()) && QueueOk(SelfMotherTree(), SelfMotherState(k).queue)
    ensures Step(SelfMotherTree(), SelfMotherState(k), true) ==
            Relax(map["R" := k - 2, "X" := k], [Entry("R", k - 1), Entry("X", k + 1)])
  {
    SelfMotherLinked();
    var nodes := SelfMotherTree();
    var gm1 := map["R" := k - 2, "X" := k];
    assert SelfMotherState(k).gm["X" := k] == gm1;
    assert ParentOffers(nodes["X"], k, gm1, true) == [Entry("R", k - 1)];
    assert ChildOffers(["X"], k, gm1, true) == [Entry("X", k + 1)];
  }

  /** R at `k - 1`: recorded, and X not re-offered `k`, which it already has. */
  lemma SelfMotherCycleSecond(k: int)
    requires k >= 3
    ensures Linked(SelfMotherTree())
    ensures var s := Relax(map["R" := k - 2, "X" := k], [Entry("R", k - 1), Entry("X", k + 1)]);
            QueueOk(SelfMotherTree(), s.queue) && Step(SelfMotherTree(), s, true) == SelfMotherState(k + 1)
  {
    SelfMotherLinked();
    var nodes := SelfMotherTree();
    var gm2 := map["R" := k - 1, "X" := k];
    assert map["R" := k - 2, "X" := k]["R" := k - 1] == gm2;
    assert ParentOffers(nodes["R"], k - 1, gm2, true) == [];
    assert ChildOffers(["X"], k - 1, gm2, true) == [];
  }

  /** Two iterations bring the loop back to the same state, one generation up. */
  lemma SelfMotherCycle(k: int)
    requires k >= 3
    ensures Linked(SelfMotherTree())
    ensures QueueOk(SelfMotherTree(), SelfMotherState(k).queue)
    ensures Step(SelfMotherTree(), SelfMotherState(k), true).queue == [Entry("R", k - 1), Entry("X", k + 1)]
    ensures Step(SelfMotherTree(), Step(SelfMotherTree(), SelfMotherState(k), true), true) == SelfMotherState(k + 1)
  {
    SelfMotherCycleFirst(k);
    SelfMotherCycleSecond(k);
  }

  lemma {:induction false} SelfMotherRuns(k: int, fuel: nat)
    requires k >= 3
    ensures Linked(SelfMotherTree()) && QueueOk(SelfMotherTree(), SelfMotherState(k).queue)
    ensures Run(SelfMotherTree(), SelfMotherState(k), true, fuel).queue != []
    decreases fuel
  {
    SelfMotherCycle(k);
    var nodes := SelfMotherTree();
    var s1 := Step(nodes, SelfMotherState(k), true);
    if fuel >= 1 {
      RunUnfold(nodes, SelfMotherState(k), true, fuel);
      if fuel >= 2 {
        RunUnfold(nodes, s1, true, fuel - 1);
        SelfMotherRuns(k + 1, fuel - 2);
      }
    }
  }

  /** Only R is a root, so the loop starts from R alone. */
  lemma SelfMotherInit()
    ensures InitialQueue(SelfMotherTree(), ["R", "X"], 1) == [Entry("R", 1)]
  {
    var nodes := SelfMotherTree();
    var order := ["R", "X"];
    assert order[..1] == ["R"];
    assert Roots(nodes, order[..1]) == ["R"];
  }

  /** The first two iterations from the initial queue reach the cycle. */
  lemma SelfMotherStart()
    ensures Linked(SelfMotherTree())
    ensures var nodes := SelfMotherTree();
            var s1 := Relax(map["R" := 1], [Entry("X", 2)]);
            Step(nodes, Relax(map[], [Entry("R", 1)]), true) == s1 &&
            Step(nodes, s1, true) == SelfMotherState(3)
  {
    SelfMotherLinked();
    var nodes := SelfMotherTree();
    var gm1 := map["R" := 1];
    assert ChildOffers(["X"], 1, gm1, true) == [Entry("X", 2)];
    var gm2 := map["R" := 1, "X" := 2];
    assert gm1["X" := 2] == gm2;
    assert ParentOffers(nodes["X"], 2, gm2, true) == [];
    assert ChildOffers(["X"], 2, gm2, true) == [Entry("X", 3)];
  }

  /** From the initial queue `[R]`, the queue is never empty. */
  lemma SelfMotherFromRoot(fuel: nat)
    ensures Linked(SelfMotherTree()) && QueueOk(SelfMotherTree(), [Entry("R", 1)])
    ensures Run(SelfMotherTree(), Relax(map[], [Entry("R", 1)]), true, fuel).queue != []
  {
    var nodes := SelfMotherTree();
    SelfMotherStart();
    var init := Relax(map[], [Entry("R", 1)]);
    var s1 := Relax(map["R" := 1], [Entry("X", 2)]);
    if fuel >= 1 {
      RunUnfold(nodes, init, true, fuel);
      if fuel >= 2 {
        RunUnfold(nodes, s1, true, fuel - 1);
        SelfMotherRuns(3, fuel - 2);
      }
    }
  }

  /** With the guards of two of the copies, the queue of the self-mother
      tree is never empty, however many iterations run. */
  lemma SelfMotherNeverDrains(fuel: nat)
    ensures Linked(SelfMotherTree())
    ensures var nodes := SelfMotherTree();
            var init := Relax(map[], InitialQueue(nodes, ["R", "X"], 1));
            QueueOk(nodes, init.queue) && Run(nodes, init, true, fuel).queue != []
  {
    SelfMotherInit();
    SelfMotherFromRoot(fuel);
  }
}
