/** The `FamilyTree` object: a dictionary of nodes filled by `add_node`,
    linked by the second loop of `parse_md_files`, given generations by
    `calculate_generations`, and read by the printing and drawing code.

    The dictionary is the map `nodes` together with its key order `order`
    (Python dictionaries iterate in insertion order, and overwriting a key
    keeps its place). Each method is proved against the pure functions of
    `FamilyGraph`, `Generations` and `Views`. */
module FamilyTrees {
  import opened Common
  import opened FamilyGraph
  import opened Generations
  import opened Views
  import opened ParentsParser
  import opened NoteFiles

  /** A node statement of the graphviz drawing. */
  datatype DotNode = DotNode(id: string, name: string, generation: int, color: Color)

  /** The statement for node `id` given its roles. */
  function Styled(nodes: Nodes, id: string, isMother: bool, isFather: bool): DotNode
    requires id in nodes
  {
    DotNode(id, nodes[id].name, nodes[id].generation, BorderColor(isMother, isFather))
  }

  /** What `visualize_with_graphviz` hands to graphviz. */
  datatype Dot = Dot(nodes: seq<DotNode>, sameRank: seq<(string, string)>, edges: seq<(string, string)>)

  class FamilyTree {
    var nodes: Nodes
    var order: seq<string>

    /** The dictionary: each key once in `order`, each node filed under its id. */
    ghost predicate Valid()
      reads this
    {
      NoDup(order) && AllIn(nodes, order) &&
      (forall k :: k in nodes ==> k in order) &&
      (forall k :: k in nodes ==> nodes[k].id == k)
    }

    constructor ()
      ensures Valid() && nodes == map[] && order == []
    {
      nodes := map[];
      order := [];
    }

    /** `self.nodes[node.id] = node`: a new id goes to the end of the key
        order, a known id keeps its place and gets the new node. */
    method AddNode(node: Node)
      requires Valid()
      modifies this
      ensures Valid()
      ensures nodes == old(nodes)[node.id := node]
      ensures order == if node.id in old(nodes) then old(order) else old(order) + [node.id]
    {
      if node.id !in nodes {
        order := order + [node.id];
      }
      nodes := nodes[node.id := node];
    }

    /** The linking loop of `parse_md_files`: node by node in key order,
        resolve the parsed parent ids (unknown ones become `None`) and
        append the node to each resolved parent's children. */
    method Link()
      requires Valid()
      modifies this
      ensures Valid() && order == old(order)
      ensures nodes == LinkAll(old(nodes), order)
      ensures (forall k :: k in old(nodes) ==> old(nodes)[k].children == []) ==>
                Linked(nodes) && ChildrenConsistent(nodes, order)
    {
      var linked := LinkNodes(nodes, order);
      if forall k :: k in nodes ==> nodes[k].children == [] {
        LinkAllSound(nodes, order);
      }
      nodes := linked;
    }

    /** The loop itself, on the dictionary `raw` with key order `keys`. */
    static method LinkNodes(raw: Nodes, keys: seq<string>) returns (ns: Nodes)
      requires NoDup(keys) && AllIn(raw, keys) && forall k :: k in raw ==> k in keys
      ensures ns == LinkAll(raw, keys)
    {
      ns := raw;
      LinkPrefixStart(raw, keys);
      var i := 0;
      while i < |keys|
        invariant 0 <= i <= |keys|
        invariant ns == LinkPrefix(raw, keys, i)
      {
        LinkPrefixStep(raw, keys, i);
        ns := LinkOne(ns, keys[i]);
        i := i + 1;
      }
      LinkPrefixEnd(raw, keys);
    }

    /** One iteration: resolve the node's parent ids against the dictionary
        and append the node to each resolved parent's children. */
    static method LinkOne(ns0: Nodes, k: string) returns (ns: Nodes)
      requires k in ns0
      ensures ns == LinkStep(ns0, k)
    {
      ns := ns0;
      var n := ns[k];
      var m := Resolve(ns, n.mother);
      var f := Resolve(ns, n.father);
      ns := ns[k := n.(mother := m, father := f)];
      if m.Some? {
        var p := m.value;
        ns := ns[p := ns[p].(children := ns[p].children + [k])];
      }
      if f.Some? {
        var p := f.value;
        ns := ns[p := ns[p].(children := ns[p].children + [k])];
      }
    }

    /** `calculate_generations(base_generation)`, with at most `fuel`
        iterations of the queue loop (`drained` tells whether the queue
        emptied within them), the two fallback passes, and the store of the
        result: every node gets its recorded generation, or -1. */
    method CalculateGenerations(base: int, fuel: nat, guarded: bool) returns (drained: bool)
      requires Valid() && Linked(nodes)
      modifies this
      ensures Valid() && order == old(order) && Linked(nodes)
      ensures var s := Run(old(nodes), Relax(map[], InitialQueue(old(nodes), order, base)), guarded, fuel);
              drained == (s.queue == []) &&
              nodes == Assign(old(nodes), Fallback(old(nodes), order, s.gm))
    {
      var gm;
      gm, drained := RelaxQueue(base, fuel, guarded);
      gm := FallbackPasses(gm);
      nodes := StoreGenerations(gm);
      AssignKeepsLinks(old(nodes), gm);
    }

    /** The last stage: `node.generation = generation_map.get(node.id, -1)`
        for every node, in key order. */
    method StoreGenerations(gm: map<string, int>) returns (stored: Nodes)
      requires AllIn(nodes, order) && forall k :: k in nodes ==> k in order
      ensures stored == Assign(nodes, gm)
    {
      stored := nodes;
      var i := 0;
      while i < |order|
        invariant 0 <= i <= |order|
        invariant stored.Keys == nodes.Keys
        invariant forall k :: k in stored ==> stored[k] == if k in order[..i] then Assign(nodes, gm)[k] else nodes[k]
      {
        var id := order[i];
        assert order[..i + 1] == order[..i] + [id];
        stored := stored[id := stored[id].(generation := if id in gm then gm[id] else Unassigned)];
        i := i + 1;
      }
      assert order[..|order|] == order;
    }

    /** The first stage: the queue loop from the roots, offered `base`, for
        at most `fuel` iterations. */
    method RelaxQueue(base: int, fuel: nat, guarded: bool) returns (gm: map<string, int>, drained: bool)
      requires AllIn(nodes, order) && Linked(nodes)
      ensures var s := Run(nodes, Relax(map[], InitialQueue(nodes, order, base)), guarded, fuel);
              gm == s.gm && drained == (s.queue == [])
      ensures MapOk(nodes, gm)
    {
      var queue := InitialQueue(nodes, order, base);
      assert QueueOk(nodes, queue);
      gm, queue := Drain(map[], queue, fuel, guarded);
      drained := queue == [];
    }

    /** `while queue:` from a given state, for at most `fuel` iterations:
        the state the loop leaves is the one `Run` describes. */
    method Drain(gm0: map<string, int>, queue0: seq<Entry>, fuel: nat, guarded: bool) returns (gm: map<string, int>, queue: seq<Entry>)
      requires Linked(nodes) && QueueOk(nodes, queue0) && MapOk(nodes, gm0)
      ensures Relax(gm, queue) == Run(nodes, Relax(gm0, queue0), guarded, fuel)
      ensures MapOk(nodes, gm)
    {
      gm, queue := gm0, queue0;
      ghost var target := Run(nodes, Relax(gm0, queue0), guarded, fuel);
      var remaining := fuel;
      while queue != [] && remaining > 0
        invariant QueueOk(nodes, queue) && MapOk(nodes, gm)
        invariant Run(nodes, Relax(gm, queue), guarded, remaining) == target
        decreases remaining
      {
        ghost var s := Relax(gm, queue);
        RunUnfold(nodes, s, guarded, remaining);
        gm, queue := RelaxOne(gm, queue, guarded);
        remaining := remaining - 1;
      }
    }

    /** One iteration of the queue loop: pop the head entry; skip it when
        its node already has that generation or a later one, else record it
        and enqueue the offers to its parents and children. */
    method RelaxOne(gm0: map<string, int>, queue0: seq<Entry>, guarded: bool) returns (gm: map<string, int>, queue: seq<Entry>)
      requires Linked(nodes) && queue0 != [] && QueueOk(nodes, queue0)
      ensures Relax(gm, queue) == Step(nodes, Relax(gm0, queue0), guarded)
    {
      var e := queue0[0];
      gm, queue := gm0, queue0[1..];
      if e.id in gm && gm[e.id] >= e.gen {
        return;
      }
      gm := gm[e.id := e.gen];
      queue := Enqueue(e, gm, queue, guarded);
    }

    /** The body of the queue loop after recording `e`: offer `gen - 1` to
        each parent, then `gen + 1` to each child, in list order. */
    method Enqueue(e: Entry, gm: map<string, int>, queue: seq<Entry>, guarded: bool) returns (q: seq<Entry>)
      requires e.id in nodes
      ensures q == queue + Offers(nodes, e, gm, guarded)
    {
      var n := nodes[e.id];
      var q1 := OfferToParents(n, e.gen, gm, queue, guarded);
      q := OfferToChildren(n.children, e.gen, gm, q1, guarded);
    }

    /** `for parent in filter(None, [node.mother, node.father])`: each
        present parent is offered `gen - 1`, subject to the guard. */
    static method OfferToParents(n: Node, gen: int, gm: map<string, int>, queue: seq<Entry>, guarded: bool) returns (q: seq<Entry>)
      ensures q == queue + ParentOffers(n, gen, gm, guarded)
    {
      q := queue;
      if n.mother.Some? && (!guarded || n.mother.value !in gm || gm[n.mother.value] < gen - 1) {
        q := q + [Entry(n.mother.value, gen - 1)];
      }
      if n.father.Some? && (!guarded || n.father.value !in gm || gm[n.father.value] < gen - 1) {
        q := q + [Entry(n.father.value, gen - 1)];
      }
    }

    /** `for child in node.children`: each child entry is offered `gen + 1`,
        subject to the guard. */
    static method OfferToChildren(children: seq<string>, gen: int, gm: map<string, int>, queue: seq<Entry>, guarded: bool) returns (q: seq<Entry>)
      ensures q == queue + ChildOffers(children, gen, gm, guarded)
    {
      q := queue;
      var j := 0;
      while j < |children|
        invariant 0 <= j <= |children|
        invariant q == queue + ChildOffers(children[..j], gen, gm, guarded)
      {
        var c := children[j];
        assert children[..j + 1][..j] == children[..j];
        if !guarded || c !in gm || gm[c] < gen + 1 {
          q := q + [Entry(c, gen + 1)];
        }
        j := j + 1;
      }
      assert children[..|children|] == children;
    }

    /** The second stage: two passes over the nodes in key order; an
        unassigned node takes one more than its latest assigned parent, else
        one less than its earliest assigned child. */
    method FallbackPasses(gm0: map<string, int>) returns (gm: map<string, int>)
      requires AllIn(nodes, order)
      ensures gm == Fallback(nodes, order, gm0)
    {
      gm := gm0;
      var pass := 0;
      while pass < 2
        invariant 0 <= pass <= 2
        invariant gm == if pass == 0 then gm0 else if pass == 1 then FillPass(nodes, order, gm0) else Fallback(nodes, order, gm0)
      {
        gm := FillAll(gm);
        pass := pass + 1;
      }
    }

    /** One pass of the fallback: every node in key order, each seeing the
        generations the earlier ones were given. */
    method FillAll(gm0: map<string, int>) returns (gm: map<string, int>)
      requires AllIn(nodes, order)
      ensures gm == FillPass(nodes, order, gm0)
    {
      gm := gm0;
      var i := 0;
      while i < |order|
        invariant 0 <= i <= |order|
        invariant gm == FillPass(nodes, order[..i], gm0)
      {
        FillPassStep(nodes, order, i, gm0);
        gm := FillNode(gm, order[i]);
        i := i + 1;
      }
      TakeAll(order);
    }

    /** The fallback for one node: a node without a generation takes one
        more than its latest assigned parent, else one less than its
        earliest assigned child, else stays without. */
    method FillNode(gm0: map<string, int>, id: string) returns (gm: map<string, int>)
      requires id in nodes
      ensures gm == FillOne(nodes, gm0, id)
    {
      gm := gm0;
      if id !in gm {
        var n := nodes[id];
        var parentGens := ParentGens(gm, n);
        if parentGens != [] {
          gm := gm[id := Max(parentGens) + 1];
        } else {
          var childGens := ChildGens(gm, n.children);
          if childGens != [] {
            gm := gm[id := Min(childGens) - 1];
          }
        }
      }
    }

    /** `print_tree(node, level, visited)`: the node's line, then each child
        in descending generation, one level deeper; a node already visited
        prints nothing, so every node is printed at most once. `seen` is the
        visited set after the call. */
    method PrintTree(id: string, level: nat, visited: set<string>) returns (lines: seq<Line>, seen: set<string>)
      requires Linked(nodes) && id in nodes
      ensures (lines, seen) == Listing(nodes, id, level, visited)
      ensures visited <= seen && seen - visited <= nodes.Keys
      ensures id in visited ==> lines == [] && seen == visited
      ensures id !in visited ==>
        id in seen && lines != [] && lines[0] == Line(level, id, nodes[id].name, nodes[id].generation)
      ensures id !in visited ==> forall c :: c in nodes[id].children ==> c in seen
      ensures Expanded(nodes, visited, seen)
      ensures Nested(nodes, lines)
      ensures forall t :: 0 <= t < |lines| ==> Shows(nodes, lines[t])
      ensures forall t :: 1 <= t < |lines| ==> lines[t].level > level
      ensures forall t :: 1 <= t < |lines| && lines[t].level == level + 1 ==> lines[t].id in nodes[id].children
      ensures DirectChildrenSorted(lines, level)
      ensures NoDup(LineIds(lines)) && forall x :: x in LineIds(lines) <==> x in seen - visited
      decreases nodes.Keys - visited
    {
      if id in visited {
        return [], visited;
      }
      seen := visited + {id};
      var n := nodes[id];
      lines := [Line(level, id, n.name, n.generation)];
      var kids := SortByGenerationDesc(nodes, n.children);
      SortedFrom(nodes, n.children);
      ListedStart(nodes, id, level, visited);
      var j := 0;
      while j < |kids|
        invariant 0 <= j <= |kids|
        invariant visited + {id} <= seen && seen - visited <= nodes.Keys
        invariant lines != [] && lines[0] == Line(level, id, n.name, n.generation)
        invariant PrintedPrefix(nodes, lines, level, kids, j, visited, seen)
        invariant Expanded(nodes, visited + {id}, seen)
        invariant Nested(nodes, lines)
        invariant ListedSoFar(nodes, id, level, visited, lines, kids, j, seen)
      {
        var more, seen2 := PrintTree(kids[j], level + 1, seen);
        ListedStep(nodes, id, level, visited, lines, kids, j, seen, more, seen2);
        AppendPrinted(lines, more, level, kids, j, visited, seen, seen2);
        AppendNested(nodes, lines, more);
        ExpandedTrans(nodes, visited + {id}, seen, seen2);
        lines := lines + more;
        seen := seen2;
        j := j + 1;
      }
      TakeAll(kids);
      ListedEnd(nodes, id, level, visited, lines, kids, seen);
      ExpandedClose(nodes, visited, id, seen);
    }

    /** Appending the lines of one child's call keeps what the loop in
        `PrintTree` maintains. */
    lemma AppendPrinted(lines: seq<Line>, more: seq<Line>, level: nat, kids: seq<string>, j: nat,
                        visited: set<string>, seen: set<string>, seen2: set<string>)
      requires AllIn(nodes, kids) && NonIncreasing(nodes, kids) && j < |kids|
      requires PrintedPrefix(nodes, lines, level, kids, j, visited, seen)
      requires visited <= seen && seen <= seen2
      requires kids[j] in seen ==> more == []
      requires kids[j] !in seen ==> more != [] && more[0].id == kids[j] && more[0].level == level + 1
      requires forall t :: 0 <= t < |more| ==> Shows(nodes, more[t])
      requires forall t :: 1 <= t < |more| ==> more[t].level > level + 1
      requires NoDup(LineIds(more)) && forall x :: x in LineIds(more) <==> x in seen2 - seen
      requires kids[j] in seen2
      ensures PrintedPrefix(nodes, lines + more, level, kids, j + 1, visited, seen2)
      ensures (lines + more)[0] == lines[0]
    {
      AppendIds(lines, more, visited, seen, seen2);
      AppendDirect(lines, more, level, kids, j);
      AppendSorted(nodes, lines, more, level, kids, j);
      TakeSnoc(kids, j);
    }

    /** The roles loop of `visualize_with_graphviz`: a node is a mother when
        one of its children names it as mother, a father likewise. */
    method Roles() returns (isMother: set<string>, isFather: set<string>)
      requires Linked(nodes) && AllIn(nodes, order) && forall k :: k in nodes ==> k in order
      ensures forall p :: p in isMother <==> MotherEvidence(nodes, p)
      ensures forall p :: p in isFather <==> FatherEvidence(nodes, p)
    {
      isMother, isFather := {}, {};
      var i := 0;
      while i < |order|
        invariant 0 <= i <= |order|
        invariant forall p :: p in isMother <==> p in order[..i] && MotherEvidence(nodes, p)
        invariant forall p :: p in isFather <==> p in order[..i] && FatherEvidence(nodes, p)
      {
        var p := order[i];
        assert order[..i + 1] == order[..i] + [p];
        var children := nodes[p].children;
        var j := 0;
        while j < |children|
          invariant 0 <= j <= |children|
          invariant forall q :: q in isMother <==> (q in order[..i] && MotherEvidence(nodes, q)) || (q == p && NamesAs(nodes, children[..j], p, true))
          invariant forall q :: q in isFather <==> (q in order[..i] && FatherEvidence(nodes, q)) || (q == p && NamesAs(nodes, children[..j], p, false))
        {
          var c := children[j];
          NamesAsStep(nodes, children, j, p);
          if nodes[c].mother == Some(p) {
            isMother := isMother + {p};
          }
          if nodes[c].father == Some(p) {
            isFather := isFather + {p};
          }
          j := j + 1;
        }
        assert children[..j] == children;
        EvidenceIsNamesAs(nodes, p);
        i := i + 1;
      }
      assert order[..i] == order;
    }

    /** `visualize_with_graphviz` up to the rendering call: the styled
        nodes in key order, the parent pairs put at the same rank, and the
        `parent -> node` edges. */
    method VisualizeWithGraphviz() returns (dot: Dot)
      requires Valid() && Linked(nodes)
      ensures |dot.nodes| == |order|
      ensures forall t :: 0 <= t < |order| ==>
        dot.nodes[t] == Styled(nodes, order[t], MotherEvidence(nodes, order[t]), FatherEvidence(nodes, order[t]))
      ensures dot.sameRank == SpousePairs(nodes, order)
      ensures dot.edges == EdgeList(nodes, order)
    {
      var isMother, isFather := Roles();
      var styled := StyleNodes(isMother, isFather);
      var pairs := RankPairs();
      var edges := Edges();
      dot := Dot(styled, pairs, edges);
    }

    /** The node loop: a mother is framed red, else a father blue, else black. */
    method StyleNodes(isMother: set<string>, isFather: set<string>) returns (styled: seq<DotNode>)
      requires AllIn(nodes, order)
      ensures |styled| == |order|
      ensures forall t :: 0 <= t < |order| ==>
        styled[t] == Styled(nodes, order[t], order[t] in isMother, order[t] in isFather)
    {
      styled := [];
      var i := 0;
      while i < |order|
        invariant 0 <= i <= |order| && |styled| == i
        invariant forall t :: 0 <= t < i ==>
          styled[t] == Styled(nodes, order[t], order[t] in isMother, order[t] in isFather)
      {
        var uid := order[i];
        var color;
        if uid in isMother {
          color := Red;
        } else if uid in isFather {
          color := Blue;
        } else {
          color := Black;
        }
        styled := styled + [DotNode(uid, nodes[uid].name, nodes[uid].generation, color)];
        i := i + 1;
      }
    }

    /** The rank loop: for each node with both parents, the pair (mother, father). */
    method RankPairs() returns (pairs: seq<(string, string)>)
      requires AllIn(nodes, order)
      ensures pairs == SpousePairs(nodes, order)
    {
      pairs := [];
      var i := 0;
      while i < |order|
        invariant 0 <= i <= |order|
        invariant pairs == SpousePairs(nodes, order[..i])
      {
        var child := nodes[order[i]];
        assert order[..i + 1][..i] == order[..i];
        if child.mother.Some? && child.father.Some? {
          pairs := pairs + [(child.mother.value, child.father.value)];
        }
        i := i + 1;
      }
      assert order[..i] == order;
    }

    /** The edge loop: for each node, an edge from its mother, then from its father. */
    method Edges() returns (edges: seq<(string, string)>)
      requires AllIn(nodes, order)
      ensures edges == EdgeList(nodes, order)
    {
      edges := [];
      var i := 0;
      while i < |order|
        invariant 0 <= i <= |order|
        invariant edges == EdgeList(nodes, order[..i])
      {
        var id := order[i];
        var node := nodes[id];
        assert order[..i + 1][..i] == order[..i];
        ghost var before := edges;
        if node.mother.Some? {
          edges := edges + [(node.mother.value, id)];
        }
        if node.father.Some? {
          edges := edges + [(node.father.value, id)];
        }
        assert edges == before + NodeEdges(node, id);
        i := i + 1;
      }
      assert order[..i] == order;
    }

    /** The generation buckets of `_calculate_positions`: the nodes of each
        kept generation, in key order. */
    method GenerationBuckets(rule: BucketRule) returns (buckets: map<int, seq<string>>)
      requires AllIn(nodes, order)
      ensures forall g :: g in buckets <==> Keeps(rule, g) && OfGeneration(nodes, order, g) != []
      ensures forall g :: g in buckets ==> buckets[g] == OfGeneration(nodes, order, g)
    {
      buckets := map[];
      var i := 0;
      while i < |order|
        invariant 0 <= i <= |order|
        invariant AllIn(nodes, order[..i]) && Bucketed(nodes, rule, order[..i], buckets)
      {
        var id := order[i];
        var g := nodes[id].generation;
        PlaceStep(nodes, rule, order, i, buckets);
        if Keeps(rule, g) {
          var bucket := if g in buckets then buckets[g] else [];
          buckets := buckets[g := bucket + [id]];
        }
        i := i + 1;
      }
      TakeAll(order);
    }

    /** `_group_parents(nodes, pos)` before its final sort: one group per
        distinct sorted parent tuple, in order of first appearance, holding
        the nodes with that tuple in input order. Every input node lands in
        exactly one group. */
    method GroupParents(ids: seq<string>) returns (groups: seq<Group>)
      requires Linked(nodes) && AllIn(nodes, ids)
      ensures forall t :: 0 <= t < |groups| ==>
        groups[t].children != [] && groups[t].children == WithKey(nodes, ids, groups[t].parents)
      ensures NoDup(GroupKeys(groups))
      ensures forall x :: x in ids ==> exists t :: 0 <= t < |groups| && x in groups[t].children
      ensures GroupedCount(groups) == |ids|
      ensures GroupKeys(groups) == FirstOccurrences(KeysOf(nodes, ids))
    {
      var filed, keyOrder := FileByParents(ids);
      FiledUnderOwnKey(nodes, ids, filed);
      groups := BuildGroups(filed, keyOrder);
      GroupsCover(nodes, ids, groups);
    }

    /** The second loop of `_group_parents`: one group per key, in key
        order, its parents looked up in the dictionary. */
    method BuildGroups(filed: map<seq<string>, seq<string>>, keyOrder: seq<seq<string>>) returns (groups: seq<Group>)
      requires Linked(nodes) && forall t :: 0 <= t < |keyOrder| ==> keyOrder[t] in filed
      requires forall k :: k in filed ==> filed[k] != [] && forall x :: x in filed[k] ==> x in nodes && ParentKey(nodes[x]) == k
      ensures |groups| == |keyOrder|
      ensures forall u :: 0 <= u < |keyOrder| ==> groups[u] == Group(keyOrder[u], filed[keyOrder[u]])
      ensures GroupKeys(groups) == keyOrder
      ensures GroupedCount(groups) == FiledCount(keyOrder, filed)
    {
      groups := [];
      var t := 0;
      while t < |keyOrder|
        invariant 0 <= t <= |keyOrder| && |groups| == t
        invariant forall u :: 0 <= u < t ==> groups[u] == Group(keyOrder[u], filed[keyOrder[u]])
        invariant GroupedCount(groups) == FiledCount(keyOrder[..t], filed)
      {
        var key := keyOrder[t];
        var children := filed[key];
        assert children[0] in children;
        ParentKeyKnown(nodes, children[0]);
        assert keyOrder[..t + 1][..t] == keyOrder[..t];
        assert (groups + [Group(Known(nodes, key), children)])[..t] == groups;
        groups := groups + [Group(Known(nodes, key), children)];
        t := t + 1;
      }
      assert keyOrder[..t] == keyOrder;
    }

    /** The filing loop of `_group_parents`: `parent_map[parents].append(node)`. */
    method FileByParents(ids: seq<string>) returns (filed: map<seq<string>, seq<string>>, keyOrder: seq<seq<string>>)
      requires AllIn(nodes, ids)
      ensures NoDup(keyOrder) && forall k :: k in filed <==> k in keyOrder
      ensures forall k :: k in filed ==> filed[k] == WithKey(nodes, ids, k) && filed[k] != []
      ensures forall x :: x in ids ==> ParentKey(nodes[x]) in filed
      ensures FiledCount(keyOrder, filed) == |ids|
      ensures keyOrder == FirstOccurrences(KeysOf(nodes, ids))
    {
      filed, keyOrder := map[], [];
      var i := 0;
      while i < |ids|
        invariant i <= |ids| && Filed(nodes, ids[..i], filed, keyOrder)
        invariant keyOrder == FirstOccurrences(KeysOf(nodes, ids[..i]))
      {
        var x := ids[i];
        var key := ParentKey(nodes[x]);
        TakeSnoc(ids, i);
        FiledStep(nodes, ids[..i], x, filed, keyOrder);
        KeyOrderStep(nodes, ids[..i], x, filed, keyOrder);
        if key in filed {
          filed := filed[key := filed[key] + [x]];
        } else {
          filed := filed[key := [x]];
          keyOrder := keyOrder + [key];
        }
        i := i + 1;
      }
      TakeAll(ids);
    }
  }

  /** `parse_md_files`: a node per file under its stem (a later file with
      the same stem replaces the earlier node but keeps its place), then
      the linking loop, then `calculate_generations()` with the default
      base 1 and at most `fuel` queue iterations. The result is the
      registry of the files, linked and given generations. */
  method ParseMdFiles(files: seq<MdFile>, fuel: nat, guarded: bool) returns (tree: FamilyTree, drained: bool)
    ensures fresh(tree) && tree.Valid() && Linked(tree.nodes)
    ensures tree.order == FirstOccurrences(Stems(files))
    ensures forall k :: k in tree.nodes <==> k in Stems(files)
    ensures forall k :: k in tree.nodes ==> tree.nodes[k].name == k
    ensures (tree.nodes, drained) == Built(files, fuel, guarded)
  {
    tree := AddFiles(files);
    RegistryShape(files);
    LinkAllSound(tree.nodes, tree.order);
    tree.Link();
    drained := tree.CalculateGenerations(1, fuel, guarded);
    BuiltShape(files, fuel, guarded);
  }

  /** The first loop of `parse_md_files`: `add_node` for each file's node,
      in glob order. */
  method AddFiles(files: seq<MdFile>) returns (tree: FamilyTree)
    ensures fresh(tree) && tree.Valid()
    ensures tree.nodes == Registry(files) && tree.order == FirstOccurrences(Stems(files))
  {
    tree := new FamilyTree();
    ghost var done: seq<MdFile> := [];
    var i := 0;
    while i < |files|
      invariant 0 <= i <= |files| && done == files[..i]
      invariant tree.Valid() && tree.nodes == Registry(done)
      invariant tree.order == FirstOccurrences(Stems(done))
    {
      var f := files[i];
      var p := Parse(f.content);
      var node := Node(f.stem, f.stem, p.mother, p.father, [], Unassigned);
      assert node == FileNode(f);
      RegistrySnoc(done, f);
      tree.AddNode(node);
      TakeSnoc(files, i);
      done := done + [f];
      i := i + 1;
    }
    TakeAll(files);
  }

  /** What `parse_md_files` computes from the files: the registry, linked
      in key order, then given generations from base 1; and whether the
      queue emptied within `fuel` iterations. */
  function Built(files: seq<MdFile>, fuel: nat, guarded: bool): (Nodes, bool)
  {
    var order := FirstOccurrences(Stems(files));
    var raw := Registry(files);
    RegistryShape(files);
    LinkAllLinked(raw, order);
    var linked := LinkAll(raw, order);
    var s := Run(linked, Relax(map[], InitialQueue(linked, order, 1)), guarded, fuel);
    (Assign(linked, Fallback(linked, order, s.gm)), s.queue == [])
  }

  /** The built dictionary has a node per stem, named by its stem. */
  lemma BuiltShape(files: seq<MdFile>, fuel: nat, guarded: bool)
    ensures forall k :: k in Built(files, fuel, guarded).0 <==> k in Stems(files)
    ensures forall k :: k in Built(files, fuel, guarded).0 ==> Built(files, fuel, guarded).0[k].name == k
  {
    var order := FirstOccurrences(Stems(files));
    RegistryShape(files);
    LinkAllSound(Registry(files), order);
  }
}
