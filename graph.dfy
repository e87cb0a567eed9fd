/** The person graph as values: nodes keyed by id, parent references kept as
    ids, and what linking (`parse_md_files`, second loop) does to them.

    In the program each dictionary key holds one `TreeNode` whose `id` is
    that key, and every reference (`mother`, `father`, an entry of
    `children`) points at such a node; so a reference is modelled by the key,
    and `child.mother is node` by `child.mother == Some(node.id)`. */
module FamilyGraph {
  import opened Common

  datatype Node = Node(
    id: string,
    name: string,
    mother: Option<string>,
    father: Option<string>,
    children: seq<string>,
    generation: int)

  type Nodes = map<string, Node>

  /** The generation a node has until one is computed. */
  const Unassigned: int := -1

  /** Every id of `ids` names a node. */
  predicate AllIn(nodes: Nodes, ids: seq<string>)
  {
    forall i :: 0 <= i < |ids| ==> ids[i] in nodes
  }

  /** `nodes.get(ref)`: a parsed id that names no node becomes `None`. */
  function Resolve(nodes: Nodes, ref: Option<string>): (r: Option<string>)
    ensures r.Some? <==> ref.Some? && ref.value in nodes
    ensures r.Some? ==> r == ref
  {
    if ref.Some? && ref.value in nodes then ref else None
  }

  predicate RefOk(nodes: Nodes, ref: Option<string>)
  {
    ref.None? || ref.value in nodes
  }

  /** After linking: every reference names a node. */
  predicate Linked(nodes: Nodes)
  {
    forall k :: k in nodes ==>
      RefOk(nodes, nodes[k].mother) && RefOk(nodes, nodes[k].father) &&
      forall c :: c in nodes[k].children ==> c in nodes
  }

  /** How many of `n`'s parent fields name `p`: 0, 1, or 2 when the mother
      and the father are the same node. */
  function Hits(n: Node, p: string): nat
  {
    (if n.mother == Some(p) then 1 else 0) + (if n.father == Some(p) then 1 else 0)
  }

  /** `k` copies of `x`. */
  function Repeat(x: string, k: nat): seq<string>
  {
    if k == 0 then [] else Repeat(x, k - 1) + [x]
  }

  lemma {:induction false} RepeatSpec(x: string, k: nat)
    ensures |Repeat(x, k)| == k && forall y :: y in Repeat(x, k) ==> y == x
    ensures multiset(Repeat(x, k))[x] == k
  {
    if k > 0 {
      RepeatSpec(x, k - 1);
    }
  }

  /** What the linking loop appends to `p.children`: every node of `order`,
      in that order, once per parent field that names `p`. */
  function ChildEntries(nodes: Nodes, order: seq<string>, p: string): seq<string>
    requires AllIn(nodes, order)
  {
    if order == [] then []
    else ChildEntries(nodes, order[..|order| - 1], p) + Repeat(order[|order| - 1], Hits(nodes[order[|order| - 1]], p))
  }

  /** The children a parent gets are the nodes of `order` that name it as
      mother or father. */
  lemma {:induction false} ChildEntriesMembers(nodes: Nodes, order: seq<string>, p: string)
    requires AllIn(nodes, order)
    ensures forall c :: c in ChildEntries(nodes, order, p) <==> c in order && Hits(nodes[c], p) > 0
  {
    if order != [] {
      var init := order[..|order| - 1];
      var last := order[|order| - 1];
      assert forall c :: c in order <==> c in init || c == last;
      ChildEntriesMembers(nodes, init, p);
      RepeatSpec(last, Hits(nodes[last], p));
      assert Hits(nodes[last], p) > 0 ==> last in Repeat(last, Hits(nodes[last], p));
    }
  }

  /** A child occurs in a parent's list once per parent field of the child
      that names the parent: twice when its mother and father are one node. */
  lemma {:induction false} ChildEntriesCount(nodes: Nodes, order: seq<string>, p: string, c: string)
    requires AllIn(nodes, order) && NoDup(order)
    ensures multiset(ChildEntries(nodes, order, p))[c] == if c in order then Hits(nodes[c], p) else 0
  {
    if order != [] {
      var init := order[..|order| - 1];
      var last := order[|order| - 1];
      assert forall c :: c in order <==> c in init || c == last;
      ChildEntriesCount(nodes, init, p, c);
      var rep := Repeat(last, Hits(nodes[last], p));
      RepeatSpec(last, Hits(nodes[last], p));
      assert multiset(ChildEntries(nodes, order, p)) == multiset(ChildEntries(nodes, init, p)) + multiset(rep);
      if c != last {
        assert c !in rep;
      }
    }
  }

  /** Only the keys decide which parent fields name a node: the parsed ids
      and their resolved forms give the same entries. */
  lemma {:induction false} ChildEntriesResolved(raw: Nodes, linked: Nodes, order: seq<string>, p: string)
    requires AllIn(raw, order) && AllIn(linked, order) && p in raw
    requires forall k :: k in order ==> linked[k].mother == Resolve(raw, raw[k].mother)
    requires forall k :: k in order ==> linked[k].father == Resolve(raw, raw[k].father)
    ensures ChildEntries(linked, order, p) == ChildEntries(raw, order, p)
  {
    if order != [] {
      var init := order[..|order| - 1];
      assert forall k :: k in init ==> k in order;
      ChildEntriesResolved(raw, linked, init, p);
      var last := order[|order| - 1];
      assert Hits(linked[last], p) == Hits(raw[last], p);
    }
  }

  /** Only the parent fields decide the entries. */
  lemma {:induction false} ChildEntriesSameRefs(a: Nodes, b: Nodes, order: seq<string>, p: string)
    requires AllIn(a, order) && AllIn(b, order)
    requires forall k :: k in order ==> a[k].mother == b[k].mother && a[k].father == b[k].father
    ensures ChildEntries(a, order, p) == ChildEntries(b, order, p)
  {
    if order != [] {
      var init := order[..|order| - 1];
      var last := order[|order| - 1];
      forall k | k in init ensures k in order {
        var j :| 0 <= j < |init| && init[j] == k;
        assert order[j] == k;
      }
      ChildEntriesSameRefs(a, b, init, p);
      assert Hits(a[last], p) == Hits(b[last], p);
    }
  }

  /** The state after the linking loop has run over `order`: parent ids
      resolved and each parent's list extended by `ChildEntries`. */
  function LinkAll(nodes: Nodes, order: seq<string>): (r: Nodes)
    requires AllIn(nodes, order)
    ensures r.Keys == nodes.Keys
  {
    map k | k in nodes :: nodes[k].(
      mother := Resolve(nodes, nodes[k].mother),
      father := Resolve(nodes, nodes[k].father),
      children := nodes[k].children + ChildEntries(nodes, order, k))
  }

  /** One iteration of the linking loop, for the node `k`. */
  function LinkStep(ns: Nodes, k: string): Nodes
    requires k in ns
  {
    var n := ns[k];
    var m := Resolve(ns, n.mother);
    var f := Resolve(ns, n.father);
    var a := ns[k := n.(mother := m, father := f)];
    var b := if m.Some? then a[m.value := a[m.value].(children := a[m.value].children + [k])] else a;
    if f.Some? then b[f.value := b[f.value].(children := b[f.value].children + [k])] else b
  }

  /** The dictionary after the linking loop has handled `keys[..i]`. */
  function LinkPrefix(raw: Nodes, keys: seq<string>, i: nat): Nodes
    requires AllIn(raw, keys) && i <= |keys|
  {
    map k | k in raw :: raw[k].(
      mother := if k in keys[..i] then Resolve(raw, raw[k].mother) else raw[k].mother,
      father := if k in keys[..i] then Resolve(raw, raw[k].father) else raw[k].father,
      children := raw[k].children + ChildEntries(raw, keys[..i], k))
  }

  /** Before the loop nothing has changed. */
  lemma LinkPrefixStart(raw: Nodes, keys: seq<string>)
    requires AllIn(raw, keys)
    ensures LinkPrefix(raw, keys, 0) == raw
  {
    assert keys[..0] == [];
    var r := LinkPrefix(raw, keys, 0);
    forall k | k in raw ensures r[k] == raw[k] {
      assert raw[k].children + [] == raw[k].children;
    }
  }

  /** After the loop, over every key: `LinkAll`. */
  lemma LinkPrefixEnd(raw: Nodes, keys: seq<string>)
    requires AllIn(raw, keys) && forall k :: k in raw ==> k in keys
    ensures LinkPrefix(raw, keys, |keys|) == LinkAll(raw, keys)
  {
    assert keys[..|keys|] == keys;
  }

  /** What one iteration does to the node `p`: the node `k` has its own
      references resolved, and `k` is appended to `p`'s children once per
      resolved parent field of `k` that names `p`. */
  lemma LinkStepAt(ns: Nodes, k: string, p: string)
    requires k in ns && p in ns
    ensures var m := Resolve(ns, ns[k].mother);
            var f := Resolve(ns, ns[k].father);
            var h := (if m == Some(p) then 1 else 0) + (if f == Some(p) then 1 else 0);
            p in LinkStep(ns, k) &&
            LinkStep(ns, k)[p] == ns[p].(
              mother := if p == k then m else ns[p].mother,
              father := if p == k then f else ns[p].father,
              children := ns[p].children + Repeat(k, h))
  {
    var m := Resolve(ns, ns[k].mother);
    var f := Resolve(ns, ns[k].father);
    var h := (if m == Some(p) then 1 else 0) + (if f == Some(p) then 1 else 0);
    assert Repeat(k, 0) == [];
    assert Repeat(k, 1) == [k];
    assert Repeat(k, 2) == [k] + [k];
    var a := ns[k := ns[k].(mother := m, father := f)];
    assert a[p] == ns[p].(mother := if p == k then m else ns[p].mother, father := if p == k then f else ns[p].father);
  }

  /** The prefix `keys[..i + 1]` adds only `keys[i]`, which is new. */
  lemma PrefixFacts(keys: seq<string>, i: nat)
    requires NoDup(keys) && i < |keys|
    ensures keys[i] !in keys[..i]
    ensures forall x :: x in keys[..i + 1] <==> x in keys[..i] || x == keys[i]
  {
    assert keys[..i + 1] == keys[..i] + [keys[i]];
    forall x | x in keys[..i] ensures x != keys[i] {
      var j :| 0 <= j < i && keys[..i][j] == x;
    }
  }

  /** One more key of the prefix appends its entries for `p`. */
  lemma ChildEntriesSnoc(raw: Nodes, keys: seq<string>, i: nat, p: string)
    requires AllIn(raw, keys) && i < |keys|
    ensures ChildEntries(raw, keys[..i + 1], p) == ChildEntries(raw, keys[..i], p) + Repeat(keys[i], Hits(raw[keys[i]], p))
  {
    assert keys[..i + 1][..i] == keys[..i];
  }

  /** The step lemma at one node `p`. */
  lemma LinkPrefixStepAt(raw: Nodes, keys: seq<string>, i: nat, p: string)
    requires NoDup(keys) && AllIn(raw, keys) && i < |keys| && p in raw
    ensures keys[i] in LinkPrefix(raw, keys, i)
    ensures var r := LinkStep(LinkPrefix(raw, keys, i), keys[i]);
            p in r && r[p] == LinkPrefix(raw, keys, i + 1)[p]
  {
    var k := keys[i];
    var ns := LinkPrefix(raw, keys, i);
    var next := LinkPrefix(raw, keys, i + 1);
    PrefixFacts(keys, i);
    assert ns[k].mother == raw[k].mother && ns[k].father == raw[k].father;
    var m := Resolve(ns, ns[k].mother);
    var f := Resolve(ns, ns[k].father);
    assert m == Resolve(raw, raw[k].mother) && f == Resolve(raw, raw[k].father);
    LinkStepAt(ns, k, p);
    var h := (if m == Some(p) then 1 else 0) + (if f == Some(p) then 1 else 0);
    assert h == Hits(raw[k], p);
    var before := ChildEntries(raw, keys[..i], p);
    var rep := Repeat(k, h);
    var r := LinkStep(ns, k);
    assert r[p].children == raw[p].children + before + rep;
    assert next[p].children == raw[p].children + (before + rep) by {
      ChildEntriesSnoc(raw, keys, i, p);
    }
    ConcatAssoc(raw[p].children, before, rep);
    assert r[p].mother == next[p].mother && r[p].father == next[p].father;
  }

  /** One more iteration handles one more key: the node's own references are
      resolved and it is appended once to each resolved parent field. */
  lemma LinkPrefixStep(raw: Nodes, keys: seq<string>, i: nat)
    requires NoDup(keys) && AllIn(raw, keys) && i < |keys|
    ensures keys[i] in LinkPrefix(raw, keys, i)
    ensures LinkStep(LinkPrefix(raw, keys, i), keys[i]) == LinkPrefix(raw, keys, i + 1)
  {
    var r := LinkStep(LinkPrefix(raw, keys, i), keys[i]);
    var next := LinkPrefix(raw, keys, i + 1);
    forall p | p in raw ensures p in r && r[p] == next[p] {
      LinkPrefixStepAt(raw, keys, i, p);
    }
    assert r.Keys == next.Keys;
  }

  /** Each node's children are exactly what linking appends for it. */
  ghost predicate ChildrenConsistent(nodes: Nodes, order: seq<string>)
  {
    AllIn(nodes, order) &&
    forall p :: p in nodes ==> nodes[p].children == ChildEntries(nodes, order, p)
  }

  /** After linking, every reference names a node. */
  lemma LinkAllLinked(nodes: Nodes, order: seq<string>)
    requires AllIn(nodes, order) && forall k :: k in nodes ==> nodes[k].children == []
    ensures Linked(LinkAll(nodes, order))
  {
    var r := LinkAll(nodes, order);
    forall p | p in r
      ensures RefOk(r, r[p].mother) && RefOk(r, r[p].father) && forall c :: c in r[p].children ==> c in r
    {
      ChildEntriesMembers(nodes, order, p);
      assert r[p].children == [] + ChildEntries(nodes, order, p);
    }
  }

  /** After linking fresh nodes, each list of children is what linking appends. */
  lemma LinkAllConsistent(nodes: Nodes, order: seq<string>)
    requires AllIn(nodes, order) && forall k :: k in nodes ==> nodes[k].children == []
    ensures ChildrenConsistent(LinkAll(nodes, order), order)
  {
    var r := LinkAll(nodes, order);
    forall p | p in r
      ensures r[p].children == ChildEntries(r, order, p)
    {
      ChildEntriesResolved(nodes, r, order, p);
      assert r[p].children == [] + ChildEntries(nodes, order, p);
    }
  }

  /** Linking fresh nodes (no children yet) over all of their keys leaves
      every reference resolved, the other fields alone, and each parent's
      children list made of its own children. */
  lemma LinkAllSound(nodes: Nodes, order: seq<string>)
    requires AllIn(nodes, order)
    requires forall k :: k in nodes ==> nodes[k].children == []
    ensures var r := LinkAll(nodes, order);
            Linked(r) && ChildrenConsistent(r, order) &&
            forall k :: k in nodes ==> r[k].id == nodes[k].id && r[k].name == nodes[k].name && r[k].generation == nodes[k].generation
  {
    LinkAllLinked(nodes, order);
    LinkAllConsistent(nodes, order);
  }

  // ---------------------------------------------------------------------
  // Roles (`visualize_with_graphviz`)

  /** `node` is the mother of one of its own children. */
  ghost predicate MotherEvidence(nodes: Nodes, p: string)
  {
    p in nodes && exists c :: c in nodes[p].children && c in nodes && nodes[c].mother == Some(p)
  }

  ghost predicate FatherEvidence(nodes: Nodes, p: string)
  {
    p in nodes && exists c :: c in nodes[p].children && c in nodes && nodes[c].father == Some(p)
  }

  /** Some node of `cs` names `p` as its mother (`asMother`) or father. */
  ghost predicate NamesAs(nodes: Nodes, cs: seq<string>, p: string, asMother: bool)
  {
    exists c :: c in cs && c in nodes && (if asMother then nodes[c].mother else nodes[c].father) == Some(p)
  }

  lemma NamesAsStep(nodes: Nodes, cs: seq<string>, j: nat, p: string)
    requires j < |cs| && cs[j] in nodes
    ensures forall asMother: bool :: NamesAs(nodes, cs[..j + 1], p, asMother) <==>
      NamesAs(nodes, cs[..j], p, asMother) || (if asMother then nodes[cs[j]].mother else nodes[cs[j]].father) == Some(p)
  {
    forall asMother: bool
      ensures NamesAs(nodes, cs[..j + 1], p, asMother) <==>
        NamesAs(nodes, cs[..j], p, asMother) || (if asMother then nodes[cs[j]].mother else nodes[cs[j]].father) == Some(p)
    {
      assert forall c :: c in cs[..j + 1] <==> c in cs[..j] || c == cs[j] by {
        assert cs[..j + 1] == cs[..j] + [cs[j]];
      }
      if NamesAs(nodes, cs[..j + 1], p, asMother) {
        var c :| c in cs[..j + 1] && c in nodes && (if asMother then nodes[c].mother else nodes[c].father) == Some(p);
        if c != cs[j] {
          assert c in cs[..j];
        }
      }
      if (if asMother then nodes[cs[j]].mother else nodes[cs[j]].father) == Some(p) {
        assert cs[j] in cs[..j + 1];
      }
    }
  }

  lemma EvidenceIsNamesAs(nodes: Nodes, p: string)
    requires p in nodes
    ensures MotherEvidence(nodes, p) <==> NamesAs(nodes, nodes[p].children, p, true)
    ensures FatherEvidence(nodes, p) <==> NamesAs(nodes, nodes[p].children, p, false)
  {
  }

  /** In a linked tree the mother role is exactly "some node names p as its
      mother", and likewise for the father role. */
  lemma RolesAreDeclared(nodes: Nodes, order: seq<string>, p: string)
    requires ChildrenConsistent(nodes, order) && p in nodes
    ensures MotherEvidence(nodes, p) <==> exists c :: c in order && nodes[c].mother == Some(p)
    ensures FatherEvidence(nodes, p) <==> exists c :: c in order && nodes[c].father == Some(p)
  {
    ChildEntriesMembers(nodes, order, p);
    assert forall c :: c in nodes[p].children <==> c in order && Hits(nodes[c], p) > 0;
  }
}
