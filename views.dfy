/** What the drawing code computes from a generated tree before handing it to
    a library: the child order of `print_tree`, the parent groups of
    `_group_parents`, the generation buckets of `_calculate_positions`, and the
    colours and edges of `visualize_with_graphviz`. */
module Views {
  import opened Common
  import opened FamilyGraph

  // ---------------------------------------------------------------------
  // print_tree

  /** One printed line: depth, the node, its name and generation. */
  datatype Line = Line(level: nat, id: string, name: string, generation: int)

  function LineIds(lines: seq<Line>): (r: seq<string>)
    ensures |r| == |lines| && forall t :: 0 <= t < |lines| ==> r[t] == lines[t].id
  {
    seq(|lines|, t requires 0 <= t < |lines| => lines[t].id)
  }

  /** The line shows the node's current name and generation. */
  predicate Shows(nodes: Nodes, l: Line)
  {
    l.id in nodes && l.name == nodes[l.id].name && l.generation == nodes[l.id].generation
  }

  /** The lines one level below `level` come in non-increasing generation. */
  ghost predicate DirectChildrenSorted(lines: seq<Line>, level: nat)
  {
    forall t, u :: 0 < t < u < |lines| && lines[t].level == level + 1 && lines[u].level == level + 1 ==>
      lines[t].generation >= lines[u].generation
  }

  /** What the child loop of `print_tree` keeps once the first `j` of the
      sorted children `kids` are done: every line shows its node, the lines
      after the first are deeper, the direct children among them are from
      `kids[..j]` in non-increasing generation, the printed ids are
      distinct and exactly the nodes newly visited, and each of `kids[..j]`
      has been visited. */
  ghost predicate PrintedPrefix(nodes: Nodes, lines: seq<Line>, level: nat, kids: seq<string>, j: nat,
                                visited: set<string>, seen: set<string>)
    requires j <= |kids|
  {
    lines != [] && (forall t :: 0 <= t < |lines| ==> Shows(nodes, lines[t])) &&
    (forall t :: 1 <= t < |lines| ==> lines[t].level > level) &&
    (forall t :: 1 <= t < |lines| && lines[t].level == level + 1 ==> lines[t].id in kids[..j]) &&
    DirectChildrenSorted(lines, level) &&
    NoDup(LineIds(lines)) && (forall x :: x in LineIds(lines) <==> x in seen - visited) &&
    (forall c :: c in kids[..j] ==> c in seen)
  }

  /** Every node newly visited (in `seen` but not in `visited`) has had all
      its children visited too: the walk went all the way down. */
  ghost predicate Expanded(nodes: Nodes, visited: set<string>, seen: set<string>)
  {
    forall x :: x in seen && x !in visited && x in nodes ==>
      forall c :: c in nodes[x].children ==> c in seen
  }

  /** A call that expands the nodes it newly visits, after one that did the
      same, leaves every node newly visited by both expanded. */
  lemma ExpandedTrans(nodes: Nodes, visited: set<string>, seen: set<string>, seen2: set<string>)
    requires seen <= seen2 && Expanded(nodes, visited, seen) && Expanded(nodes, seen, seen2)
    ensures Expanded(nodes, visited, seen2)
  {
  }

  /** Once all of `id`'s children are visited, `id` itself is expanded. */
  lemma ExpandedClose(nodes: Nodes, visited: set<string>, id: string, seen: set<string>)
    requires id in nodes && Expanded(nodes, visited + {id}, seen)
    requires forall c :: c in nodes[id].children ==> c in seen
    ensures Expanded(nodes, visited, seen)
  {
  }

  /** Line `t` hangs below line `u`: `u` is one level up and shows a parent
      of `t`'s node, and every line between the two is deeper than `u`. */
  ghost predicate HangsBelow(nodes: Nodes, lines: seq<Line>, u: int, t: int)
    requires 0 <= u < t < |lines|
  {
    lines[u].level + 1 == lines[t].level &&
    lines[u].id in nodes && lines[t].id in nodes[lines[u].id].children &&
    forall v :: u < v < t ==> lines[v].level > lines[u].level
  }

  /** Line `t` hangs below some earlier line. */
  ghost predicate HasParentLine(nodes: Nodes, lines: seq<Line>, t: int)
    requires 0 <= t < |lines|
  {
    exists u :: 0 <= u < t && HangsBelow(nodes, lines, u, t)
  }

  /** Each line after the first hangs below an earlier one, one level up. */
  ghost predicate Nested(nodes: Nodes, lines: seq<Line>)
  {
    forall t :: 1 <= t < |lines| ==> HasParentLine(nodes, lines, t)
  }

  /** Appending a child's listing below the first line keeps the lines nested. */
  lemma AppendNested(nodes: Nodes, lines: seq<Line>, more: seq<Line>)
    requires lines != [] && Nested(nodes, lines) && Nested(nodes, more)
    requires forall t :: 1 <= t < |lines| ==> lines[t].level > lines[0].level
    requires more != [] ==> more[0].level == lines[0].level + 1 && lines[0].id in nodes &&
                            more[0].id in nodes[lines[0].id].children
    ensures Nested(nodes, lines + more)
  {
    var all := lines + more;
    forall t | 1 <= t < |all|
      ensures HasParentLine(nodes, all, t)
    {
      if t < |lines| {
        assert HasParentLine(nodes, lines, t);
        var u :| 0 <= u < t && HangsBelow(nodes, lines, u, t);
        assert forall v :: u <= v <= t ==> all[v] == lines[v];
        assert HangsBelow(nodes, all, u, t);
      } else if t == |lines| {
        assert forall v :: 0 <= v < t ==> all[v] == lines[v];
        assert all[t] == more[0];
        assert HangsBelow(nodes, all, 0, t);
      } else {
        var t' := t - |lines|;
        assert HasParentLine(nodes, more, t');
        var u' :| 0 <= u' < t' && HangsBelow(nodes, more, u', t');
        var u := u' + |lines|;
        assert forall v :: u <= v <= t ==> all[v] == more[v - |lines|];
        assert HangsBelow(nodes, all, u, t);
      }
    }
  }

  /** Appending the lines of the nodes newly seen by one call keeps the
      printed ids distinct and equal to the nodes seen so far. */
  lemma AppendIds(lines: seq<Line>, more: seq<Line>, visited: set<string>, seen: set<string>, seen2: set<string>)
    requires NoDup(LineIds(lines)) && forall x :: x in LineIds(lines) <==> x in seen - visited
    requires visited <= seen && seen <= seen2
    requires NoDup(LineIds(more)) && forall x :: x in LineIds(more) <==> x in seen2 - seen
    ensures NoDup(LineIds(lines + more)) && forall x :: x in LineIds(lines + more) <==> x in seen2 - visited
  {
    assert LineIds(lines + more) == LineIds(lines) + LineIds(more);
    NoDupConcat(LineIds(lines), LineIds(more));
  }

  /** Appending the lines of child `kids[j]`: the direct children printed
      so far are from `kids[..j + 1]`. */
  lemma AppendDirect(lines: seq<Line>, more: seq<Line>, level: nat, kids: seq<string>, j: nat)
    requires j < |kids|
    requires forall t :: 1 <= t < |lines| && lines[t].level == level + 1 ==> lines[t].id in kids[..j]
    requires more != [] ==> more[0].id == kids[j] && more[0].level == level + 1
    requires forall t :: 1 <= t < |more| ==> more[t].level > level + 1
    ensures forall t :: 1 <= t < |lines + more| && (lines + more)[t].level == level + 1 ==>
      (lines + more)[t].id in kids[..j + 1]
  {
    var all := lines + more;
    TakeSnoc(kids, j);
    forall t | 1 <= t < |all| && all[t].level == level + 1
      ensures all[t].id in kids[..j + 1]
    {
      if t >= |lines| {
        assert all[t] == more[t - |lines|];
      }
    }
  }

  /** Appending the lines of child `kids[j]`, whose generation is at most
      that of every earlier child, keeps the direct children sorted. */
  lemma AppendSorted(nodes: Nodes, lines: seq<Line>, more: seq<Line>, level: nat, kids: seq<string>, j: nat)
    requires AllIn(nodes, kids) && NonIncreasing(nodes, kids) && j < |kids|
    requires lines != [] && forall t :: 0 <= t < |lines| ==> Shows(nodes, lines[t])
    requires forall t :: 1 <= t < |lines| && lines[t].level == level + 1 ==> lines[t].id in kids[..j]
    requires DirectChildrenSorted(lines, level)
    requires more != [] ==> more[0].id == kids[j] && more[0].level == level + 1 && Shows(nodes, more[0])
    requires forall t :: 1 <= t < |more| ==> more[t].level > level + 1
    ensures DirectChildrenSorted(lines + more, level)
  {
    var all := lines + more;
    forall t, u | 0 < t < u < |all| && all[t].level == level + 1 && all[u].level == level + 1
      ensures all[t].generation >= all[u].generation
    {
      if u >= |lines| {
        assert all[u] == more[u - |lines|] && u == |lines|;
        assert all[t].id in kids[..j];
        var k :| 0 <= k < j && kids[k] == all[t].id;
      }
    }
  }

  ghost predicate NonIncreasing(nodes: Nodes, s: seq<string>)
    requires AllIn(nodes, s)
  {
    forall i, j :: 0 <= i < j < |s| ==> nodes[s[i]].generation >= nodes[s[j]].generation
  }

  /** Puts `x` before the first element whose generation is not above its own. */
  function InsertDesc(nodes: Nodes, x: string, t: seq<string>): (r: seq<string>)
    requires x in nodes && AllIn(nodes, t)
    ensures AllIn(nodes, r) && multiset(r) == multiset(t) + multiset{x}
    ensures forall y :: y in r <==> y == x || y in t
  {
    if t == [] || nodes[t[0]].generation <= nodes[x].generation then [x] + t
    else
      assert t == [t[0]] + t[1..];
      var r := [t[0]] + InsertDesc(nodes, x, t[1..]);
      assert forall y :: y in t <==> y == t[0] || y in t[1..];
      r
  }

  /** Every generation in `s` is at most `g`. */
  ghost predicate AtMost(nodes: Nodes, s: seq<string>, g: int)
    requires AllIn(nodes, s)
  {
    forall i :: 0 <= i < |s| ==> nodes[s[i]].generation <= g
  }

  /** A list is non-increasing when its head bounds its tail and the tail is. */
  lemma ConsNonIncreasing(nodes: Nodes, s: seq<string>)
    requires AllIn(nodes, s) && s != [] && NonIncreasing(nodes, s[1..])
    requires AtMost(nodes, s[1..], nodes[s[0]].generation)
    ensures NonIncreasing(nodes, s)
  {
    forall i, j | 0 <= i < j < |s| ensures nodes[s[i]].generation >= nodes[s[j]].generation {
      assert s[j] == s[1..][j - 1];
      if i > 0 { assert s[i] == s[1..][i - 1]; }
    }
  }

  /** Inserting into a list sorted by descending generation keeps it sorted. */
  lemma {:induction false} InsertDescSorted(nodes: Nodes, x: string, t: seq<string>)
    requires x in nodes && AllIn(nodes, t) && NonIncreasing(nodes, t)
    ensures NonIncreasing(nodes, InsertDesc(nodes, x, t))
  {
    var r := InsertDesc(nodes, x, t);
    if t == [] || nodes[t[0]].generation <= nodes[x].generation {
      assert r[1..] == t;
      if t != [] {
        forall i | 0 <= i < |t| ensures nodes[t[i]].generation <= nodes[x].generation {
          if i > 0 { assert nodes[t[0]].generation >= nodes[t[i]].generation; }
        }
      }
      ConsNonIncreasing(nodes, r);
    } else {
      var rest := InsertDesc(nodes, x, t[1..]);
      assert r[1..] == rest;
      assert NonIncreasing(nodes, t[1..]) by {
        forall i, j | 0 <= i < j < |t[1..]| ensures nodes[t[1..][i]].generation >= nodes[t[1..][j]].generation {
          assert t[1..][i] == t[i + 1] && t[1..][j] == t[j + 1];
        }
      }
      InsertDescSorted(nodes, x, t[1..]);
      forall i | 0 <= i < |rest| ensures nodes[rest[i]].generation <= nodes[t[0]].generation {
        var y := rest[i];
        assert y in rest;
        if y != x {
          var k :| 0 <= k < |t[1..]| && t[1..][k] == y;
          assert t[k + 1] == y;
        }
      }
      ConsNonIncreasing(nodes, r);
    }
  }

  /** `sorted(children, key=lambda x: x.generation, reverse=True)`:
      generations in non-increasing order, the same elements. Equal
      generations keep their order, as in Python's stable sort. */
  function SortByGenerationDesc(nodes: Nodes, s: seq<string>): (r: seq<string>)
    requires AllIn(nodes, s)
    ensures AllIn(nodes, r) && NonIncreasing(nodes, r)
    ensures multiset(r) == multiset(s)
  {
    if s == [] then []
    else
      assert s == [s[0]] + s[1..];
      var rest := SortByGenerationDesc(nodes, s[1..]);
      InsertDescSorted(nodes, s[0], rest);
      InsertDesc(nodes, s[0], rest)
  }

  /** Sorting only reorders: the sorted children are exactly the children. */
  lemma SortedFrom(nodes: Nodes, s: seq<string>)
    requires AllIn(nodes, s)
    ensures forall x :: x in SortByGenerationDesc(nodes, s) <==> x in s
  {
    var r := SortByGenerationDesc(nodes, s);
    forall x | x in r ensures x in s {
      assert x in multiset(r);
    }
    forall x | x in s ensures x in r {
      assert x in multiset(s);
    }
  }

  /** The recursion of `print_tree`, as a definition: a visited node prints
      nothing; otherwise its own line comes first, then the listing of each
      child in descending generation, one level deeper, each child's call
      seeing every node the earlier calls visited. The second component is
      the visited set afterwards. */
  ghost function Listing(nodes: Nodes, id: string, level: nat, visited: set<string>): (r: (seq<Line>, set<string>))
    requires Linked(nodes) && id in nodes
    ensures visited <= r.1
    ensures id !in visited ==> id in r.1
    decreases nodes.Keys - visited, 0
  {
    if id in visited then ([], visited)
    else
      var kids := SortByGenerationDesc(nodes, nodes[id].children);
      var rest := ListKids(nodes, kids, level, visited + {id});
      ([Line(level, id, nodes[id].name, nodes[id].generation)] + rest.0, rest.1)
  }

  /** The child loop of `print_tree`: the listings of `kids`, one after the
      other, at one level below `level`. */
  ghost function ListKids(nodes: Nodes, kids: seq<string>, level: nat, seen: set<string>): (r: (seq<Line>, set<string>))
    requires Linked(nodes) && AllIn(nodes, kids)
    ensures seen <= r.1
    decreases nodes.Keys - seen, 1, |kids|
  {
    if kids == [] then ([], seen)
    else
      var first := Listing(nodes, kids[0], level + 1, seen);
      var rest := ListKids(nodes, kids[1..], level, first.1);
      (first.0 + rest.0, rest.1)
  }

  /** The child loop after `j` children: the listing of child `j`, then
      that of the children after it. */
  lemma ListKidsAt(nodes: Nodes, kids: seq<string>, j: nat, level: nat, seen: set<string>)
    requires Linked(nodes) && AllIn(nodes, kids) && j < |kids|
    ensures AllIn(nodes, kids[j..]) && AllIn(nodes, kids[j + 1..])
    ensures var first := Listing(nodes, kids[j], level + 1, seen);
            var rest := ListKids(nodes, kids[j + 1..], level, first.1);
            ListKids(nodes, kids[j..], level, seen) == (first.0 + rest.0, rest.1)
  {
    assert kids[j..][0] == kids[j] && kids[j..][1..] == kids[j + 1..];
  }

  /** A node without children, not yet visited, lists just its own line. */
  lemma ListingLeaf(nodes: Nodes, id: string, level: nat, visited: set<string>)
    requires Linked(nodes) && id in nodes && id !in visited && nodes[id].children == []
    ensures Listing(nodes, id, level, visited) ==
            ([Line(level, id, nodes[id].name, nodes[id].generation)], visited + {id})
  {
    assert SortByGenerationDesc(nodes, []) == [];
    assert ListKids(nodes, [], level, visited + {id}) == ([], visited + {id});
    ListingUnfold(nodes, id, level, visited);
    assert [Line(level, id, nodes[id].name, nodes[id].generation)] + [] ==
           [Line(level, id, nodes[id].name, nodes[id].generation)];
  }

  /** `Listing` of a node not yet visited, unfolded once. */
  lemma ListingUnfold(nodes: Nodes, id: string, level: nat, visited: set<string>)
    requires Linked(nodes) && id in nodes && id !in visited
    ensures var kids := SortByGenerationDesc(nodes, nodes[id].children);
            var rest := ListKids(nodes, kids, level, visited + {id});
            Listing(nodes, id, level, visited) ==
            ([Line(level, id, nodes[id].name, nodes[id].generation)] + rest.0, rest.1)
  {
  }

  /** `ListKids` of a non-empty list, unfolded once. */
  lemma ListKidsCons(nodes: Nodes, kids: seq<string>, level: nat, seen: set<string>)
    requires Linked(nodes) && AllIn(nodes, kids) && kids != []
    ensures AllIn(nodes, kids[1..])
    ensures var first := Listing(nodes, kids[0], level + 1, seen);
            var rest := ListKids(nodes, kids[1..], level, first.1);
            ListKids(nodes, kids, level, seen) == (first.0 + rest.0, rest.1)
  {
  }

  /** The child loop over `a + b` lists all of `a` first, each child's
      subtree complete before the next child starts, and then `b`, seeing
      every node the listings of `a` visited. */
  lemma {:induction false} ListKidsAppend(nodes: Nodes, a: seq<string>, b: seq<string>, level: nat, seen: set<string>)
    requires Linked(nodes) && AllIn(nodes, a) && AllIn(nodes, b)
    ensures AllIn(nodes, a + b)
    ensures var ra := ListKids(nodes, a, level, seen);
            var rb := ListKids(nodes, b, level, ra.1);
            ListKids(nodes, a + b, level, seen) == (ra.0 + rb.0, rb.1)
    decreases |a|
  {
    if a == [] {
      assert a + b == b;
      assert ListKids(nodes, a, level, seen) == ([], seen);
      assert [] + ListKids(nodes, b, level, seen).0 == ListKids(nodes, b, level, seen).0;
    } else {
      var first := Listing(nodes, a[0], level + 1, seen);
      assert (a + b)[0] == a[0] && (a + b)[1..] == a[1..] + b;
      ListKidsCons(nodes, a, level, seen);
      ListKidsCons(nodes, a + b, level, seen);
      ListKidsAppend(nodes, a[1..], b, level, first.1);
      var ra' := ListKids(nodes, a[1..], level, first.1);
      var rb := ListKids(nodes, b, level, ra'.1);
      ConcatAssoc(first.0, ra'.0, rb.0);
    }
  }

  /** What the child loop of `print_tree` keeps about the whole call: the
      lines printed so far followed by the listings of the children not yet
      done make up the node's listing. */
  ghost predicate ListedSoFar(nodes: Nodes, id: string, level: nat, visited: set<string>,
                              lines: seq<Line>, kids: seq<string>, j: nat, seen: set<string>)
    requires Linked(nodes) && id in nodes && AllIn(nodes, kids) && j <= |kids|
  {
    var rest := ListKids(nodes, kids[j..], level, seen);
    AllIn(nodes, kids[j..]) && Listing(nodes, id, level, visited) == (lines + rest.0, rest.1)
  }

  /** Before the child loop: the node's line, and all its sorted children to go. */
  lemma ListedStart(nodes: Nodes, id: string, level: nat, visited: set<string>)
    requires Linked(nodes) && id in nodes && id !in visited
    ensures var kids := SortByGenerationDesc(nodes, nodes[id].children);
            ListedSoFar(nodes, id, level, visited, [Line(level, id, nodes[id].name, nodes[id].generation)],
                        kids, 0, visited + {id})
  {
    var kids := SortByGenerationDesc(nodes, nodes[id].children);
    assert kids[0..] == kids;
  }

  /** One turn of the child loop: the listing of child `j` is printed next. */
  lemma ListedStep(nodes: Nodes, id: string, level: nat, visited: set<string>,
                   lines: seq<Line>, kids: seq<string>, j: nat, seen: set<string>,
                   more: seq<Line>, seen2: set<string>)
    requires Linked(nodes) && id in nodes && AllIn(nodes, kids) && j < |kids|
    requires ListedSoFar(nodes, id, level, visited, lines, kids, j, seen)
    requires (more, seen2) == Listing(nodes, kids[j], level + 1, seen)
    ensures ListedSoFar(nodes, id, level, visited, lines + more, kids, j + 1, seen2)
  {
    ListKidsAt(nodes, kids, j, level, seen);
    ConcatAssoc(lines, more, ListKids(nodes, kids[j + 1..], level, seen2).0);
  }

  /** After the child loop: what was printed is the node's whole listing. */
  lemma ListedEnd(nodes: Nodes, id: string, level: nat, visited: set<string>,
                  lines: seq<Line>, kids: seq<string>, seen: set<string>)
    requires Linked(nodes) && id in nodes && AllIn(nodes, kids)
    requires ListedSoFar(nodes, id, level, visited, lines, kids, |kids|, seen)
    ensures Listing(nodes, id, level, visited) == (lines, seen)
  {
    assert kids[|kids|..] == [];
    assert lines + [] == lines;
  }

  // ---------------------------------------------------------------------
  // _group_parents

  /** Python's `<=` on strings: code points compared from the left, a prefix first. */
  predicate LexLe(a: string, b: string)
    decreases |a|
  {
    a == [] || (b != [] && (a[0] < b[0] || (a[0] == b[0] && LexLe(a[1..], b[1..]))))
  }

  lemma {:induction false} LexTotal(a: string, b: string)
    ensures LexLe(a, b) || LexLe(b, a)
    decreases |a|
  {
    if a != [] && b != [] && a[0] == b[0] {
      LexTotal(a[1..], b[1..]);
    }
  }

  /** `[p.id for p in [node.mother, node.father] if p]` */
  function PresentParents(n: Node): seq<string>
  {
    (if n.mother.Some? then [n.mother.value] else []) + (if n.father.Some? then [n.father.value] else [])
  }

  /** `tuple(sorted(...))` of the present parents: the group key. */
  function ParentKey(n: Node): seq<string>
  {
    var ps := PresentParents(n);
    if |ps| == 2 && !LexLe(ps[0], ps[1]) then [ps[1], ps[0]] else ps
  }

  /** The group key of each node of `ids`, in order. */
  function KeysOf(nodes: Nodes, ids: seq<string>): (r: seq<seq<string>>)
    requires AllIn(nodes, ids)
    ensures |r| == |ids| && forall i :: 0 <= i < |ids| ==> r[i] == ParentKey(nodes[ids[i]])
  {
    seq(|ids|, i requires 0 <= i < |ids| => ParentKey(nodes[ids[i]]))
  }

  /** The key holds the present parents, as many times as they are present,
      in ascending order. */
  lemma ParentKeySpec(n: Node)
    ensures multiset(ParentKey(n)) == multiset(PresentParents(n))
    ensures |ParentKey(n)| == 2 ==> LexLe(ParentKey(n)[0], ParentKey(n)[1])
  {
    var ps := PresentParents(n);
    if |ps| == 2 && !LexLe(ps[0], ps[1]) {
      LexTotal(ps[0], ps[1]);
      assert ps == [ps[0], ps[1]];
    }
  }

  /** The nodes of `ids`, in order, whose key is `key`. */
  function WithKey(nodes: Nodes, ids: seq<string>, key: seq<string>): seq<string>
    requires AllIn(nodes, ids)
  {
    if ids == [] then []
    else
      var last := ids[|ids| - 1];
      WithKey(nodes, ids[..|ids| - 1], key) + (if ParentKey(nodes[last]) == key then [last] else [])
  }

  /** A node is in the list for `key` exactly when it is an input node with that key. */
  lemma {:induction false} WithKeyMembers(nodes: Nodes, ids: seq<string>, key: seq<string>)
    requires AllIn(nodes, ids)
    ensures forall x :: x in WithKey(nodes, ids, key) <==> x in ids && ParentKey(nodes[x]) == key
  {
    if ids != [] {
      var init := ids[..|ids| - 1];
      var last := ids[|ids| - 1];
      assert forall c :: c in ids <==> c in init || c == last;
      WithKeyMembers(nodes, init, key);
    }
  }

  /** Every node filed under a key has that key. */
  lemma FiledUnderOwnKey(nodes: Nodes, ids: seq<string>, filed: map<seq<string>, seq<string>>)
    requires AllIn(nodes, ids)
    requires forall k :: k in filed ==> filed[k] == WithKey(nodes, ids, k)
    ensures forall k :: k in filed ==> forall x :: x in filed[k] ==> x in nodes && ParentKey(nodes[x]) == k
  {
    forall k | k in filed ensures forall x :: x in filed[k] ==> x in nodes && ParentKey(nodes[x]) == k {
      WithKeyMembers(nodes, ids, k);
    }
  }

  /** When each group holds the nodes of its key and every key is a group's,
      every node is in some group. */
  lemma GroupsCover(nodes: Nodes, ids: seq<string>, groups: seq<Group>)
    requires AllIn(nodes, ids)
    requires forall t :: 0 <= t < |groups| ==> groups[t].children == WithKey(nodes, ids, groups[t].parents)
    requires forall x :: x in ids ==> ParentKey(nodes[x]) in GroupKeys(groups)
    ensures forall x :: x in ids ==> exists t :: 0 <= t < |groups| && x in groups[t].children
  {
    forall x | x in ids ensures exists t :: 0 <= t < |groups| && x in groups[t].children {
      var keys := GroupKeys(groups);
      var u :| 0 <= u < |keys| && keys[u] == ParentKey(nodes[x]);
      WithKeyMembers(nodes, ids, keys[u]);
      assert x in groups[u].children;
    }
  }

  /** Filing one more input node extends only the list of its own key. */
  lemma WithKeyStep(nodes: Nodes, ids: seq<string>, i: nat, key: seq<string>)
    requires AllIn(nodes, ids) && i < |ids|
    ensures WithKey(nodes, ids[..i + 1], key) ==
      WithKey(nodes, ids[..i], key) + (if ParentKey(nodes[ids[i]]) == key then [ids[i]] else [])
  {
    assert ids[..i + 1][..i] == ids[..i];
  }

  /** `[pid for pid in ids if pid in nodes]` */
  function Known(nodes: Nodes, ids: seq<string>): seq<string>
  {
    if ids == [] then []
    else Known(nodes, ids[..|ids| - 1]) + (if ids[|ids| - 1] in nodes then [ids[|ids| - 1]] else [])
  }

  /** Looking up ids that all name nodes drops none of them. */
  lemma {:induction false} KnownAll(nodes: Nodes, ids: seq<string>)
    requires forall x :: x in ids ==> x in nodes
    ensures Known(nodes, ids) == ids
  {
    if ids != [] {
      var init := ids[..|ids| - 1];
      assert forall x :: x in init ==> x in ids;
      KnownAll(nodes, init);
      assert init + [ids[|ids| - 1]] == ids;
    }
  }

  /** In a linked tree a group key names only nodes, so the lookup drops none. */
  lemma ParentKeyKnown(nodes: Nodes, c: string)
    requires Linked(nodes) && c in nodes
    ensures Known(nodes, ParentKey(nodes[c])) == ParentKey(nodes[c])
  {
    var ps := PresentParents(nodes[c]);
    assert forall x :: x in ps ==> x in nodes;
    var key := ParentKey(nodes[c]);
    assert key == ps || (|ps| == 2 && key == [ps[1], ps[0]]);
    KnownAll(nodes, key);
  }

  /** A group: the sorted parent ids and the children that share them. */
  datatype Group = Group(parents: seq<string>, children: seq<string>)

  function GroupKeys(groups: seq<Group>): (r: seq<seq<string>>)
    ensures |r| == |groups| && forall t :: 0 <= t < |groups| ==> r[t] == groups[t].parents
  {
    seq(|groups|, t requires 0 <= t < |groups| => groups[t].parents)
  }

  /** How many children all the groups hold together. */
  function GroupedCount(groups: seq<Group>): nat
  {
    if groups == [] then 0 else GroupedCount(groups[..|groups| - 1]) + |groups[|groups| - 1].children|
  }

  /** The total length of the lists filed under `keys`. */
  function FiledCount(keys: seq<seq<string>>, filed: map<seq<string>, seq<string>>): nat
    requires forall t :: 0 <= t < |keys| ==> keys[t] in filed
  {
    if keys == [] then 0
    else FiledCount(keys[..|keys| - 1], filed) + |filed[keys[|keys| - 1]]|
  }

  /** Appending one child under a key already filed adds one to the total. */
  lemma {:induction false} FiledCountAppend(keys: seq<seq<string>>, filed: map<seq<string>, seq<string>>, key: seq<string>, x: string)
    requires NoDup(keys) && forall t :: 0 <= t < |keys| ==> keys[t] in filed
    requires key in filed
    ensures var f := filed[key := filed[key] + [x]];
            (forall t :: 0 <= t < |keys| ==> keys[t] in f) &&
            FiledCount(keys, f) == FiledCount(keys, filed) + (if key in keys then 1 else 0)
  {
    if keys != [] {
      var init := keys[..|keys| - 1];
      assert NoDup(init);
      FiledCountAppend(init, filed, key, x);
      assert key in keys <==> key in init || key == keys[|keys| - 1];
    }
  }

  /** Filing under a key not yet among `keys` leaves their total alone. */
  lemma {:induction false} FiledCountOther(keys: seq<seq<string>>, filed: map<seq<string>, seq<string>>, key: seq<string>, v: seq<string>)
    requires (forall t :: 0 <= t < |keys| ==> keys[t] in filed) && key !in keys
    ensures var f := filed[key := v];
            (forall t :: 0 <= t < |keys| ==> keys[t] in f) && FiledCount(keys, f) == FiledCount(keys, filed)
  {
    if keys != [] {
      FiledCountOther(keys[..|keys| - 1], filed, key, v);
    }
  }

  /** `parent_map[key].append(x)` on a dictionary with key order `keys`. */
  function FileOne(filed: map<seq<string>, seq<string>>, keys: seq<seq<string>>, key: seq<string>, x: string)
    : (map<seq<string>, seq<string>>, seq<seq<string>>)
  {
    if key in filed then (filed[key := filed[key] + [x]], keys)
    else (filed[key := [x]], keys + [key])
  }

  /** What the filing loop keeps once the nodes `done` are filed: each key
      once, each list the nodes of `done` with that key, every node of
      `done` filed, and the lists together as long as `done`. */
  ghost predicate Filed(nodes: Nodes, done: seq<string>, filed: map<seq<string>, seq<string>>, keys: seq<seq<string>>)
  {
    AllIn(nodes, done) &&
    NoDup(keys) && (forall k :: k in filed <==> k in keys) &&
    (forall k :: k in filed ==> filed[k] == WithKey(nodes, done, k) && filed[k] != []) &&
    (forall x :: x in done ==> ParentKey(nodes[x]) in filed) &&
    (forall t :: 0 <= t < |keys| ==> keys[t] in filed) &&
    FiledCount(keys, filed) == |done|
  }

  /** Filing one more node extends only the list of its own key. */
  lemma WithKeyAppend(nodes: Nodes, done: seq<string>, x: string, key: seq<string>)
    requires AllIn(nodes, done) && x in nodes
    ensures AllIn(nodes, done + [x])
    ensures WithKey(nodes, done + [x], key) ==
      WithKey(nodes, done, key) + (if ParentKey(nodes[x]) == key then [x] else [])
  {
    assert (done + [x])[..|done|] == done;
  }

  /** No node of `done` has `key`: nothing is filed under it. */
  lemma WithKeyAbsent(nodes: Nodes, done: seq<string>, key: seq<string>)
    requires AllIn(nodes, done)
    requires forall x :: x in done ==> ParentKey(nodes[x]) != key
    ensures WithKey(nodes, done, key) == []
  {
    WithKeyMembers(nodes, done, key);
  }

  /** Filing one more node adds its key to the key order iff the key is
      new, so the keys stay in order of first appearance. */
  lemma KeyOrderStep(nodes: Nodes, done: seq<string>, x: string, filed: map<seq<string>, seq<string>>, keys: seq<seq<string>>)
    requires AllIn(nodes, done) && x in nodes
    requires (forall k :: k in filed <==> k in keys) && keys == FirstOccurrences(KeysOf(nodes, done))
    ensures AllIn(nodes, done + [x])
    ensures FileOne(filed, keys, ParentKey(nodes[x]), x).1 == FirstOccurrences(KeysOf(nodes, done + [x]))
  {
    assert AllIn(nodes, done + [x]);
    var ks := KeysOf(nodes, done + [x]);
    assert ks[..|done|] == KeysOf(nodes, done);
  }

  /** Filing the next node keeps `Filed`. */
  lemma FiledStep(nodes: Nodes, done: seq<string>, x: string, filed: map<seq<string>, seq<string>>, keys: seq<seq<string>>)
    requires Filed(nodes, done, filed, keys) && x in nodes
    ensures var (f, ks) := FileOne(filed, keys, ParentKey(nodes[x]), x);
            Filed(nodes, done + [x], f, ks)
  {
    var key := ParentKey(nodes[x]);
    FiledLists(nodes, done, x, filed);
    assert forall y :: y in done + [x] <==> y in done || y == x;
    if key in filed {
      FiledCountAppend(keys, filed, key, x);
    } else {
      FiledKeysNew(filed, keys, key, x, |done|);
    }
  }

  /** The lists after filing `x`: its key's list gains `x`, the rest stay. */
  lemma FiledLists(nodes: Nodes, done: seq<string>, x: string, filed: map<seq<string>, seq<string>>)
    requires AllIn(nodes, done) && x in nodes
    requires forall k :: k in filed ==> filed[k] == WithKey(nodes, done, k) && filed[k] != []
    requires forall y :: y in done ==> ParentKey(nodes[y]) in filed
    ensures AllIn(nodes, done + [x])
    ensures var f := FileOne(filed, [], ParentKey(nodes[x]), x).0;
            forall k :: k in f ==> f[k] == WithKey(nodes, done + [x], k) && f[k] != []
  {
    var key := ParentKey(nodes[x]);
    var f := FileOne(filed, [], key, x).0;
    WithKeyAppend(nodes, done, x, key);
    forall k | k in f ensures f[k] == WithKey(nodes, done + [x], k) && f[k] != [] {
      WithKeyAppend(nodes, done, x, k);
      if k == key && key !in filed {
        WithKeyAbsent(nodes, done, key);
      }
    }
  }

  /** The key order after opening a new key: still one entry per key, and
      the total grows by the one new node. */
  lemma FiledKeysNew(filed: map<seq<string>, seq<string>>, keys: seq<seq<string>>, key: seq<string>, x: string, n: nat)
    requires NoDup(keys) && (forall k :: k in filed <==> k in keys)
    requires (forall t :: 0 <= t < |keys| ==> keys[t] in filed) && FiledCount(keys, filed) == n
    requires key !in filed
    ensures var f := filed[key := [x]];
            var ks := keys + [key];
            NoDup(ks) && (forall k :: k in f <==> k in ks) &&
            (forall t :: 0 <= t < |ks| ==> ks[t] in f) && FiledCount(ks, f) == n + 1
  {
    var f := filed[key := [x]];
    var ks := keys + [key];
    assert forall k :: k in f <==> k in ks;
    assert FiledCount(ks, f) == n + 1 by {
      FiledCountOther(keys, filed, key, [x]);
      assert ks[..|keys|] == keys;
    }
    NoDupConcat(keys, [key]);
  }

  // ---------------------------------------------------------------------
  // Generation buckets of _calculate_positions

  /** Which generations get a bucket: `node.generation >= 0` in one copy,
      `node.generation != -1` in the other. */
  datatype BucketRule = NonNegative | NotUnassigned

  predicate Keeps(rule: BucketRule, g: int)
  {
    match rule
    case NonNegative => g >= 0
    case NotUnassigned => g != Unassigned
  }

  /** The nodes of `order`, in order, with generation `g`. */
  function OfGeneration(nodes: Nodes, order: seq<string>, g: int): (r: seq<string>)
    requires AllIn(nodes, order)
    ensures forall x :: x in r <==> x in order && nodes[x].generation == g
  {
    if order == [] then []
    else
      var init := order[..|order| - 1];
      var last := order[|order| - 1];
      assert forall c :: c in order <==> c in init || c == last;
      OfGeneration(nodes, init, g) + (if nodes[last].generation == g then [last] else [])
  }
  /** One more node of `order` extends only the bucket of its generation. */
  lemma OfGenerationStep(nodes: Nodes, order: seq<string>, i: nat, g: int)
    requires AllIn(nodes, order) && i < |order|
    ensures OfGeneration(nodes, order[..i + 1], g) ==
      OfGeneration(nodes, order[..i], g) + (if nodes[order[i]].generation == g then [order[i]] else [])
  {
    assert order[..i + 1][..i] == order[..i];
  }

  /** What the bucket loop keeps once the nodes `done` are placed: a bucket
      for each kept generation that occurs, holding its nodes in order. */
  ghost predicate Bucketed(nodes: Nodes, rule: BucketRule, done: seq<string>, buckets: map<int, seq<string>>)
    requires AllIn(nodes, done)
  {
    (forall g :: g in buckets <==> Keeps(rule, g) && OfGeneration(nodes, done, g) != []) &&
    (forall g :: g in buckets ==> buckets[g] == OfGeneration(nodes, done, g))
  }

  /** `pos_levels[generation].append(node)` when the generation is kept. */
  function Place(rule: BucketRule, buckets: map<int, seq<string>>, g: int, x: string): map<int, seq<string>>
  {
    if Keeps(rule, g) then buckets[g := (if g in buckets then buckets[g] else []) + [x]] else buckets
  }

  /** Placing the next node keeps `Bucketed`. */
  lemma PlaceStep(nodes: Nodes, rule: BucketRule, order: seq<string>, i: nat, buckets: map<int, seq<string>>)
    requires AllIn(nodes, order) && i < |order|
    requires AllIn(nodes, order[..i]) && Bucketed(nodes, rule, order[..i], buckets)
    ensures AllIn(nodes, order[..i + 1])
    ensures Bucketed(nodes, rule, order[..i + 1], Place(rule, buckets, nodes[order[i]].generation, order[i]))
  {
    var x := order[i];
    var b := Place(rule, buckets, nodes[x].generation, x);
    forall g
      ensures (g in b <==> Keeps(rule, g) && OfGeneration(nodes, order[..i + 1], g) != [])
      ensures g in b ==> b[g] == OfGeneration(nodes, order[..i + 1], g)
    {
      OfGenerationStep(nodes, order, i, g);
    }
  }



  // ---------------------------------------------------------------------
  // visualize_with_graphviz

  datatype Color = Red | Blue | Black

  /** Mother evidence wins over father evidence, which wins over none. */
  function BorderColor(isMother: bool, isFather: bool): (c: Color)
    ensures c == Red <==> isMother
    ensures c == Blue <==> !isMother && isFather
    ensures c == Black <==> !isMother && !isFather
  {
    if isMother then Red else if isFather then Blue else Black
  }

  /** The mother and father of each node that has both, in node order:
      the pairs drawn at the same rank. */
  function SpousePairs(nodes: Nodes, order: seq<string>): seq<(string, string)>
    requires AllIn(nodes, order)
  {
    if order == [] then []
    else
      var n := nodes[order[|order| - 1]];
      SpousePairs(nodes, order[..|order| - 1]) +
      (if n.mother.Some? && n.father.Some? then [(n.mother.value, n.father.value)] else [])
  }

  /** A pair is drawn exactly when some node has that mother and that father. */
  lemma {:induction false} SpousePairsMembers(nodes: Nodes, order: seq<string>)
    requires AllIn(nodes, order)
    ensures forall m, f :: (m, f) in SpousePairs(nodes, order) <==>
      exists c :: c in order && nodes[c].mother == Some(m) && nodes[c].father == Some(f)
    ensures |SpousePairs(nodes, order)| <= |order|
  {
    if order != [] {
      var init := order[..|order| - 1];
      var last := order[|order| - 1];
      assert forall c :: c in order <==> c in init || c == last;
      SpousePairsMembers(nodes, init);
    }
  }

  /** The `parent -> node` edges of one node: mother first, then father. */
  function NodeEdges(n: Node, c: string): seq<(string, string)>
  {
    (if n.mother.Some? then [(n.mother.value, c)] else []) +
    (if n.father.Some? then [(n.father.value, c)] else [])
  }

  /** The edge list, node by node in order. */
  function EdgeList(nodes: Nodes, order: seq<string>): (r: seq<(string, string)>)
    requires AllIn(nodes, order)
    ensures forall p, c :: (p, c) in r <==> c in order && Hits(nodes[c], p) > 0
  {
    if order == [] then []
    else
      var init := order[..|order| - 1];
      var last := order[|order| - 1];
      assert forall c :: c in order <==> c in init || c == last;
      EdgeList(nodes, init) + NodeEdges(nodes[last], last)
  }

  /** Each node contributes one edge per parent field: the edge `(p, c)`
      occurs as often as `c` names `p` as a parent. */
  lemma {:induction false} EdgeCount(nodes: Nodes, order: seq<string>, p: string, c: string)
    requires AllIn(nodes, order) && NoDup(order)
    ensures multiset(EdgeList(nodes, order))[(p, c)] == if c in order then Hits(nodes[c], p) else 0
  {
    if order != [] {
      var init := order[..|order| - 1];
      var last := order[|order| - 1];
      assert forall c :: c in order <==> c in init || c == last;
      EdgeCount(nodes, init, p, c);
      var es := NodeEdges(nodes[last], last);
      assert multiset(EdgeList(nodes, order)) == multiset(EdgeList(nodes, init)) + multiset(es);
      if c != last {
        assert (p, c) !in es;
      } else {
        assert multiset(es)[(p, c)] == Hits(nodes[c], p);
      }
    }
  }
}
