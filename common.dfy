/** Small shared vocabulary: an optional value and facts about sequences. */
module Common {

  /** Python's `None` or a value. */
  datatype Option<T> = None | Some(value: T)

  /** No element occurs twice. */
  predicate NoDup<T(==)>(s: seq<T>)
  {
    forall i, j :: 0 <= i < j < |s| ==> s[i] != s[j]
  }

  /** The distinct elements of `s`, each at the place of its first occurrence
      (the key order of a Python dict filled from `s`). */
  function FirstOccurrences<T(==, !new)>(s: seq<T>): (r: seq<T>)
    ensures NoDup(r)
    ensures forall x :: x in r <==> x in s
    decreases |s|
  {
    if s == [] then []
    else
      var prefix := FirstOccurrences(s[..|s| - 1]);
      var last := s[|s| - 1];
      assert forall x :: x in s <==> x in s[..|s| - 1] || x == last;
      if last in prefix then prefix else prefix + [last]
  }

  /** Where `x` first occurs in `s`. */
  function FirstIndex<T(==)>(s: seq<T>, x: T): (k: nat)
    requires x in s
    ensures k < |s| && s[k] == x && x !in s[..k]
  {
    if s[0] == x then 0
    else
      assert s == [s[0]] + s[1..];
      var k := 1 + FirstIndex(s[1..], x);
      assert s[..k] == [s[0]] + s[1..][..k - 1];
      k
  }

  /** A position holding `x` with no `x` before it is the first index of `x`. */
  lemma FirstIndexIs<T>(s: seq<T>, x: T, k: nat)
    requires k < |s| && s[k] == x && x !in s[..k]
    ensures FirstIndex(s, x) == k
  {
  }

  /** Appending an element does not move the first index of an earlier one. */
  lemma FirstIndexSnoc<T>(p: seq<T>, y: T, x: T)
    requires x in p
    ensures FirstIndex(p + [y], x) == FirstIndex(p, x)
  {
    var k := FirstIndex(p, x);
    assert (p + [y])[..k] == p[..k];
    FirstIndexIs(p + [y], x, k);
  }

  /** The elements of `FirstOccurrences(s)` keep the order of their first
      occurrences in `s`: one comes before another exactly when it first
      occurs earlier. */
  lemma FirstOccurrencesOrder<T(!new)>(s: seq<T>, i: nat, j: nat)
    requires i < |FirstOccurrences(s)| && j < |FirstOccurrences(s)|
    ensures var r := FirstOccurrences(s);
            i < j <==> FirstIndex(s, r[i]) < FirstIndex(s, r[j])
  {
    var r := FirstOccurrences(s);
    if i < j {
      FirstOccurrencesBefore(s, i, j);
    } else if j < i {
      FirstOccurrencesBefore(s, j, i);
    }
  }

  lemma {:induction false} FirstOccurrencesBefore<T(!new)>(s: seq<T>, i: nat, j: nat)
    requires i < j < |FirstOccurrences(s)|
    ensures var r := FirstOccurrences(s);
            FirstIndex(s, r[i]) < FirstIndex(s, r[j])
    decreases |s|
  {
    var r := FirstOccurrences(s);
    var p := s[..|s| - 1];
    var last := s[|s| - 1];
    var rp := FirstOccurrences(p);
    assert s == p + [last];
    assert r[i] in rp && r[i] in p;
    FirstIndexSnoc(p, last, r[i]);
    if j < |rp| {
      assert r[j] in p;
      FirstIndexSnoc(p, last, r[j]);
      FirstOccurrencesBefore(p, i, j);
    } else {
      assert r[j] == last && last !in p;
      FirstIndexIs(s, last, |p|);
    }
  }

  /** Two duplicate-free sequences with no common element concatenate to a
      duplicate-free sequence. */
  lemma NoDupConcat<T>(a: seq<T>, b: seq<T>)
    requires NoDup(a) && NoDup(b) && forall x :: x in a ==> x !in b
    ensures NoDup(a + b)
  {
    var c := a + b;
    forall i, j | 0 <= i < j < |c| ensures c[i] != c[j] {
      if i < |a| && j >= |a| {
        assert c[i] in a && c[j] == b[j - |a|];
      } else if i >= |a| {
        assert c[i] == b[i - |a|] && c[j] == b[j - |a|];
      }
    }
  }

  lemma ConcatAssoc<T>(a: seq<T>, b: seq<T>, c: seq<T>)
    ensures a + (b + c) == a + b + c
  {
  }

  /** Taking one more element of a sequence appends that element. */
  lemma TakeSnoc<T>(s: seq<T>, i: nat)
    requires i < |s|
    ensures s[..i + 1] == s[..i] + [s[i]]
  {
  }

  /** Taking every element of a sequence gives the sequence. */
  lemma TakeAll<T>(s: seq<T>)
    ensures s[..|s|] == s
  {
  }

  /** A value missing from `b` is missing from the part of `a + b` after `a`. */
  lemma NotInTail<T>(a: seq<T>, b: seq<T>, x: T)
    requires x !in b
    ensures forall k :: |a| <= k < |a + b| ==> (a + b)[k] != x
  {
    forall k | |a| <= k < |a + b| ensures (a + b)[k] != x {
      assert (a + b)[k] == b[k - |a|];
    }
  }
}
