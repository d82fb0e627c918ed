/**
 Order-preserving removal of duplicate strings, as Python's
 `list(dict.fromkeys(xs))` does: a dict keeps its keys in first-insertion
 order and ignores re-insertions of a key it already holds.
 */
module Unique {

  predicate NoDuplicates(s: seq<string>) {
    forall i, j :: 0 <= i < j < |s| ==> s[i] != s[j]
  }

  /** Index of the first occurrence of `x` in `s`. */
  function FirstIndex(s: seq<string>, x: string): (i: nat)
    requires x in s
    ensures i < |s| && s[i] == x
    ensures x !in s[..i]
  {
    if s[0] == x then 0
    else
      var j := FirstIndex(s[1..], x);
      assert s[1..][..j] == s[1..j + 1];
      1 + j
  }

  /**
   `dict.fromkeys(s)` read back as a list: each value once, at the place
   of its first occurrence.
   */
  function Dedup(s: seq<string>): (r: seq<string>)
    ensures NoDuplicates(r)
    ensures forall x :: x in r <==> x in s
    ensures |r| <= |s|
  {
    if |s| == 0 then []
    else
      var init := s[..|s| - 1];
      var d := Dedup(init);
      assert s == init + [s[|s| - 1]];
      if s[|s| - 1] in d then d else d + [s[|s| - 1]]
  }

  /** `x` and `y` both occur in `s`, and `x` first occurs before `y` does. */
  ghost predicate OccursFirstBefore(s: seq<string>, x: string, y: string) {
    x in s && y in s && FirstIndex(s, x) < FirstIndex(s, y)
  }

  /** The elements of `r` are ordered by where they first occur in `s`. */
  ghost predicate InFirstOccurrenceOrder(s: seq<string>, r: seq<string>) {
    forall i, j :: 0 <= i < j < |r| ==> OccursFirstBefore(s, r[i], r[j])
  }

  /** Appending to `s` leaves the first occurrence of an existing value where it was. */
  lemma FirstIndexExtend(s: seq<string>, y: string, x: string)
    requires x in s
    ensures x in s + [y] && FirstIndex(s + [y], x) == FirstIndex(s, x)
  {
    var i := FirstIndex(s, x);
    var k := FirstIndex(s + [y], x);
    assert (s + [y])[i] == x;
  }

  /**
   The output of `Dedup` is a subsequence of its input that keeps each
   value at its first occurrence: its values are listed by increasing
   first index.
   */
  lemma {:induction false} DedupKeepsFirstOccurrenceOrder(s: seq<string>)
    ensures InFirstOccurrenceOrder(s, Dedup(s))
    decreases |s|
  {
    if |s| > 0 {
      var init := s[..|s| - 1];
      var y := s[|s| - 1];
      assert s == init + [y];
      DedupKeepsFirstOccurrenceOrder(init);
      var d := Dedup(init);
      forall x | x in init
        ensures x in s && FirstIndex(s, x) == FirstIndex(init, x)
      {
        FirstIndexExtend(init, y, x);
      }
      if y !in d {
        assert y !in init;
        var r := d + [y];
        assert FirstIndex(s, y) == |s| - 1;
        forall i, j | 0 <= i < j < |r|
          ensures OccursFirstBefore(s, r[i], r[j])
        {
          if j < |d| {
            assert r[i] == d[i] && r[j] == d[j];
          } else {
            assert r[i] == d[i] && r[i] in init;
          }
        }
      }
    }
  }

  /** On a sequence without duplicates `Dedup` changes nothing. */
  lemma {:induction false} DedupOfDistinct(s: seq<string>)
    requires NoDuplicates(s)
    ensures Dedup(s) == s
    decreases |s|
  {
    if |s| > 0 {
      var init := s[..|s| - 1];
      DedupOfDistinct(init);
      assert s == init + [s[|s| - 1]];
    }
  }

  /** De-duplicating twice is the same as de-duplicating once. */
  lemma DedupIdempotent(s: seq<string>)
    ensures Dedup(Dedup(s)) == Dedup(s)
  {
    DedupOfDistinct(Dedup(s));
  }

  /** Dropping the first element keeps a sequence duplicate-free and ordered. */
  lemma OrderedTail(s: seq<string>, a: seq<string>)
    requires |a| > 0 && NoDuplicates(a) && InFirstOccurrenceOrder(s, a)
    ensures NoDuplicates(a[1..]) && InFirstOccurrenceOrder(s, a[1..])
  {
    var t := a[1..];
    forall i, j | 0 <= i < j < |t|
      ensures t[i] != t[j]
      ensures OccursFirstBefore(s, t[i], t[j])
    {
      assert t[i] == a[i + 1] && t[j] == a[j + 1];
      assert OccursFirstBefore(s, a[i + 1], a[j + 1]);
    }
    assert NoDuplicates(t);
    assert InFirstOccurrenceOrder(s, t);
  }

  /** The head of an ordered sequence occurs first in `s` among all its values. */
  lemma HeadOccursFirst(s: seq<string>, a: seq<string>, x: string)
    requires |a| > 0 && x in a
    requires forall y :: y in a ==> y in s
    requires InFirstOccurrenceOrder(s, a)
    ensures FirstIndex(s, a[0]) <= FirstIndex(s, x)
  {
    var k :| 0 <= k < |a| && a[k] == x;
    if k > 0 {
      assert OccursFirstBefore(s, a[0], a[k]);
    }
  }

  /** Of two ordered sequences with the same values, neither can start later than the other. */
  lemma OrderedSameHead(s: seq<string>, a: seq<string>, b: seq<string>)
    requires |a| > 0 && |b| > 0
    requires forall x :: x in a <==> x in b
    requires InFirstOccurrenceOrder(s, a) && InFirstOccurrenceOrder(s, b)
    requires forall x :: x in a ==> x in s
    ensures a[0] == b[0]
  {
    assert a[0] in a && b[0] in b;
    HeadOccursFirst(s, a, b[0]);
    HeadOccursFirst(s, b, a[0]);
    assert s[FirstIndex(s, a[0])] == a[0];
  }

  /** Removing the same first element from both keeps the values equal. */
  lemma SameValuesTail(a: seq<string>, b: seq<string>)
    requires |a| > 0 && |b| > 0 && a[0] == b[0]
    requires NoDuplicates(a) && NoDuplicates(b)
    requires forall x :: x in a <==> x in b
    ensures forall x :: x in a[1..] <==> x in b[1..]
  {
    forall x | x in a[1..]
      ensures x in b[1..]
    {
      var i :| 0 <= i < |a[1..]| && a[1..][i] == x;
      assert a[i + 1] == x && x != a[0];
      assert x in b;
      var k :| 0 <= k < |b| && b[k] == x;
      assert b[1..][k - 1] == x;
    }
    forall x | x in b[1..]
      ensures x in a[1..]
    {
      var i :| 0 <= i < |b[1..]| && b[1..][i] == x;
      assert b[i + 1] == x && x != b[0];
      assert x in a;
      var k :| 0 <= k < |a| && a[k] == x;
      assert a[1..][k - 1] == x;
    }
  }

  /**
   Two duplicate-free sequences with the same values, both listed by
   increasing first index in `s`, are equal.
   */
  lemma {:induction false} OrderedDistinctUnique(s: seq<string>, a: seq<string>, b: seq<string>)
    requires NoDuplicates(a) && NoDuplicates(b)
    requires forall x :: x in a <==> x in b
    requires InFirstOccurrenceOrder(s, a) && InFirstOccurrenceOrder(s, b)
    requires forall x :: x in a ==> x in s
    ensures a == b
    decreases |a|
  {
    assert |a| > 0 ==> a[0] in a && a[0] in b;
    assert |b| > 0 ==> b[0] in b && b[0] in a;
    if |a| > 0 {
      OrderedSameHead(s, a, b);
      SameValuesTail(a, b);
      OrderedTail(s, a);
      OrderedTail(s, b);
      OrderedDistinctUnique(s, a[1..], b[1..]);
      assert a == [a[0]] + a[1..] && b == [b[0]] + b[1..];
    }
  }

  /**
   `Dedup` is characterised by its properties: the duplicate-free list of
   the values of `s`, in first-occurrence order, and nothing else.
   */
  lemma DedupCharacterization(s: seq<string>, r: seq<string>)
    requires NoDuplicates(r)
    requires forall x :: x in r <==> x in s
    requires InFirstOccurrenceOrder(s, r)
    ensures r == Dedup(s)
  {
    DedupKeepsFirstOccurrenceOrder(s);
    OrderedDistinctUnique(s, r, Dedup(s));
  }

  /** Worked example: "A", "B", "A", "C" comes back as "A", "B", "C". */
  lemma DedupExample()
    ensures Dedup(["A", "B", "A", "C"]) == ["A", "B", "C"]
  {
    assert ["A", "B", "A", "C"][..3] == ["A", "B", "A"];
    assert ["A", "B", "A"][..2] == ["A", "B"];
    assert ["A", "B"][..1] == ["A"];
    assert ["A"][..0] == [];
  }

  /**
   The imperative computation `dict.fromkeys` performs: walk `s` once,
   remembering the keys seen so far, and append a value only the first
   time it is met.
   */
  method FromKeys(s: seq<string>) returns (r: seq<string>)
    ensures r == Dedup(s)
  {
    var seen: set<string> := {};
    r := [];
    var i := 0;
    while i < |s|
      invariant 0 <= i <= |s|
      invariant r == Dedup(s[..i])
      invariant forall x :: x in seen <==> x in r
    {
      assert s[..i + 1][..i] == s[..i];
      if s[i] !in seen {
        seen := seen + {s[i]};
        r := r + [s[i]];
      }
      i := i + 1;
    }
    assert s[..i] == s;
  }
}
