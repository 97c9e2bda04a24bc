/** Generic facts about sequences: first occurrences and duplicate removal. */
module Seqs {

  /** No element occurs twice. */
  predicate Distinct<T(==)>(s: seq<T>) {
    forall i, j :: 0 <= i < j < |s| ==> s[i] != s[j]
  }

  /** The position of the first occurrence of `x` in `s`. */
  function FirstIndex<T(==)>(s: seq<T>, x: T): (i: nat)
    requires x in s
    ensures i < |s| && s[i] == x && x !in s[..i]
  {
    if s[0] == x then 0
    else
      var k := FirstIndex(s[1..], x);
      assert s[..k + 1] == [s[0]] + s[1..][..k];
      k + 1
  }

  /** The first-occurrence conditions determine the position. */
  lemma FirstIndexUnique<T>(s: seq<T>, x: T, i: nat)
    requires i < |s| && s[i] == x && x !in s[..i]
    ensures FirstIndex(s, x) == i
  {
  }

  /** Appending an element does not move the first occurrence of anything already present. */
  lemma FirstIndexAppend<T>(s: seq<T>, x: T)
    ensures forall y :: y in s ==> FirstIndex(s + [x], y) == FirstIndex(s, y)
  {
    forall y | y in s
      ensures FirstIndex(s + [x], y) == FirstIndex(s, y)
    {
      var i := FirstIndex(s, y);
      assert (s + [x])[..i] == s[..i];
      FirstIndexUnique(s + [x], y, i);
    }
  }

  /**
   * Keeps the first occurrence of every element and drops the later ones,
   * preserving the order of the survivors.
   */
  function DropDuplicates<T(==)>(s: seq<T>): (r: seq<T>)
    ensures KeepsFirst(s, r)
    decreases |s|
  {
    if |s| == 0 then []
    else
      var init := s[..|s| - 1];
      var x := s[|s| - 1];
      SplitLast(s);
      var rest := DropDuplicates(init);
      if x in init then
        KeepsFirstRepeat(init, x, rest);
        rest
      else
        KeepsFirstFresh(init, x, rest);
        rest + [x]
  }

  /**
   * `r` holds each element of `s` once, nothing else, in the order of first
   * occurrence in `s`.
   */
  predicate KeepsFirst<T(==)>(s: seq<T>, r: seq<T>) {
    && Distinct(r)
    && (forall i :: 0 <= i < |r| ==> r[i] in s)
    && (forall i :: 0 <= i < |s| ==> s[i] in r)
    && (forall i, j :: 0 <= i < j < |r| ==> FirstIndex(s, r[i]) < FirstIndex(s, r[j]))
  }

  lemma KeepsFirstRepeat<T>(init: seq<T>, x: T, rest: seq<T>)
    requires KeepsFirst(init, rest) && x in init
    ensures KeepsFirst(init + [x], rest)
  {
    FirstIndexAppend(init, x);
    var s := init + [x];
    forall i | 0 <= i < |s| ensures s[i] in rest {
      if i < |init| {
        assert s[i] == init[i];
      }
    }
  }

  lemma KeepsFirstFresh<T>(init: seq<T>, x: T, rest: seq<T>)
    requires KeepsFirst(init, rest) && x !in init
    ensures KeepsFirst(init + [x], rest + [x])
  {
    FreshMembers(init, x, rest);
    FreshOrder(init, x, rest);
  }

  lemma FreshMembers<T>(init: seq<T>, x: T, rest: seq<T>)
    requires KeepsFirst(init, rest) && x !in init
    ensures Distinct(rest + [x])
    ensures forall i :: 0 <= i < |rest + [x]| ==> (rest + [x])[i] in init + [x]
    ensures forall i :: 0 <= i < |init + [x]| ==> (init + [x])[i] in rest + [x]
  {
    var s := init + [x];
    var r := rest + [x];
    assert forall i :: 0 <= i < |rest| ==> rest[i] in init && r[i] == rest[i];
    forall i | 0 <= i < |s| ensures s[i] in r {
      if i < |init| {
        assert s[i] == init[i];
      }
    }
  }

  lemma FreshOrder<T>(init: seq<T>, x: T, rest: seq<T>)
    requires KeepsFirst(init, rest) && x !in init
    requires forall i :: 0 <= i < |rest + [x]| ==> (rest + [x])[i] in init + [x]
    ensures forall i, j :: 0 <= i < j < |rest + [x]| ==>
              FirstIndex(init + [x], (rest + [x])[i]) < FirstIndex(init + [x], (rest + [x])[j])
  {
    var s := init + [x];
    var r := rest + [x];
    FirstIndexAppend(init, x);
    FirstIndexUnique(s, x, |init|);
    forall i, j | 0 <= i < j < |r| ensures FirstIndex(s, r[i]) < FirstIndex(s, r[j]) {
      assert r[i] == rest[i] && rest[i] in init;
      if j < |rest| {
        assert r[j] == rest[j] && rest[j] in init;
      }
    }
  }

  /** Removing duplicates keeps exactly the elements there were. */
  lemma DropDuplicatesMembers<T>(s: seq<T>)
    ensures forall x :: x in DropDuplicates(s) <==> x in s
  {
    var r := DropDuplicates(s);
    forall x ensures x in r <==> x in s {
      if x in r {
        var i :| 0 <= i < |r| && r[i] == x;
      }
      if x in s {
        var i :| 0 <= i < |s| && s[i] == x;
      }
    }
  }

  /** Removing duplicates never lengthens a sequence. */
  lemma {:induction false} DropDuplicatesShorter<T>(s: seq<T>)
    ensures |DropDuplicates(s)| <= |s|
    decreases |s|
  {
    if |s| > 0 {
      DropDuplicatesShorter(s[..|s| - 1]);
    }
  }

  lemma SplitLast<T>(s: seq<T>)
    requires |s| > 0
    ensures s == s[..|s| - 1] + [s[|s| - 1]]
  {
  }

  lemma AppendAssoc<T>(a: seq<T>, b: seq<T>, c: seq<T>)
    ensures a + (b + c) == (a + b) + c
  {
  }

  /** Duplicate removal works one appended element at a time. */
  lemma DropDuplicatesSnoc<T>(s: seq<T>, x: T)
    ensures DropDuplicates(s + [x]) == if x in s then DropDuplicates(s) else DropDuplicates(s) + [x]
  {
    assert (s + [x])[..|s|] == s;
  }

  /** A sequence without duplicates passes through unchanged. */
  lemma {:induction false} DropDuplicatesOfDistinct<T>(s: seq<T>)
    requires Distinct(s)
    ensures DropDuplicates(s) == s
    decreases |s|
  {
    if |s| > 0 {
      var init := s[..|s| - 1];
      var last := s[|s| - 1];
      assert Distinct(init);
      DropDuplicatesOfDistinct(init);
      assert last !in init;
      SplitLast(s);
      DropDuplicatesSnoc(init, last);
    }
  }

  /** Removing duplicates twice is the same as removing them once. */
  lemma DropDuplicatesIdempotent<T>(s: seq<T>)
    ensures DropDuplicates(DropDuplicates(s)) == DropDuplicates(s)
  {
    DropDuplicatesOfDistinct(DropDuplicates(s));
  }
}
