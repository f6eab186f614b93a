/** The circular list of ddsrt/src/circlist.c: a doubly linked ring that is a sequence, oldest element first. */
module Circlist {
  class Elem {
    var next: Elem?
    var prev: Elem?

    constructor ()
    {
      next, prev := null, null;
    }
  }

  /** Place j comes after place i in a ring of n. */
  predicate Follows(n: nat, i: nat, j: nat) {
    j == i + 1 || (i + 1 == n && j == 0)
  }

  ghost predicate Distinct(s: seq<Elem>) {
    forall i, j | 0 <= i < j < |s| :: s[i] != s[j]
  }

  /** The links of s form one ring: next and prev are inverse steps through s, closed at the ends. */
  ghost predicate Ring(s: seq<Elem>)
    reads s
  {
    && Distinct(s)
    && forall i, j {:trigger s[i], s[j]} | 0 <= i < |s| && 0 <= j < |s| && Follows(|s|, i, j) ::
         s[i].next == s[j] && s[j].prev == s[i]
  }

  /** next and prev undo each other at every element of a ring, and neither leaves it. */
  lemma RingIsClosed(s: seq<Elem>, e: Elem)
    requires Ring(s) && e in s
    ensures e.next in s && e.prev in s
    ensures e.next.prev == e && e.prev.next == e
    ensures e.next == e <==> |s| == 1
  {
    var i :| 0 <= i < |s| && s[i] == e;
    assert e.next == s[if i + 1 < |s| then i + 1 else 0];
    assert e.prev == s[if i == 0 then |s| - 1 else i - 1];
  }

  /** s without the element at place k. */
  ghost function Cut<T>(s: seq<T>, k: nat): seq<T>
    requires k < |s|
  {
    s[..k] + s[k + 1..]
  }

  lemma CutLast<T>(s: seq<T>, k: nat)
    requires k < |s|
    ensures |Cut(s, k)| == |s| - 1
    ensures |s| > 1 ==> Cut(s, k)[|s| - 2] == if k == |s| - 1 then s[|s| - 2] else s[|s| - 1]
  {
  }

  /** What append leaves behind: the inner links of s as they were, and e between its two ends. */
  lemma AppendedIsRing(s: seq<Elem>, e: Elem)
    requires s != [] && e !in s && Distinct(s)
    requires e.next == s[0] && e.prev == s[|s| - 1] && s[|s| - 1].next == e && s[0].prev == e
    requires forall i, j {:trigger s[i], s[j]} | 0 <= i < j < |s| && j == i + 1 ::
               s[i].next == s[j] && s[j].prev == s[i]
    ensures Ring(s + [e])
  {
  }

  /** What remove leaves behind: every other pair of neighbours is as it was, and those of place k are linked. */
  lemma RemovedIsRing(s: seq<Elem>, k: nat)
    requires k < |s| && |s| > 1 && Distinct(s)
    requires forall i, j {:trigger s[i], s[j]} | 0 <= i < |s| && 0 <= j < |s| && i != k && j != k &&
                 (Follows(|s|, i, j) || (Follows(|s|, i, k) && Follows(|s|, k, j))) ::
               s[i].next == s[j] && s[j].prev == s[i]
    ensures Ring(Cut(s, k))
  {
    var n, t := |s|, Cut(s, k);
    forall i, j | 0 <= i < n - 1 && 0 <= j < n - 1 && Follows(n - 1, i, j)
      ensures t[i].next == t[j] && t[j].prev == t[i]
    {
      var i', j' := if i < k then i else i + 1, if j < k then j else j + 1;
      assert t[i] == s[i'] && t[j] == s[j'];
    }
  }

  /** s without x. */
  ghost function Without<T>(s: seq<T>, x: T): seq<T> {
    if s == [] then [] else if s[0] == x then s[1..] else [s[0]] + Without(s[1..], x)
  }

  lemma {:induction false} WithoutIs<T>(s: seq<T>, k: nat)
    requires k < |s| && forall i | 0 <= i < k :: s[i] != s[k]
    ensures Without(s, s[k]) == Cut(s, k)
    decreases k
  {
    if k > 0 {
      WithoutIs(s[1..], k - 1);
      assert s[..k] == [s[0]] + s[1..][..k - 1];
    }
  }

  /** Removing what was just appended gives back the list; and removal keeps the order of the others. */
  lemma {:induction false} WithoutUndoesAppend<T>(s: seq<T>, x: T)
    requires x !in s
    ensures Without(s + [x], x) == s
  {
    assert (s + [x])[|s|] == x;
    WithoutIs(s + [x], |s|);
  }

  lemma {:induction false} WithoutKeepsOrder<T>(s: seq<T>, x: T, i: nat, j: nat)
    requires i < j < |s| && s[i] != x && s[j] != x
    ensures exists k, l :: 0 <= k < l < |Without(s, x)| && Without(s, x)[k] == s[i] && Without(s, x)[l] == s[j]
    decreases |s|
  {
    var w := Without(s, x);
    if s[0] == x {
      assert w[i - 1] == s[i] && w[j - 1] == s[j];
    } else if i == 0 {
      WithoutKeeps(s[1..], x, j - 1);
      var l :| 0 <= l < |Without(s[1..], x)| && Without(s[1..], x)[l] == s[1..][j - 1];
      assert w[0] == s[i] && w[l + 1] == s[j];
    } else {
      WithoutKeepsOrder(s[1..], x, i - 1, j - 1);
      var k, l :| 0 <= k < l < |Without(s[1..], x)| &&
                  Without(s[1..], x)[k] == s[1..][i - 1] && Without(s[1..], x)[l] == s[1..][j - 1];
      assert w[k + 1] == s[i] && w[l + 1] == s[j];
    }
  }

  lemma {:induction false} WithoutKeeps<T>(s: seq<T>, x: T, j: nat)
    requires j < |s| && s[j] != x
    ensures exists l :: 0 <= l < |Without(s, x)| && Without(s, x)[l] == s[j]
    decreases |s|
  {
    var w := Without(s, x);
    if s[0] == x {
      assert w[j - 1] == s[j];
    } else if j == 0 {
      assert w[0] == s[j];
    } else {
      WithoutKeeps(s[1..], x, j - 1);
      var l :| 0 <= l < |Without(s[1..], x)| && Without(s[1..], x)[l] == s[1..][j - 1];
      assert w[l + 1] == s[j];
    }
  }

  class CircList {
    var latest: Elem?
    ghost var elems: seq<Elem>

    ghost predicate Valid()
      reads this, elems
    {
      && Ring(elems)
      && latest == if elems == [] then null else elems[|elems| - 1]
    }

    constructor ()
      ensures Valid() && elems == []
    {
      latest := null;
      elems := [];
    }

    method IsEmpty() returns (empty: bool)
      requires Valid()
      ensures empty <==> elems == []
    {
      empty := latest == null;
    }

    /** The walk of the debug checks in append and remove: whether an element is in the list. */
    method Contains(elem: Elem) returns (found: bool)
      requires Valid()
      ensures found <==> elem in elems
    {
      if latest == null {
        return false;
      }
      var x := latest;
      ghost var n := |elems|;
      if x == elem {
        return true;
      }
      x := x.next;
      ghost var i := 0;
      while x != latest
        invariant 0 <= i < n && x == elems[i]
        invariant elem != elems[n - 1] && elem !in elems[..i]
        decreases n - i
      {
        if x == elem {
          return true;
        }
        x := x.next;
        i := i + 1;
      }
      assert elems == elems[..n - 1] + [elems[n - 1]];
      return false;
    }

    method Append(elem: Elem)
      requires Valid() && elem !in elems
      modifies this, elem, elems
      ensures Valid() && elems == old(elems) + [elem]
    {
      ghost var s := elems;
      if latest == null {
        elem.next, elem.prev := elem, elem;
      } else {
        var found := Contains(elem);
        assert !found;
        var hd := latest;
        assert hd.next == s[0];
        elem.next := hd.next;
        elem.prev := hd;
        hd.next := elem;
        elem.next.prev := elem;
        AppendedIsRing(s, elem);
      }
      latest := elem;
      elems := s + [elem];
    }

    method Remove(elem: Elem)
      requires Valid() && elem in elems
      modifies this, elems
      ensures Valid() && elems == Without(old(elems), elem)
      ensures elem.next == old(elem.next) && elem.prev == old(elem.prev)
    {
      hide Without, Cut;
      var found := Contains(elem);
      assert found;
      ghost var s, n := elems, |elems|;
      ghost var k :| 0 <= k < n && s[k] == elem;
      CutLast(s, k);
      RingIsClosed(s, elem);
      WithoutIs(s, k);
      if elem.next == elem {
        latest := null;
      } else {
        var elemPrev, elemNext := elem.prev, elem.next;
        ghost var before, after := if k == 0 then n - 1 else k - 1, if k + 1 == n then 0 else k + 1;
        assert elemPrev == s[before] && elemNext == s[after];
        elemPrev.next := elemNext;
        elemNext.prev := elemPrev;
        if latest == elem {
          latest := elemPrev;
        }
        RemovedIsRing(s, k);
      }
      elems := Cut(s, k);
    }

    method Oldest() returns (e: Elem)
      requires Valid() && elems != []
      ensures e == elems[0]
    {
      assert latest.next == elems[0];
      e := latest.next;
    }

    method Latest() returns (e: Elem)
      requires Valid() && elems != []
      ensures e == elems[|elems| - 1]
    {
      e := latest;
    }

    /** A walk from the latest along next until it comes round visits the latest and then the others from the oldest on,
        each once. */
    method Walk() returns (seen: seq<Elem>)
      requires Valid() && elems != []
      ensures seen == [elems[|elems| - 1]] + elems[..|elems| - 1]
      ensures Distinct(seen) && (forall e :: e in seen <==> e in elems)
    {
      var x := latest;
      seen := [x];
      x := x.next;
      ghost var n := |elems|;
      ghost var i := 0;
      while x != latest
        invariant 0 <= i < n && x == elems[i]
        invariant seen == [elems[n - 1]] + elems[..i]
        decreases n - i
      {
        seen := seen + [x];
        x := x.next;
        i := i + 1;
      }
      assert i == n - 1;
      assert elems == elems[..n - 1] + [elems[n - 1]];
    }
  }
}
