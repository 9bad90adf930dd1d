/** The engagement toggle shared by article likes, article favorites and comment
    likes: a list used as a set, changed by `indexOf` followed by `splice` or `push`. */
module Engagement {

  import opened Common

  /** `splice(i, 1)`: the list without its i-th entry. */
  function RemoveAt<T>(s: seq<T>, i: nat): (r: seq<T>)
    requires i < |s|
    ensures |r| == |s| - 1
  {
    s[..i] + s[i + 1..]
  }

  /** Removing one entry keeps a property every entry has, keeps apart entries
      that were pairwise apart, and leaves only entries apart from the removed one. */
  lemma RemoveAtKeeps<T>(s: seq<T>, i: nat, inv: T -> bool, apart: (T, T) -> bool)
    requires i < |s|
    requires forall k :: 0 <= k < |s| ==> inv(s[k])
    requires forall p, q :: 0 <= p < q < |s| ==> apart(s[p], s[q])
    ensures var r := RemoveAt(s, i);
      && (forall k :: 0 <= k < |r| ==> inv(r[k]))
      && (forall p, q :: 0 <= p < q < |r| ==> apart(r[p], r[q]))
      && (forall k :: 0 <= k < |r| ==> if k < i then apart(r[k], s[i]) else apart(s[i], r[k]))
  {
    var r := RemoveAt(s, i);
    assert forall k :: 0 <= k < i ==> r[k] == s[k];
    assert forall k :: i <= k < |r| ==> r[k] == s[k + 1];
    forall p, q | 0 <= p < q < |r| ensures apart(r[p], r[q]) {
      var p' := if p < i then p else p + 1;
      var q' := if q < i then q else q + 1;
      assert p' < q' < |s| && r[p] == s[p'] && r[q] == s[q'];
    }
    forall k | 0 <= k < |r| ensures inv(r[k]) {
      if k < i {
        assert r[k] == s[k];
      } else {
        assert r[k] == s[k + 1];
      }
    }
  }

  /** The list after one toggle by x: its first occurrence removed if there is one,
      otherwise x pushed at the end. */
  function Toggle<T(==)>(s: seq<T>, x: T): (r: seq<T>)
    ensures |r| == if x in s then |s| - 1 else |s| + 1
  {
    var i := IndexOf(s, x);
    if i > -1 then RemoveAt(s, i) else s + [x]
  }

  /** The list with every occurrence of x filtered out. */
  function Without<T(==)>(s: seq<T>, x: T): (r: seq<T>)
    ensures x !in r && |r| <= |s|
  {
    if s == [] then [] else (if s[0] == x then [] else [s[0]]) + Without(s[1..], x)
  }

  lemma {:induction false} WithoutConcat<T>(a: seq<T>, b: seq<T>, x: T)
    ensures Without(a + b, x) == Without(a, x) + Without(b, x)
  {
    if a == [] {
      assert a + b == b;
    } else {
      assert (a + b)[0] == a[0] && (a + b)[1..] == a[1..] + b;
      WithoutConcat(a[1..], b, x);
    }
  }

  /** Toggling adds or removes exactly one copy of x and no other entry. */
  lemma ToggleMultiset<T>(s: seq<T>, x: T)
    ensures x in s ==> multiset(Toggle(s, x)) == multiset(s) - multiset{x}
    ensures x !in s ==> multiset(Toggle(s, x)) == multiset(s) + multiset{x}
  {
    var i := IndexOf(s, x);
    if i > -1 {
      assert s == s[..i] + [x] + s[i + 1..];
      assert multiset(s) == multiset(s[..i]) + multiset{x} + multiset(s[i + 1..]);
    }
  }

  /** The entries other than x keep their order: filtering x out of the list gives
      the same sequence before and after the toggle. */
  lemma ToggleKeepsOthersInOrder<T>(s: seq<T>, x: T)
    ensures Without(Toggle(s, x), x) == Without(s, x)
  {
    var i := IndexOf(s, x);
    if i > -1 {
      assert s == s[..i] + ([x] + s[i + 1..]);
      WithoutConcat(s[..i], [x] + s[i + 1..], x);
      WithoutConcat([x], s[i + 1..], x);
      WithoutConcat(s[..i], s[i + 1..], x);
    } else {
      WithoutConcat(s, [x], x);
    }
  }

  /** On a duplicate-free list the toggle flips x's membership and nothing else's. */
  lemma ToggleMembership<T>(s: seq<T>, x: T)
    requires NoDup(s)
    ensures x in Toggle(s, x) <==> x !in s
    ensures forall y :: y != x ==> (y in Toggle(s, x) <==> y in s)
  {
    var r := Toggle(s, x);
    var i := IndexOf(s, x);
    if i > -1 {
      var front, back := s[..i], s[i + 1..];
      assert r == front + back;
      assert x !in back by {
        forall k | 0 <= k < |back| ensures back[k] != x {
          assert back[k] == s[i + 1 + k];
        }
      }
    }
    ToggleMultiset(s, x);
    forall y | y != x ensures y in r <==> y in s {
      assert (y in r) == (y in multiset(r));
      assert (y in s) == (y in multiset(s));
    }
  }

  /** A toggle keeps a duplicate-free list duplicate-free. */
  lemma TogglePreservesNoDup<T>(s: seq<T>, x: T)
    requires NoDup(s)
    ensures NoDup(Toggle(s, x))
  {
    var i := IndexOf(s, x);
    if i > -1 {
      var r := s[..i] + s[i + 1..];
      assert Toggle(s, x) == r;
      assert forall k :: 0 <= k < i ==> r[k] == s[k];
      assert forall k :: i <= k < |r| ==> r[k] == s[k + 1];
      forall p, q | 0 <= p < q < |r| ensures r[p] != r[q] {
        var p' := if p < i then p else p + 1;
        var q' := if q < i then q else q + 1;
        assert p' < q' < |s|;
        assert r[p] == s[p'] && r[q] == s[q'];
      }
    } else {
      var r := s + [x];
      assert Toggle(s, x) == r;
      assert x !in s;
      forall p, q | 0 <= p < q < |r| ensures r[p] != r[q] {
        if q == |s| {
          assert r[p] == s[p] && r[q] == x;
        } else {
          assert r[p] == s[p] && r[q] == s[q];
        }
      }
    }
  }

  /** Toggling twice from "absent" restores the list exactly. */
  lemma ToggleTwiceFromAbsent<T>(s: seq<T>, x: T)
    requires x !in s
    ensures Toggle(Toggle(s, x), x) == s
  {
    var t := s + [x];
    assert IndexOf(t, x) == |s| by {
      assert t[|s|] == x && t[..|s|] == s;
    }
    assert t[..|s|] == s;
  }

  /** On a duplicate-free list, toggling twice from "present" restores the entries;
      only x's position moves, from where it was to the end. */
  lemma ToggleTwiceFromPresent<T>(s: seq<T>, x: T)
    requires x in s && NoDup(s)
    ensures Toggle(Toggle(s, x), x) == RemoveAt(s, IndexOf(s, x)) + [x]
    ensures Toggle(Toggle(s, x), x) == Without(s, x) + [x]
    ensures multiset(Toggle(Toggle(s, x), x)) == multiset(s)
  {
    var t := RemoveAt(s, IndexOf(s, x));
    assert Toggle(s, x) == t;
    ToggleMembership(s, x);
    assert Toggle(t, x) == t + [x];
    ToggleMultiset(s, x);
    ToggleMultiset(t, x);
    ToggleKeepsOthersInOrder(s, x);
    WithoutAbsent(t, x);
  }

  lemma {:induction false} WithoutAbsent<T>(s: seq<T>, x: T)
    requires x !in s
    ensures Without(s, x) == s
  {
    if s != [] {
      WithoutAbsent(s[1..], x);
    }
  }
}
