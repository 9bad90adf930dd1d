/** Shared vocabulary of the news service: identifiers, clock values, actors and
    the outcome of a request handler (the JSON envelope reduced to its status). */
module Common {

  type NewsId = nat
  type UserId = nat
  type CommentId = nat

  /** Milliseconds since the epoch, as returned by `Date.now()`. */
  type Timestamp = nat

  datatype Option<T> = None | Some(value: T)

  datatype Role = Reader | Admin

  /** The identity the authentication middleware attaches to `req.user`. */
  datatype Actor = Actor(id: UserId, role: Role)

  /** What a handler's `catch` block turns into a 500 response. */
  datatype Fault =
    | ValidationFailed   // a schema validator rejected the document or the update
    | DuplicateKey       // the unique index on `slug` rejected an insert
    | NegativeSkip       // MongoDB refuses a negative `skip`
    | MissingUser        // `User.findById` returned null and the handler dereferenced it

  datatype Error = NotFound | Forbidden | Internal(fault: Fault)

  datatype Result<T> = Ok(value: T) | Err(error: Error)

  /** JavaScript truthiness of an optional request string: present and non-empty. */
  predicate Truthy(s: Option<string>) {
    s.Some? && |s.value| > 0
  }

  /** No entry occurs twice: the list stands for a set. */
  predicate NoDup<T(==)>(s: seq<T>) {
    forall i, j :: 0 <= i < j < |s| ==> s[i] != s[j]
  }

  /** `Array.prototype.indexOf`: the first position holding x, or -1. */
  function IndexOf<T(==)>(s: seq<T>, x: T): (i: int)
    ensures -1 <= i < |s|
    ensures i == -1 <==> x !in s
    ensures 0 <= i ==> s[i] == x && x !in s[..i]
  {
    if |s| == 0 then -1
    else if s[0] == x then 0
    else
      var j := IndexOf(s[1..], x);
      if j == -1 then -1
      else
        assert s[..j + 1] == [s[0]] + s[1..][..j];
        j + 1
  }

  /** `Array.prototype.map`: `f` applied to every entry, in order. */
  function Map<A, B>(s: seq<A>, f: A -> B): (r: seq<B>)
    ensures |r| == |s|
    ensures forall k :: 0 <= k < |s| ==> r[k] == f(s[k])
  {
    if s == [] then []
    else
      var rest := Map(s[1..], f);
      assert forall k :: 1 <= k < |s| ==> s[k] == s[1..][k - 1];
      [f(s[0])] + rest
  }

  /** The entries of a list without repeats, counted as a set, are as many as the
      list is long. */
  lemma {:induction false} DistinctCard<T>(s: seq<T>)
    requires NoDup(s)
    ensures |set x | x in s| == |s|
  {
    if s != [] {
      var rest := s[1..];
      assert forall i, j :: 0 <= i < j < |rest| ==> rest[i] == s[i + 1] && rest[j] == s[j + 1];
      DistinctCard(rest);
      assert s[0] !in rest;
      assert (set x | x in s) == (set x | x in rest) + {s[0]};
    }
  }

  /** A list without repeats whose entries all occur in `t` but miss one entry of
      `t` is shorter than `t`. */
  lemma FewerDistinct<T>(s: seq<T>, t: seq<T>, missing: T)
    requires NoDup(s) && NoDup(t) && missing in t
    requires forall x :: x in s ==> x in t && x != missing
    ensures |s| < |t|
  {
    DistinctCard(s);
    DistinctCard(t);
    var a, b := set x | x in s, set x | x in t;
    assert a <= b - {missing};
    SubsetCard(a, b - {missing});
  }

  lemma {:induction false} SubsetCard<T>(a: set<T>, b: set<T>)
    requires a <= b
    ensures |a| <= |b|
  {
    if a != {} {
      var x :| x in a;
      SubsetCard(a - {x}, b - {x});
    }
  }

  lemma HeadTail<T>(s: seq<T>)
    requires |s| > 0
    ensures [s[0]] + s[1..] == s
  {
  }
}
