/**
 * The document-store semantics the handlers rely on. A MongoDB collection is
 * modelled as the sequence of its documents in natural (insertion) order, each
 * carrying its `_id`; the queries and update operators used by the controllers
 * (`findById`, `find(filter)`, `findByIdAndUpdate`, `findByIdAndDelete`,
 * `$addToSet`, `$pull`) are functions on that sequence.
 */
module Documents {
  import opened Wrappers

  /** A document's `_id`, as the hex string of its ObjectId. */
  type Id = string

  /** One stored document: its `_id` and its fields. */
  datatype Doc<T> = Doc(id: Id, body: T)

  /** MongoDB's unique index on `_id`: no two documents share one. */
  ghost predicate UniqueIds<T>(s: seq<Doc<T>>) {
    forall i, j :: 0 <= i < j < |s| ==> s[i].id != s[j].id
  }

  /** The position of the first document whose `_id` is `id`. */
  function IndexOf<T>(s: seq<Doc<T>>, id: Id): (r: Option<nat>)
    ensures r.Some? ==> r.value < |s| && s[r.value].id == id
    ensures r.Some? ==> forall k :: 0 <= k < r.value ==> s[k].id != id
    ensures r.None? <==> forall k :: 0 <= k < |s| ==> s[k].id != id
  {
    if |s| == 0 then None
    else if s[0].id == id then Some(0)
    else
      match IndexOf(s[1..], id)
      case None => None
      case Some(i) => Some(i + 1)
  }

  /** `findById`: the document with `_id` `id`, or `null`. */
  function FindById<T>(s: seq<Doc<T>>, id: Id): (r: Option<Doc<T>>)
    ensures r.Some? ==> r.value in s && r.value.id == id
    ensures r.None? <==> forall d :: d in s ==> d.id != id
  {
    match IndexOf(s, id)
    case None => None
    case Some(i) => Some(s[i])
  }

  /** With unique ids, the document `findById` returns is the only one with that id. */
  lemma FindByIdUnique<T>(s: seq<Doc<T>>, id: Id, d: Doc<T>)
    requires UniqueIds(s)
    requires d in s && d.id == id
    ensures FindById(s, id) == Some(d)
  {
    var i := IndexOf(s, id).value;
    var j :| 0 <= j < |s| && s[j] == d;
    assert !(i < j) && !(j < i);
  }

  /** Inserting a document whose `_id` is new keeps the ids unique. */
  lemma AppendFresh<T>(s: seq<Doc<T>>, d: Doc<T>)
    requires UniqueIds(s)
    requires FindById(s, d.id).None?
    ensures UniqueIds(s + [d])
    ensures FindById(s + [d], d.id) == Some(d)
  {
    var t := s + [d];
    forall i, j | 0 <= i < j < |t| ensures t[i].id != t[j].id {
      if j == |s| {
        assert t[i] in s;
      }
    }
    FindByIdUnique(t, d.id, d);
  }

  /**
   * `find()` with no filter, as `getHotels` and `getLocalHotels` answer it: every
   * stored document, in natural (storage) order.
   */
  function FindAll<T>(s: seq<Doc<T>>): (r: seq<Doc<T>>)
    ensures |r| == |s|
    ensures forall i :: 0 <= i < |s| ==> r[i] == s[i]
  {
    s
  }

  /** `find(filter)`: the documents that match `p`, in natural order. */
  function Where<T>(s: seq<Doc<T>>, p: Doc<T> -> bool): (r: seq<Doc<T>>)
    ensures |r| <= |s|
    ensures forall d :: d in r ==> d in s && p(d)
    ensures forall d :: d in s && p(d) ==> d in r
  {
    if |s| == 0 then []
    else (if p(s[0]) then [s[0]] else []) + Where(s[1..], p)
  }

  /** `find(filter)` returns each matching document as often as it is stored, and no other. */
  lemma {:induction false} WhereCounts<T>(s: seq<Doc<T>>, p: Doc<T> -> bool)
    ensures forall d :: d in s ==> multiset(Where(s, p))[d] == if p(d) then multiset(s)[d] else 0
  {
    if |s| > 0 {
      assert s == [s[0]] + s[1..];
      WhereCounts(s[1..], p);
    }
  }

  /**
   * `find(filter)` keeps storage order: over a collection stored as `a` followed by
   * `b`, the matches in `a` come first, in their order, then those in `b`.
   */
  lemma {:induction false} WhereAppend<T>(a: seq<Doc<T>>, b: seq<Doc<T>>, p: Doc<T> -> bool)
    ensures Where(a + b, p) == Where(a, p) + Where(b, p)
  {
    if |a| == 0 {
      assert a + b == b;
    } else {
      assert (a + b)[0] == a[0];
      assert (a + b)[1..] == a[1..] + b;
      WhereAppend(a[1..], b, p);
    }
  }

  /** A filtered collection keeps its ids unique. */
  lemma {:induction false} WhereUnique<T>(s: seq<Doc<T>>, p: Doc<T> -> bool)
    requires UniqueIds(s)
    ensures UniqueIds(Where(s, p))
  {
    if |s| > 0 {
      var rest := Where(s[1..], p);
      WhereUnique(s[1..], p);
      if p(s[0]) {
        var r := [s[0]] + rest;
        forall i, j | 0 <= i < j < |r| ensures r[i].id != r[j].id {
          if i == 0 {
            assert r[j] in rest;
            assert r[j] in s[1..];
          } else {
            assert r[i] == rest[i - 1] && r[j] == rest[j - 1];
          }
        }
      }
    }
  }

  /**
   * `findByIdAndDelete`: the collection without the document whose `_id` is `id`;
   * unchanged when there is none.
   */
  function RemoveById<T>(s: seq<Doc<T>>, id: Id): (r: seq<Doc<T>>)
    ensures IndexOf(s, id).None? ==> r == s
    ensures IndexOf(s, id).Some? ==> |r| == |s| - 1
  {
    match IndexOf(s, id)
    case None => s
    case Some(i) => s[..i] + s[i + 1..]
  }

  /** Deleting by id removes exactly the documents with that id and keeps every other one. */
  lemma RemoveByIdSpec<T>(s: seq<Doc<T>>, id: Id)
    requires UniqueIds(s)
    ensures UniqueIds(RemoveById(s, id))
    ensures forall d :: d in RemoveById(s, id) ==> d in s && d.id != id
    ensures forall d :: d in s && d.id != id ==> d in RemoveById(s, id)
  {
    match IndexOf(s, id)
    case None =>
    case Some(i) => RemoveAtSpec(s, i);
  }

  /** Removing position `i` of a collection with unique ids removes exactly the id at `i`. */
  lemma RemoveAtSpec<T>(s: seq<Doc<T>>, i: nat)
    requires UniqueIds(s) && i < |s|
    ensures UniqueIds(s[..i] + s[i + 1..])
    ensures forall d :: d in s[..i] + s[i + 1..] ==> d in s && d.id != s[i].id
    ensures forall d :: d in s && d.id != s[i].id ==> d in s[..i] + s[i + 1..]
  {
    var r := s[..i] + s[i + 1..];
    assert forall k :: 0 <= k < |r| ==> r[k] == s[if k < i then k else k + 1];
    forall d | d in s && d.id != s[i].id ensures d in r {
      var k :| 0 <= k < |s| && s[k] == d;
      if k < i { assert r[k] == d; }
      else { assert r[k - 1] == d; }
    }
    forall d | d in r ensures d in s && d.id != s[i].id {
      var k :| 0 <= k < |r| && r[k] == d;
    }
  }

  /**
   * `findByIdAndUpdate`: the document whose `_id` is `id` gets `f` applied to its
   * fields; every other document and every position and id stay as they were.
   */
  function UpdateById<T>(s: seq<Doc<T>>, id: Id, f: T -> T): (r: seq<Doc<T>>)
    ensures |r| == |s|
    ensures forall k :: 0 <= k < |s| ==> r[k].id == s[k].id
    ensures forall k :: 0 <= k < |s| && k != GetOr(IndexOf(s, id), |s|) ==> r[k] == s[k]
    ensures IndexOf(s, id).Some? ==>
      var i := IndexOf(s, id).value; r[i] == Doc(id, f(s[i].body))
  {
    match IndexOf(s, id)
    case None => s
    case Some(i) => s[i := Doc(id, f(s[i].body))]
  }

  /** The document `findByIdAndUpdate` returns with `{ new: true }`. */
  lemma UpdateByIdFinds<T>(s: seq<Doc<T>>, id: Id, f: T -> T)
    requires FindById(s, id).Some?
    ensures FindById(UpdateById(s, id, f), id) == Some(Doc(id, f(FindById(s, id).value.body)))
  {
    var i := IndexOf(s, id).value;
    var r := UpdateById(s, id, f);
    assert forall k :: 0 <= k < i ==> r[k].id == s[k].id;
  }

  /** Updating by id keeps the ids, hence their uniqueness. */
  lemma UpdateByIdUnique<T>(s: seq<Doc<T>>, id: Id, f: T -> T)
    requires UniqueIds(s)
    ensures UniqueIds(UpdateById(s, id, f))
  {
  }

  // ---------------------------------------------------------------------------
  // array update operators

  /** `$addToSet`: append `x` unless it is already an element. */
  function AddToSet<T(==)>(xs: seq<T>, x: T): (r: seq<T>)
    ensures x in r
    ensures forall y :: y in xs ==> y in r
    ensures forall y :: y in r ==> y in xs || y == x
    ensures x in xs ==> r == xs
    ensures x !in xs ==> r == xs + [x]
  {
    if x in xs then xs else xs + [x]
  }

  /** `$pull`: remove every element equal to `x`, keeping the order of the others. */
  function Pull<T(==)>(xs: seq<T>, x: T): (r: seq<T>)
    ensures x !in r
    ensures forall y :: y in r ==> y in xs
    ensures forall y :: y in xs && y != x ==> y in r
    ensures |r| <= |xs|
  {
    if |xs| == 0 then []
    else (if xs[0] == x then [] else [xs[0]]) + Pull(xs[1..], x)
  }

  /** No element of a sequence is repeated. */
  ghost predicate NoDuplicates<T>(xs: seq<T>) {
    forall i, j :: 0 <= i < j < |xs| ==> xs[i] != xs[j]
  }

  /** Pulling an absent element changes nothing. */
  lemma {:induction false} PullAbsent<T>(xs: seq<T>, x: T)
    requires x !in xs
    ensures Pull(xs, x) == xs
  {
    if |xs| > 0 {
      assert xs[1..] == xs[1..];
      assert x !in xs[1..] by { assert forall y :: y in xs[1..] ==> y in xs; }
      PullAbsent(xs[1..], x);
      assert [xs[0]] + xs[1..] == xs;
    }
  }

  /** `$addToSet` is idempotent. */
  lemma AddToSetIdempotent<T>(xs: seq<T>, x: T)
    ensures AddToSet(AddToSet(xs, x), x) == AddToSet(xs, x)
  {
  }

  /** `$pull` is idempotent. */
  lemma PullIdempotent<T>(xs: seq<T>, x: T)
    ensures Pull(Pull(xs, x), x) == Pull(xs, x)
  {
    PullAbsent(Pull(xs, x), x);
  }

  /** `$addToSet` never creates a repeated element. */
  lemma AddToSetNoDuplicates<T>(xs: seq<T>, x: T)
    requires NoDuplicates(xs)
    ensures NoDuplicates(AddToSet(xs, x))
  {
    if x !in xs {
      var r := xs + [x];
      forall i, j | 0 <= i < j < |r| ensures r[i] != r[j] {
        if j == |xs| { assert r[i] in xs; }
      }
    }
  }

  /** Adding and then pulling the same element gives back a list that did not hold it. */
  lemma AddThenPull<T>(xs: seq<T>, x: T)
    requires x !in xs
    ensures Pull(AddToSet(xs, x), x) == xs
  {
    PullAppend(xs, x);
    PullAbsent(xs, x);
  }

  /** Pulling distributes over appending one element equal to the pulled one. */
  lemma {:induction false} PullAppend<T>(xs: seq<T>, x: T)
    ensures Pull(xs + [x], x) == Pull(xs, x)
  {
    if |xs| == 0 {
      assert [] + [x] == [x];
    } else {
      assert (xs + [x])[0] == xs[0];
      assert (xs + [x])[1..] == xs[1..] + [x];
      PullAppend(xs[1..], x);
    }
  }
}
