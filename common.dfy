/** Values shared by every part of the model: optional values, HTTP replies,
    document ids, and the searches, filters and sorts that the Mongo queries
    and the client-side array code perform. */
module Common {

  datatype Option<T> = None | Some(value: T) {
    function GetOr(default: T): T {
      if Some? then value else default
    }
  }

  /** A Mongo ObjectId. The store hands ids out in increasing order, so the
      natural order of a collection is ascending id order. */
  type Id = nat

  /** A JavaScript Date: milliseconds since the epoch. */
  type Time = int

  /** An HTTP reply: 200 with a JSON body, or an error status with the
      `error` text of the JSON body. */
  datatype Response<T> = Ok(value: T) | Fail(status: nat, error: string)

  /** The result of a request handler on one collection: the reply, the new
      contents of the collection and the next unused id. */
  datatype Outcome<D, R> = Outcome(response: Response<R>, docs: map<Id, D>, nextId: nat)

  /** JavaScript truthiness of an optional string: present and not empty. */
  predicate Truthy(s: Option<string>) {
    s.Some? && s.value != ""
  }

  /** `s || fallback` on an optional string. */
  function OrElse(s: Option<string>, fallback: string): string {
    if Truthy(s) then s.value else fallback
  }

  /** Every key of `m` is below `n`: `n` is an unused id. */
  predicate Below<T>(m: map<Id, T>, n: nat) {
    forall k :: k in m ==> k < n
  }

  /** `findOne`: the first document in natural order (ids below `n`) that
      satisfies `p`. */
  function FindFirst<T>(m: map<Id, T>, n: nat, p: T -> bool): (r: Option<Id>)
    ensures r.Some? ==> r.value in m && r.value < n && p(m[r.value])
    ensures r.Some? ==> forall j :: j < r.value && j in m ==> !p(m[j])
    ensures r.None? ==> forall j :: j < n && j in m ==> !p(m[j])
  {
    if n == 0 then None
    else
      var r := FindFirst(m, n - 1, p);
      if r.Some? then r
      else if n - 1 in m && p(m[n - 1]) then Some(n - 1)
      else None
  }

  /** `findOne` returns the match that no earlier document precedes. */
  lemma FindFirstIs<T>(m: map<Id, T>, n: nat, p: T -> bool, k: Id)
    requires k < n && k in m && p(m[k])
    requires forall j :: j < k && j in m ==> !p(m[j])
    ensures FindFirst(m, n, p) == Some(k)
  {
  }

  /** `find`: the documents with ids below `n` that satisfy `p`, in natural order. */
  function Select<T(!new)>(m: map<Id, T>, n: nat, p: T -> bool): (r: seq<T>)
    ensures forall x :: x in r <==> exists j :: j < n && j in m && m[j] == x && p(m[j])
  {
    if n == 0 then []
    else
      var rest := Select(m, n - 1, p);
      if n - 1 in m && p(m[n - 1]) then rest + [m[n - 1]] else rest
  }

  /** `Array.prototype.filter`. */
  function Filter<T(!new)>(s: seq<T>, p: T -> bool): (r: seq<T>)
    ensures forall x :: multiset(r)[x] == if p(x) then multiset(s)[x] else 0
  {
    if s == [] then []
    else
      assert s == [s[0]] + s[1..];
      (if p(s[0]) then [s[0]] else []) + Filter(s[1..], p)
  }

  /** `Array.prototype.findIndex`, with |s| for "not found". */
  function FindIndex<T>(s: seq<T>, p: T -> bool): (i: nat)
    ensures i <= |s|
    ensures forall j :: 0 <= j < i ==> !p(s[j])
    ensures i < |s| ==> p(s[i])
  {
    if s == [] then 0
    else if p(s[0]) then 0
    else FindIndex(s[1..], p) + 1
  }

  /** `Array.prototype.find`: the first element that satisfies `p`. */
  function FirstOf<T>(s: seq<T>, p: T -> bool): Option<T> {
    var i := FindIndex(s, p);
    if i < |s| then Some(s[i]) else None
  }

  /** `find` depends only on which elements satisfy the predicate. */
  lemma FindCongruent<T>(s: seq<T>, p: T -> bool, q: T -> bool)
    requires forall i :: 0 <= i < |s| ==> p(s[i]) == q(s[i])
    ensures FirstOf(s, p) == FirstOf(s, q)
  {
  }

  /** `le` relates every pair one way or the other. */
  ghost predicate Total<T(!new)>(le: (T, T) -> bool) {
    forall a, b :: le(a, b) || le(b, a)
  }

  predicate SortedBy<T>(s: seq<T>, le: (T, T) -> bool) {
    forall i :: 0 < i < |s| ==> le(s[i - 1], s[i])
  }

  function InsertBy<T>(x: T, s: seq<T>, le: (T, T) -> bool): (r: seq<T>)
    ensures multiset(r) == multiset(s) + multiset{x}
    ensures |r| == |s| + 1
    ensures r[0] == x || (s != [] && r[0] == s[0])
  {
    if s == [] || le(x, s[0]) then [x] + s
    else
      assert s == [s[0]] + s[1..];
      [s[0]] + InsertBy(x, s[1..], le)
  }

  /** `.sort(...)`: an insertion sort; documents that compare equal keep
      their natural order. */
  function SortBy<T>(s: seq<T>, le: (T, T) -> bool): (r: seq<T>)
    ensures multiset(r) == multiset(s)
  {
    if s == [] then []
    else
      assert s == [s[0]] + s[1..];
      InsertBy(s[0], SortBy(s[1..], le), le)
  }

  lemma {:induction false} InsertBySorted<T(!new)>(x: T, s: seq<T>, le: (T, T) -> bool)
    requires Total(le)
    requires SortedBy(s, le)
    ensures SortedBy(InsertBy(x, s, le), le)
  {
    if s == [] || le(x, s[0]) {
    } else {
      InsertBySorted(x, s[1..], le);
      var t := InsertBy(x, s[1..], le);
      assert le(s[0], x);
      assert t[0] == x || t[0] == s[1];
      assert SortedBy([s[0]] + t, le) by {
        forall i | 0 < i < |t| + 1
          ensures le(([s[0]] + t)[i - 1], ([s[0]] + t)[i])
        {
          if i > 1 {
            assert ([s[0]] + t)[i - 1] == t[i - 2] && ([s[0]] + t)[i] == t[i - 1];
          }
        }
      }
    }
  }

  /** The sort returns its input in `le` order. */
  lemma {:induction false} SortBySorted<T(!new)>(s: seq<T>, le: (T, T) -> bool)
    requires Total(le)
    ensures SortedBy(SortBy(s, le), le)
  {
    if s != [] {
      SortBySorted(s[1..], le);
      InsertBySorted(s[0], SortBy(s[1..], le), le);
    }
  }

  /** `find(filter).sort(order)`: the matching documents, sorted. */
  function Query<T(!new)>(m: map<Id, T>, n: nat, p: T -> bool, le: (T, T) -> bool): seq<T> {
    SortBy(Select(m, n, p), le)
  }

  /** A query returns exactly the stored documents that match, each as often
      as it is stored, in `le` order. */
  lemma {:induction false} QuerySpec<T(!new)>(m: map<Id, T>, n: nat, p: T -> bool, le: (T, T) -> bool)
    requires Total(le)
    ensures SortedBy(Query(m, n, p, le), le)
    ensures multiset(Query(m, n, p, le)) == multiset(Select(m, n, p))
    ensures forall x :: x in Query(m, n, p, le) <==> exists j :: j < n && j in m && m[j] == x && p(x)
  {
    SortBySorted(Select(m, n, p), le);
    var s := Select(m, n, p);
    forall x
      ensures x in Query(m, n, p, le) <==> x in s
    {
      assert x in Query(m, n, p, le) <==> multiset(Query(m, n, p, le))[x] > 0;
    }
  }

  /** Lexicographic order on strings by character code, the order Mongo uses
      to sort string fields under its default collation. */
  predicate LexLe(a: string, b: string) {
    a == [] || (b != [] && (a[0] < b[0] || (a[0] == b[0] && LexLe(a[1..], b[1..]))))
  }

  lemma {:induction false} LexTotal(a: string, b: string)
    ensures LexLe(a, b) || LexLe(b, a)
  {
    if a != [] && b != [] && a[0] == b[0] {
      LexTotal(a[1..], b[1..]);
    }
  }

  /** `.reduce((sum, x) => sum + f(x), 0)`. */
  function Sum<T>(s: seq<T>, f: T -> int): int {
    if s == [] then 0 else f(s[0]) + Sum(s[1..], f)
  }

  /** The sum over a concatenation is the sum of the sums. */
  lemma {:induction false} SumAppend<T>(s: seq<T>, t: seq<T>, f: T -> int)
    ensures Sum(s + t, f) == Sum(s, f) + Sum(t, f)
  {
    if s != [] {
      assert (s + t)[1..] == s[1..] + t;
      SumAppend(s[1..], t, f);
    } else {
      assert s + t == t;
    }
  }
}
