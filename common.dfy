/** Shared vocabulary of the library backend model: optional values, the
    error kinds the services throw, timestamps, record ids and the stores'
    natural listing order. */
module Common {

  datatype Option<T> = None | Some(value: T)

  /** Which lookup failed: the services throw "Book not found." or
      "User not found." */
  datatype Missing = MissingBook | MissingUser

  /** NotFound is the services' own error; ValidationFailed is a Mongoose
      validation error raised by save/create; DuplicateKey is the database's
      unique-index violation. */
  datatype Error = NotFound(what: Missing) | ValidationFailed | DuplicateKey

  datatype Result<T> = Ok(value: T) | Err(error: Error)

  /** A timestamp in milliseconds since the epoch. */
  type Time = int

  const DayMs: int := 86400000

  /** A record identity; the stores hand them out in increasing order. */
  type Id = nat

  /** A stored record together with its identity, as a query returns it. */
  datatype Doc<R> = Doc(id: Id, rec: R)

  /** The ids below n of the records that satisfy p, in ascending order: a
      query over the store in its natural (insertion) order. */
  function Select<R>(m: map<Id, R>, n: nat, p: R -> bool): (ids: seq<Id>)
    ensures forall i :: 0 <= i < |ids| ==> ids[i] in m && ids[i] < n && p(m[ids[i]])
    ensures forall id :: id in m && id < n && p(m[id]) ==> id in ids
    ensures forall i, j :: 0 <= i < j < |ids| ==> ids[i] < ids[j]
  {
    if n == 0 then []
    else Select(m, n - 1, p) + (if n - 1 in m && p(m[n - 1]) then [n - 1] else [])
  }

  /** The records behind a sequence of ids, as documents. */
  function Docs<R>(m: map<Id, R>, ids: seq<Id>): (ds: seq<Doc<R>>)
    requires forall i :: 0 <= i < |ids| ==> ids[i] in m
    ensures |ds| == |ids|
    ensures forall i :: 0 <= i < |ids| ==> ds[i] == Doc(ids[i], m[ids[i]])
  {
    if ids == [] then [] else [Doc(ids[0], m[ids[0]])] + Docs(m, ids[1..])
  }

  /** Two strictly increasing id sequences with the same elements are equal:
      a query result is determined by which records it selects. */
  lemma {:induction false} IncreasingDetermined(a: seq<Id>, b: seq<Id>)
    requires forall i, j :: 0 <= i < j < |a| ==> a[i] < a[j]
    requires forall i, j :: 0 <= i < j < |b| ==> b[i] < b[j]
    requires forall x :: x in a <==> x in b
    ensures a == b
  {
    if a != [] { assert a[0] in b; }
    if b != [] { assert b[0] in a; }
    if a != [] && b != [] {
      assert a[0] == b[0] by {
        assert b[0] in a;
        assert a[0] in b;
      }
      forall x ensures x in a[1..] <==> x in b[1..] {
        if x in a[1..] {
          var k :| 1 <= k < |a| && a[k] == x;
          assert x in b;
          assert x != b[0];
        }
        if x in b[1..] {
          var k :| 1 <= k < |b| && b[k] == x;
          assert x in a;
          assert x != a[0];
        }
      }
      IncreasingDetermined(a[1..], b[1..]);
    }
  }
}
