/** The member listing of backend/app/services/users.js: archived members
    are hidden, a non-empty search narrows the listing to the members whose
    email contains it, ignoring case, and the result is paged with skip and
    limit. The other operations of that file are the same as those of
    the app copy modelled in MemberStore. */
module MemberSearch {
  import opened Common
  import opened UserModel

  /** Case folding of the `i` option, for ASCII letters. */
  function LowerChar(c: char): (r: char)
    ensures 'A' <= c <= 'Z' ==> r as int == c as int + 32
    ensures !('A' <= c <= 'Z') ==> r == c
  {
    if 'A' <= c <= 'Z' then (c as int + 32) as char else c
  }

  function Lower(s: string): (r: string)
    ensures |r| == |s|
    ensures forall i :: 0 <= i < |s| ==> r[i] == LowerChar(s[i])
  {
    if s == [] then [] else [LowerChar(s[0])] + Lower(s[1..])
  }

  /** `pat` occurs in `text` at position i. */
  predicate OccursAt(text: string, pat: string, i: int)
  {
    0 <= i && i + |pat| <= |text| && text[i..i + |pat|] == pat
  }

  /** The unanchored match of a literal pattern: a scan from the left. */
  function Occurs(text: string, pat: string): (b: bool)
    ensures b <==> exists i :: OccursAt(text, pat, i)
    decreases |text|
  {
    if |pat| > |text| then false
    else if text[..|pat|] == pat then
      assert OccursAt(text, pat, 0);
      true
    else
      var b := Occurs(text[1..], pat);
      assert b ==> exists i :: OccursAt(text, pat, i) by {
        if b {
          var i :| OccursAt(text[1..], pat, i);
          assert text[1..][i..i + |pat|] == text[i + 1..i + 1 + |pat|];
          assert OccursAt(text, pat, i + 1);
        }
      }
      assert (exists i :: OccursAt(text, pat, i)) ==> b by {
        if exists i :: OccursAt(text, pat, i) {
          var i :| OccursAt(text, pat, i);
          assert i != 0;
          assert text[1..][i - 1..i - 1 + |pat|] == text[i..i + |pat|];
          assert OccursAt(text[1..], pat, i - 1);
        }
      }
      b
  }

  /** `{ $regex: search, $options: "i" }` on a literal pattern. */
  predicate ContainsIgnoringCase(text: string, pat: string)
  {
    Occurs(Lower(text), Lower(pat))
  }

  /** `if (search)`: only a present, non-empty string adds the email
      condition. */
  predicate SearchApplies(search: Option<string>)
  {
    search.Some? && search.value != ""
  }

  /** The query `{ isDeleted: false, ...findParams }`. */
  predicate Listed(m: Member, search: Option<string>)
  {
    !m.isDeleted && (SearchApplies(search) ==> ContainsIgnoringCase(m.email, search.value))
  }

  /** `.skip(offset)` then `.limit(limit)` (the database applies skip
      first whatever the chaining order); a limit of 0 means no limit. */
  function Page<T>(s: seq<T>, offset: nat, limit: nat): (r: seq<T>)
    ensures |r| == if offset >= |s| then 0
                   else if limit == 0 || |s| - offset <= limit then |s| - offset
                   else limit
    ensures r == [] || offset + |r| <= |s|
    ensures forall k :: 0 <= k < |r| ==> r[k] == s[offset + k]
  {
    if offset >= |s| then []
    else if limit == 0 || |s| - offset <= limit then s[offset..]
    else s[offset..offset + limit]
  }

  /** A window of an id-ordered listing is id-ordered. */
  lemma PageKeepsOrder<T>(s: seq<Doc<T>>, offset: nat, limit: nat)
    requires forall k, l :: 0 <= k < l < |s| ==> s[k].id < s[l].id
    ensures var r := Page(s, offset, limit); forall k, l :: 0 <= k < l < |r| ==> r[k].id < r[l].id
  {
    var r := Page(s, offset, limit);
    forall k, l | 0 <= k < l < |r| ensures r[k].id < r[l].id {
      assert r[k] == s[offset + k] && r[l] == s[offset + l];
    }
  }

  function ValueOr(o: Option<nat>, d: nat): nat
  {
    if o.Some? then o.value else d
  }

  /** Every listable member in store order, before paging. */
  function Matching(records: map<UserId, Member>, nextId: nat, search: Option<string>): (r: seq<Doc<Member>>)
    ensures forall k :: 0 <= k < |r| ==>
      r[k].id in records && r[k].rec == records[r[k].id] && Listed(r[k].rec, search)
    ensures forall id :: id in records && id < nextId && Listed(records[id], search) ==>
      exists k :: 0 <= k < |r| && r[k].id == id
    ensures forall k, l :: 0 <= k < l < |r| ==> r[k].id < r[l].id
  {
    var ids := Select(records, nextId, m => Listed(m, search));
    var r := Docs(records, ids);
    assert forall id :: id in ids ==> exists k :: 0 <= k < |r| && r[k].id == id;
    r
  }

  /** getUsers({ limit, offset, search }); a limit or offset that is not
      given does not constrain. */
  function GetUsers(records: map<UserId, Member>, nextId: nat,
                    limit: Option<nat>, offset: Option<nat>, search: Option<string>): (r: seq<Doc<Member>>)
    ensures forall k :: 0 <= k < |r| ==>
      r[k].id in records && r[k].rec == records[r[k].id]
      && !r[k].rec.isDeleted
      && (SearchApplies(search) ==> ContainsIgnoringCase(r[k].rec.email, search.value))
    ensures forall k, l :: 0 <= k < l < |r| ==> r[k].id < r[l].id
    ensures limit.Some? && limit.value > 0 ==> |r| <= limit.value
    ensures |r| == |Page(Matching(records, nextId, search), ValueOr(offset, 0), ValueOr(limit, 0))|
    ensures forall k :: 0 <= k < |r| ==> r[k] == Matching(records, nextId, search)[ValueOr(offset, 0) + k]
  {
    var m := Matching(records, nextId, search);
    var o := ValueOr(offset, 0);
    var r := Page(m, o, ValueOr(limit, 0));
    assert forall k :: 0 <= k < |r| ==> Listed(r[k].rec, search) by {
      forall k | 0 <= k < |r| ensures Listed(r[k].rec, search) {
        assert r[k] == m[o + k];
      }
    }
    PageKeepsOrder(m, o, ValueOr(limit, 0));
    r
  }

  /** Without paging, the listing holds every member that is not archived
      and matches the search. */
  lemma UnpagedIsComplete(records: map<UserId, Member>, nextId: nat, search: Option<string>, id: UserId)
    requires id in records && id < nextId
    requires !records[id].isDeleted
    requires SearchApplies(search) ==> ContainsIgnoringCase(records[id].email, search.value)
    ensures exists k :: 0 <= k < |GetUsers(records, nextId, None, None, search)|
                        && GetUsers(records, nextId, None, None, search)[k].id == id
  {
    var all := Matching(records, nextId, search);
    assert GetUsers(records, nextId, None, None, search) == Page(all, 0, 0);
    assert Page(all, 0, 0) == all;
    assert Listed(records[id], search);
  }

  /** An empty search string filters nothing: the listing is the one
      without a search. */
  lemma EmptySearchIsNoSearch(records: map<UserId, Member>, nextId: nat, limit: Option<nat>, offset: Option<nat>)
    ensures GetUsers(records, nextId, limit, offset, Some("")) == GetUsers(records, nextId, limit, offset, None)
  {
    var a := Select(records, nextId, m => Listed(m, Some("")));
    var b := Select(records, nextId, m => Listed(m, None));
    forall x ensures x in a <==> x in b {
      if x in a {
        var k :| 0 <= k < |a| && a[k] == x;
      }
      if x in b {
        var k :| 0 <= k < |b| && b[k] == x;
      }
    }
    IncreasingDetermined(a, b);
  }

  /** The search ignores case on both sides. */
  lemma SearchIgnoresCase(email: string, pat: string)
    ensures ContainsIgnoringCase(email, pat) <==> ContainsIgnoringCase(Lower(email), Lower(pat))
  {
    LowerIdempotent(email);
    LowerIdempotent(pat);
  }

  lemma LowerIdempotent(s: string)
    ensures Lower(Lower(s)) == Lower(s)
  {
    assert forall i :: 0 <= i < |s| ==> LowerChar(LowerChar(s[i])) == LowerChar(s[i]);
  }

  /** Consecutive pages of the same size tile the listing: page i followed
      by page i + 1 is the double-size window at offset i * size. */
  lemma PagesTile<T>(s: seq<T>, i: nat, size: nat)
    requires size > 0
    ensures Page(s, i * size, size) + Page(s, (i + 1) * size, size) == Page(s, i * size, 2 * size)
  {
    var p := Page(s, i * size, size);
    var q := Page(s, (i + 1) * size, size);
    var w := Page(s, i * size, 2 * size);
    assert (i + 1) * size == i * size + size;
    assert |p + q| == |w|;
    forall k | 0 <= k < |w| ensures (p + q)[k] == w[k] {
      if k >= |p| {
        assert |p| == size;
        assert (p + q)[k] == q[k - size] == s[i * size + k];
      }
    }
  }

  /** Every member of the unpaged listing lands on exactly the page its
      position says, at the position within the page its remainder says. */
  lemma PageHoldsPosition<T>(s: seq<T>, size: nat, j: nat)
    requires size > 0 && j < |s|
    ensures j % size < |Page(s, (j / size) * size, size)|
    ensures Page(s, (j / size) * size, size)[j % size] == s[j]
  {
    assert (j / size) * size + j % size == j;
  }

  /** Archiving a member removes it from every page of the listing. */
  lemma ArchivedNotListed(records: map<UserId, Member>, nextId: nat, id: UserId,
                          limit: Option<nat>, offset: Option<nat>, search: Option<string>)
    requires id in records
    ensures var after := records[id := records[id].(isDeleted := true)];
      forall k :: 0 <= k < |GetUsers(after, nextId, limit, offset, search)| ==>
        GetUsers(after, nextId, limit, offset, search)[k].id != id
  {
  }
}
