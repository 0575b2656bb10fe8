/** The member store of app/services/users.js (the copy the lending engine
    calls): equality-filter listing, lookup by id, registration, the
    truthy-guarded partial update and the soft delete. */
module MemberStore {
  import opened Common
  import opened UserModel

  /** The store invariant: ids below the counter, every record schema-valid,
      emails unique. */
  predicate StoreValid(records: map<UserId, Member>, nextId: nat)
  {
    (forall id :: id in records ==> id < nextId)
    && (forall id :: id in records ==> SchemaValid(records[id]))
    && EmailsUnique(records)
  }

  /** An equality filter as handed to `User.find(params)`: a missing field
      does not constrain. */
  datatype MemberFilter = MemberFilter(
    firstName: Option<string>,
    lastName: Option<string>,
    email: Option<string>,
    memberSince: Option<Time>,
    isDeleted: Option<bool>)

  predicate Matches(m: Member, f: MemberFilter)
  {
    (f.firstName.None? || f.firstName.value == m.firstName)
    && (f.lastName.None? || f.lastName.value == m.lastName)
    && (f.email.None? || f.email.value == m.email)
    && (f.memberSince.None? || f.memberSince.value == m.memberSince)
    && (f.isDeleted.None? || f.isDeleted.value == m.isDeleted)
  }

  /** getUsers(params): every member matching the filter, in store order;
      archived members are not excluded unless the filter says so. */
  function GetUsers(records: map<UserId, Member>, nextId: nat, params: MemberFilter): (r: seq<Doc<Member>>)
    ensures forall k :: 0 <= k < |r| ==> r[k].id in records && r[k].rec == records[r[k].id] && Matches(r[k].rec, params)
    ensures forall id :: id in records && id < nextId && Matches(records[id], params) ==>
      exists k :: 0 <= k < |r| && r[k].id == id
    ensures forall k, l :: 0 <= k < l < |r| ==> r[k].id < r[l].id
  {
    var ids := Select(records, nextId, m => Matches(m, params));
    var r := Docs(records, ids);
    assert forall id :: id in ids ==> exists k :: 0 <= k < |r| && r[k].id == id;
    r
  }

  /** getUser(id): lookup by id only, archived or not. */
  function GetUser(records: map<UserId, Member>, id: UserId): (r: Option<Member>)
    ensures r.Some? <==> id in records
    ensures r.Some? ==> r.value == records[id]
  {
    if id in records then Some(records[id]) else None
  }

  // ---------------------------------------------------------------------
  // The partial update

  datatype MemberPatchEntry =
    | SetFirstName(firstName: string)
    | SetLastName(lastName: string)
    | SetEmail(email: string)
    | SetMemberSince(memberSince: Time)
    | SetIsDeleted(isDeleted: bool)

  datatype MemberField = FirstName | LastName | Email | MemberSince | IsDeleted

  function FieldOf(e: MemberPatchEntry): MemberField
  {
    match e
    case SetFirstName(_) => FirstName
    case SetLastName(_) => LastName
    case SetEmail(_) => Email
    case SetMemberSince(_) => MemberSince
    case SetIsDeleted(_) => IsDeleted
  }

  /** JavaScript truthiness of `user[field]`; a Date is always truthy. */
  predicate FieldTruthy(m: Member, f: MemberField)
  {
    match f
    case FirstName => m.firstName != ""
    case LastName => m.lastName != ""
    case Email => m.email != ""
    case MemberSince => true
    case IsDeleted => m.isDeleted
  }

  predicate Agree(a: Member, b: Member, f: MemberField)
  {
    match f
    case FirstName => a.firstName == b.firstName
    case LastName => a.lastName == b.lastName
    case Email => a.email == b.email
    case MemberSince => a.memberSince == b.memberSince
    case IsDeleted => a.isDeleted == b.isDeleted
  }

  /** `user[field] = value` */
  function Assign(m: Member, e: MemberPatchEntry): (r: Member)
    ensures forall f :: f != FieldOf(e) ==> Agree(r, m, f)
  {
    match e
    case SetFirstName(v) => m.(firstName := v)
    case SetLastName(v) => m.(lastName := v)
    case SetEmail(v) => m.(email := v)
    case SetMemberSince(v) => m.(memberSince := v)
    case SetIsDeleted(v) => m.(isDeleted := v)
  }

  function ApplyEntry(m: Member, e: MemberPatchEntry): Member
  {
    if FieldTruthy(m, FieldOf(e)) then Assign(m, e) else m
  }

  /** The update loop over the payload's entries, in order. */
  function ApplyPatch(m: Member, patch: seq<MemberPatchEntry>): Member
    decreases |patch|
  {
    if patch == [] then m else ApplyPatch(ApplyEntry(m, patch[0]), patch[1..])
  }

  predicate Mentions(patch: seq<MemberPatchEntry>, f: MemberField)
  {
    exists i :: 0 <= i < |patch| && FieldOf(patch[i]) == f
  }

  predicate DistinctFields(patch: seq<MemberPatchEntry>)
  {
    forall i, j :: 0 <= i < j < |patch| ==> FieldOf(patch[i]) != FieldOf(patch[j])
  }

  /** A field the payload does not mention keeps its value. */
  lemma {:induction false} PatchKeepsUnmentioned(m: Member, patch: seq<MemberPatchEntry>, f: MemberField)
    requires !Mentions(patch, f)
    ensures Agree(ApplyPatch(m, patch), m, f)
    decreases |patch|
  {
    if patch != [] {
      assert FieldOf(patch[0]) != f;
      assert !Mentions(patch[1..], f) by {
        forall i | 0 <= i < |patch[1..]| ensures FieldOf(patch[1..][i]) != f {
          assert patch[1..][i] == patch[i + 1];
        }
      }
      PatchKeepsUnmentioned(ApplyEntry(m, patch[0]), patch[1..], f);
    }
  }

  /** A currently falsy field keeps its value whatever the payload says. */
  lemma {:induction false} PatchKeepsFalsy(m: Member, patch: seq<MemberPatchEntry>, f: MemberField)
    requires !FieldTruthy(m, f)
    ensures Agree(ApplyPatch(m, patch), m, f)
    decreases |patch|
  {
    if patch != [] {
      var m' := ApplyEntry(m, patch[0]);
      assert Agree(m', m, f);
      PatchKeepsFalsy(m', patch[1..], f);
    }
  }

  /** With distinct keys, a mentioned truthy field takes the payload's value. */
  lemma {:induction false} PatchOverwritesTruthy(m: Member, patch: seq<MemberPatchEntry>, k: nat)
    requires DistinctFields(patch)
    requires k < |patch|
    requires FieldTruthy(m, FieldOf(patch[k]))
    ensures Agree(ApplyPatch(m, patch), Assign(m, patch[k]), FieldOf(patch[k]))
    decreases |patch|
  {
    var f := FieldOf(patch[k]);
    var m' := ApplyEntry(m, patch[0]);
    if k == 0 {
      assert !Mentions(patch[1..], f) by {
        forall i | 0 <= i < |patch[1..]| ensures FieldOf(patch[1..][i]) != f {
          assert patch[1..][i] == patch[i + 1];
        }
      }
      PatchKeepsUnmentioned(m', patch[1..], f);
    } else {
      assert FieldOf(patch[0]) != f;
      assert Agree(m', m, f);
      assert patch[1..][k - 1] == patch[k];
      assert DistinctFields(patch[1..]) by {
        forall i, j | 0 <= i < j < |patch[1..]| ensures FieldOf(patch[1..][i]) != FieldOf(patch[1..][j]) {
          assert patch[1..][i] == patch[i + 1] && patch[1..][j] == patch[j + 1];
        }
      }
      PatchOverwritesTruthy(m', patch[1..], k - 1);
      assert Agree(Assign(m', patch[k]), Assign(m, patch[k]), f);
    }
  }

  /** An update cannot archive a member (the flag starts falsy), while it
      can restore an archived one. */
  lemma PatchArchiveFlag(m: Member, patch: seq<MemberPatchEntry>)
    ensures !m.isDeleted ==> !ApplyPatch(m, patch).isDeleted
    ensures m.isDeleted ==> !ApplyPatch(m, [SetIsDeleted(false)]).isDeleted
  {
    if !m.isDeleted {
      PatchKeepsFalsy(m, patch, IsDeleted);
    }
  }

  /** `user.save()` after the update: Mongoose validation, then the unique
      email index. */
  function Save(records: map<UserId, Member>, id: UserId, m: Member): (r: Result<map<UserId, Member>>)
    ensures r.Ok? <==> SchemaValid(m) && !EmailTaken(records, m.email, Some(id))
    ensures r.Err? ==> r.error == (if SchemaValid(m) then DuplicateKey else ValidationFailed)
    ensures r.Ok? ==> r.value == records[id := m]
  {
    if !SchemaValid(m) then Err(ValidationFailed)
    else if EmailTaken(records, m.email, Some(id)) then Err(DuplicateKey)
    else Ok(records[id := m])
  }

  /** A successful save keeps the store invariant. */
  lemma SaveKeepsValid(records: map<UserId, Member>, nextId: nat, id: UserId, m: Member)
    requires StoreValid(records, nextId) && id in records
    requires Save(records, id, m).Ok?
    ensures StoreValid(Save(records, id, m).value, nextId)
  {
    var r := records[id := m];
    forall i, j | i in r && j in r && i != j ensures r[i].email != r[j].email {
      if i == id {
        assert !(j in records && Some(j) != Some(id) && records[j].email == m.email);
      } else if j == id {
        assert !(i in records && Some(i) != Some(id) && records[i].email == m.email);
      }
    }
  }

  /** The whole of updateUser as a function of the store. */
  function Update(records: map<UserId, Member>, id: UserId, patch: seq<MemberPatchEntry>): (r: Result<map<UserId, Member>>)
    ensures id !in records ==> r == Err(NotFound(MissingUser))
    ensures r.Ok? ==> id in records && r.value == records[id := ApplyPatch(records[id], patch)]
    ensures id in records ==> var m := ApplyPatch(records[id], patch);
      (r.Ok? <==> SchemaValid(m) && !EmailTaken(records, m.email, Some(id)))
      && (r.Err? ==> r.error == (if SchemaValid(m) then DuplicateKey else ValidationFailed))
  {
    if id !in records then Err(NotFound(MissingUser)) else Save(records, id, ApplyPatch(records[id], patch))
  }

  class Members {
    var records: map<UserId, Member>
    var nextId: nat

    ghost predicate Valid()
      reads this
    {
      StoreValid(records, nextId)
    }

    constructor ()
      ensures Valid() && records == map[] && nextId == 0
    {
      records := map[];
      nextId := 0;
    }

    /** registerUser: `User.create` at time `now`. */
    method RegisterUser(input: MemberInput, now: Time) returns (r: Result<Doc<Member>>)
      requires Valid()
      modifies this
      ensures Valid()
      ensures NewMember(input, now).Err? ==> r == Err(ValidationFailed) && unchanged(this)
      ensures NewMember(input, now).Ok? && EmailTaken(old(records), input.email.value, None) ==>
        r == Err(DuplicateKey) && unchanged(this)
      ensures NewMember(input, now).Ok? && !EmailTaken(old(records), input.email.value, None) ==>
        && r == Ok(Doc(old(nextId), NewMember(input, now).value))
        && records == old(records)[old(nextId) := NewMember(input, now).value]
        && nextId == old(nextId) + 1
    {
      var created := NewMember(input, now);
      if created.Err? {
        return Err(created.error);
      }
      var m := created.value;
      if EmailTaken(records, m.email, None) {
        return Err(DuplicateKey);
      }
      var id := nextId;
      records := records[id := m];
      nextId := nextId + 1;
      r := Ok(Doc(id, m));
      assert EmailsUnique(records) by {
        forall i, j | i in records && j in records && i != j ensures records[i].email != records[j].email {
          if i == id {
            assert !(j in old(records) && Some(j) != None && old(records)[j].email == m.email);
          } else if j == id {
            assert !(i in old(records) && Some(i) != None && old(records)[i].email == m.email);
          }
        }
      }
    }

    /** updateUser: NotFound for an unknown id; otherwise the guarded field
        loop, then save. */
    method UpdateUser(id: UserId, patch: seq<MemberPatchEntry>) returns (r: Result<()>)
      requires Valid()
      modifies this
      ensures Valid() && nextId == old(nextId)
      ensures Update(old(records), id, patch).Ok? ==> r == Ok(()) && records == Update(old(records), id, patch).value
      ensures Update(old(records), id, patch).Err? ==>
        r == Err(Update(old(records), id, patch).error) && records == old(records)
    {
      if id !in records {
        return Err(NotFound(MissingUser));
      }
      var user := records[id];
      var i := 0;
      while i < |patch|
        invariant 0 <= i <= |patch|
        invariant ApplyPatch(user, patch[i..]) == ApplyPatch(records[id], patch)
      {
        assert patch[i..][1..] == patch[i + 1..];
        if FieldTruthy(user, FieldOf(patch[i])) {
          user := Assign(user, patch[i]);
        }
        i := i + 1;
      }
      var saved := Save(records, id, user);
      if saved.Ok? {
        SaveKeepsValid(records, nextId, id, user);
        records := saved.value;
        r := Ok(());
      } else {
        r := Err(saved.error);
      }
    }

    /** archiveUser: NotFound for an unknown id; otherwise only the flag. */
    method ArchiveUser(id: UserId) returns (r: Result<()>)
      requires Valid()
      modifies this
      ensures Valid() && nextId == old(nextId)
      ensures id !in old(records) ==> r == Err(NotFound(MissingUser)) && records == old(records)
      ensures id in old(records) ==>
        r == Ok(()) && records == old(records)[id := old(records)[id].(isDeleted := true)]
    {
      if id !in records {
        return Err(NotFound(MissingUser));
      }
      var user := records[id];
      user := user.(isDeleted := true);
      records := records[id := user];
      r := Ok(());
    }
  }
}
