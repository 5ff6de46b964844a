/**
 The user repository (TennisBuddy.Infrastructure/Repositories/UserRepository.cs)
 as pure functions over the users table. Every read filters to active rows;
 writes return the new table.
 */
module UserRepository {
  import opened Text
  import opened Domain
  import opened Seqs
  import opened Ordering

  /** The two `FirstOrDefaultAsync` lookups. */
  datatype Lookup = ById(id: string) | ByEmail(email: string)

  predicate Hits(k: Lookup, u: User)
  {
    match k
    case ById(id) => ActiveWithId(u, id)
    case ByEmail(email) => ActiveWithEmail(u, email)
  }

  /** Position of the first row the lookup hits, in storage order. */
  function FirstHit(s: seq<User>, k: Lookup): (r: Option<nat>)
    ensures r.Some? ==> r.value < |s| && Hits(k, s[r.value])
    ensures r.Some? ==> forall j :: 0 <= j < r.value ==> !Hits(k, s[j])
    ensures r.None? <==> forall j :: 0 <= j < |s| ==> !Hits(k, s[j])
    decreases |s|
  {
    if |s| == 0 then None
    else if Hits(k, s[0]) then Some(0)
    else
      match FirstHit(s[1..], k)
      case None => None
      case Some(i) => Some(i + 1)
  }

  /** A successful write: the stored user and the table after the write. */
  datatype Saved = Saved(user: User, table: Table)

  /** `GetByIdAsync`: the active row with this id; an inactive row counts as absent. */
  function GetById(store: Table, id: string): (r: Option<User>)
    ensures r.Some? ==> r.value in store && ActiveWithId(r.value, id)
    ensures r.Some? ==> forall i :: 0 <= i < |store| && store[i].id == id ==> store[i] == r.value
    ensures r.None? <==> forall u :: u in store ==> !ActiveWithId(u, id)
  {
    match FirstHit(store, ById(id))
    case None => None
    case Some(i) => Some(store[i])
  }

  /** `GetByEmailAsync`: the first active row whose email equals `email` ignoring case. */
  function GetByEmail(store: Table, email: string): (r: Option<User>)
    ensures r.Some? ==> r.value in store && ActiveWithEmail(r.value, email)
    ensures r.None? <==> forall u :: u in store ==> !ActiveWithEmail(u, email)
    ensures r.Some? && ActiveEmailsUnique(store)
      ==> forall u :: u in store && ActiveWithEmail(u, email) ==> u == r.value
  {
    match FirstHit(store, ByEmail(email))
    case None => None
    case Some(i) =>
      Some(store[i])
  }

  /** `ExistsAsync`: some active row has this email, ignoring case. */
  function Exists(store: Table, email: string): (r: bool)
    ensures r <==> GetByEmail(store, email).Some?
  {
    exists i :: 0 <= i < |store| && ActiveWithEmail(store[i], email)
  }

  /** The table with the row keyed `u.id` replaced by `u`. */
  function Replace(store: Table, u: User): (r: Table)
    ensures |r| == |store|
    ensures forall i :: 0 <= i < |store| && store[i].id == u.id ==> r[i] == u
    ensures forall i :: 0 <= i < |store| && store[i].id != u.id ==> r[i] == store[i]
  {
    seq(|store|, i requires 0 <= i < |store| => if store[i].id == u.id then u else store[i])
  }

  /** Replacing the row at `i` by a user with the same id is a point update. */
  lemma ReplaceAt(store: Table, i: nat, u: User)
    requires i < |store| && store[i].id == u.id
    ensures Replace(store, u) == store[i := u]
  {
  }

  /** `CreateAsync`: append a row; the database refuses a second row with the same key. */
  function Create(store: Table, u: User): (r: Option<Saved>)
    ensures r.None? <==> HasId(store, u.id)
    ensures r.Some? ==> r.value.user == u && r.value.table == store + [u]
  {
    if HasId(store, u.id) then None
    else Some(Saved(u, Append(store, u)))
  }

  /** A row with a new key can be appended. */
  function Append(store: Table, u: User): (r: Table)
    requires !HasId(store, u.id)
    ensures r == store + [u]
  {
    var r := store + [u];
    assert forall i :: 0 <= i < |store| ==> r[i] == store[i];
    r
  }

  /** `UpdateAsync`: replace the row with the same key; updating a missing row fails. */
  function Update(store: Table, u: User): (r: Option<Saved>)
    ensures r.None? <==> !HasId(store, u.id)
    ensures r.Some? ==> r.value.user == u
    ensures r.Some? ==> exists i :: 0 <= i < |store| && store[i].id == u.id && r.value.table == store[i := u]
  {
    if HasId(store, u.id) then
      var i :| 0 <= i < |store| && store[i].id == u.id;
      ReplaceAt(store, i, u);
      Some(Saved(u, Replace(store, u)))
    else None
  }

  /** `DeleteAsync`: soft delete. Clears `isActive` on the active row with this id. */
  function Delete(store: Table, id: string): (r: (bool, Table))
    ensures !r.0 <==> GetById(store, id).None?
    ensures !r.0 ==> r.1 == store
    ensures r.0 ==> exists i :: (0 <= i < |store| && ActiveWithId(store[i], id)
                                 && r.1 == store[i := store[i].(isActive := false)])
  {
    match FirstHit(store, ById(id))
    case None => (false, store)
    case Some(i) =>
      var u := store[i].(isActive := false);
      ReplaceAt(store, i, u);
      (true, Replace(store, u))
  }

  /** The active rows, in storage order. */
  function ActiveRows(store: seq<User>): (r: seq<User>)
    ensures forall u :: u in r <==> u in store && u.isActive
  {
    Filter(store, (u: User) => u.isActive)
  }

  /** `GetAllAsync`: every active user, ordered by creation time. */
  function GetAll(store: Table): (r: seq<User>)
    ensures multiset(r) == multiset(ActiveRows(store))
    ensures forall u :: u in r <==> u in store && u.isActive
    ensures forall i, j :: 0 <= i < j < |r| ==> CreatedNoLater(r[i], r[j])
  {
    var r := Sort(ByCreatedAt, ActiveRows(store));
    SortSameMembers(ByCreatedAt, ActiveRows(store));
    forall i, j | 0 <= i < j < |r| ensures CreatedNoLater(r[i], r[j]) {
      CreatedAtOrder(r[i], r[j]);
    }
    r
  }

  /** The location test of `GetByLocationAsync`: a non-null location containing `text`, ignoring case. */
  predicate LocatedIn(u: User, text: string)
  {
    u.location.Some? && ContainsIgnoreCase(u.location.value, text)
  }

  /** `GetByLocationAsync`: active users whose location contains `location`, ordered by name. */
  function GetByLocation(store: Table, location: string): (r: seq<User>)
    ensures multiset(r) == multiset(Filter(store, (u: User) => u.isActive && LocatedIn(u, location)))
    ensures forall u :: u in r <==> u in store && u.isActive && LocatedIn(u, location)
    ensures forall i, j :: 0 <= i < j < |r| ==> LexLe(Codes(r[i].name), Codes(r[j].name))
  {
    var hits := Filter(store, (u: User) => u.isActive && LocatedIn(u, location));
    SortSameMembers(ByName, hits);
    Sort(ByName, hits)
  }

  /** `GetBySkillLevelAsync`: active users with exactly this skill level, ordered by name. */
  function GetBySkillLevel(store: Table, skillLevel: int): (r: seq<User>)
    ensures multiset(r) == multiset(Filter(store, (u: User) => u.isActive && u.skillLevel == Some(skillLevel)))
    ensures forall u :: u in r <==> u in store && u.isActive && u.skillLevel == Some(skillLevel)
    ensures forall i, j :: 0 <= i < j < |r| ==> LexLe(Codes(r[i].name), Codes(r[j].name))
  {
    var hits := Filter(store, (u: User) => u.isActive && u.skillLevel == Some(skillLevel));
    SortSameMembers(ByName, hits);
    Sort(ByName, hits)
  }

  /** The skill test of `GetBySkillLevelRangeAsync`; a null skill level never passes. */
  predicate SkillWithin(u: User, lo: int, hi: int)
  {
    u.skillLevel.Some? && lo <= u.skillLevel.value <= hi
  }

  /** `GetBySkillLevelRangeAsync`: active users with `lo <= skill <= hi`, ordered by skill, then name. */
  function GetBySkillLevelRange(store: Table, lo: int, hi: int): (r: seq<User>)
    ensures multiset(r) == multiset(Filter(store, (u: User) => u.isActive && SkillWithin(u, lo, hi)))
    ensures forall u :: u in r <==> u in store && u.isActive && SkillWithin(u, lo, hi)
    ensures forall i, j :: (0 <= i < j < |r|
                            ==> (r[i].skillLevel.Some? && r[j].skillLevel.Some?
                                 && r[i].skillLevel.value <= r[j].skillLevel.value))
    ensures forall i, j :: (0 <= i < j < |r| && r[i].skillLevel == r[j].skillLevel
                            ==> LexLe(Codes(r[i].name), Codes(r[j].name)))
    ensures lo > hi ==> r == []
  {
    var hits := Filter(store, (u: User) => u.isActive && SkillWithin(u, lo, hi));
    var r := Sort(BySkillThenName, hits);
    SortSameMembers(BySkillThenName, hits);
    assert forall i :: 0 <= i < |r| ==> r[i] in r;
    forall i, j | 0 <= i < j < |r|
      ensures r[i].skillLevel.value <= r[j].skillLevel.value
    {
      SkillOrderedFirst(r[i], r[j]);
    }
    forall i, j | 0 <= i < j < |r| && r[i].skillLevel == r[j].skillLevel
      ensures LexLe(Codes(r[i].name), Codes(r[j].name))
    {
      NameBreaksSkillTies(r[i], r[j]);
    }
    r
  }

  /** After a successful delete the user is gone from every read. */
  lemma DeleteHidesUser(store: Table, id: string)
    requires Delete(store, id).0
    ensures GetById(Delete(store, id).1, id).None?
    ensures forall u :: u in GetAll(Delete(store, id).1) ==> u.id != id
  {
    var t := Delete(store, id).1;
    var i :| 0 <= i < |store| && ActiveWithId(store[i], id) && t == store[i := store[i].(isActive := false)];
    forall u | u in t ensures !ActiveWithId(u, id) {
      var j :| 0 <= j < |t| && t[j] == u;
      if j != i {
        assert store[j].id != store[i].id;
      }
    }
  }

  /** Deleting the same id a second time reports false and changes nothing. */
  lemma DeleteTwice(store: Table, id: string)
    ensures !Delete(Delete(store, id).1, id).0
    ensures Delete(Delete(store, id).1, id).1 == Delete(store, id).1
  {
    if Delete(store, id).0 {
      DeleteHidesUser(store, id);
    }
  }

  /** Deleting deactivates one row and keeps at most one active user per email. */
  lemma DeleteKeepsEmailsUnique(store: Table, id: string)
    requires ActiveEmailsUnique(store)
    ensures ActiveEmailsUnique(Delete(store, id).1)
  {
  }

  /** A created active user is found by its id and by its email. */
  lemma CreateThenFind(store: Table, u: User)
    requires !HasId(store, u.id) && u.isActive
    requires forall v :: v in store ==> !ActiveWithEmail(v, u.email)
    ensures Create(store, u).Some?
    ensures GetById(Create(store, u).value.table, u.id) == Some(u)
    ensures GetByEmail(Create(store, u).value.table, u.email) == Some(u)
  {
    var t := Create(store, u).value.table;
    assert t[|store|] == u;
    assert u in t;
  }

  /** An update to an existing row is seen by the next lookup of that id. */
  lemma UpdateThenFind(store: Table, u: User)
    requires HasId(store, u.id) && u.isActive
    ensures GetById(Update(store, u).value.table, u.id) == Some(u)
  {
    var t := Update(store, u).value.table;
    var i :| 0 <= i < |store| && store[i].id == u.id && t == store[i := u];
    assert t[i] == u;
  }
}
