/**
 The user entity (TennisBuddy.Domain/Entities/User.cs) and the users table it
 is stored in.
 */
module Domain {
  import opened Text

  /** A nullable value: `None` is C#'s `null`. */
  datatype Option<T> = None | Some(value: T)

  /** Instants are whole seconds on one timeline; `MinDateTime` is `default(DateTime)`. */
  type Instant = int
  const MinDateTime: Instant := 0

  const MinSkillLevel: int := 1
  const MaxSkillLevel: int := 10

  /** One row of the users table. The source's other spellings of the name
      (first/last name, full name) are all derived from `name`. */
  datatype User = User(
    id: string,
    email: string,
    name: string,
    profilePicture: Option<string>,
    location: Option<string>,
    phoneNumber: Option<string>,
    skillLevel: Option<int>,
    preferredPlayTimes: Option<seq<string>>,
    createdAt: Option<Instant>,
    passwordHash: string,
    lastLoginAt: Option<Instant>,
    isActive: bool)

  /** No two rows share a primary key. */
  ghost predicate IdsUnique(s: seq<User>)
  {
    forall i, j :: 0 <= i < j < |s| ==> s[i].id != s[j].id
  }

  /** The users table: rows in storage order, keyed by `id`. */
  type Table = s: seq<User> | IdsUnique(s) witness []

  /** Some row, active or not, has this primary key. */
  predicate HasId(s: seq<User>, id: string)
  {
    exists i :: 0 <= i < |s| && s[i].id == id
  }

  /** The account-level invariant: at most one active user per lower-cased email. */
  ghost predicate ActiveEmailsUnique(s: seq<User>)
  {
    forall i, j :: 0 <= i < j < |s| && s[i].isActive && s[j].isActive
      ==> Lower(s[i].email) != Lower(s[j].email)
  }

  /** An active user with this id. */
  predicate ActiveWithId(u: User, id: string)
  {
    u.isActive && u.id == id
  }

  /** An active user whose email equals `email` ignoring case. */
  predicate ActiveWithEmail(u: User, email: string)
  {
    u.isActive && EqualsIgnoreCase(u.email, email)
  }
}
