/**
 The data transfer objects and the object mappings between them and the user
 entity (TennisBuddy.Application/Mappings/MappingProfile.cs and the
 `MapToUserDto` helper of the auth service).
 */
module Mapping {
  import opened Domain

  /** The public user view. It has no password-hash member. */
  datatype UserDto = UserDto(
    id: string,
    email: string,
    fullName: string,
    profilePicture: Option<string>,
    location: Option<string>,
    phoneNumber: Option<string>,
    skillLevel: Option<int>,
    preferredPlayTimes: Option<seq<string>>,
    createdAt: Option<Instant>)

  datatype UserStats = UserStats(skillLevel: Option<int>)

  datatype UserPreferences = UserPreferences(preferredPlayTimes: seq<string>)

  /** The profile view. Its play-time list and join date are not nullable. */
  datatype UserProfile = UserProfile(
    id: string,
    name: string,
    email: string,
    phone: Option<string>,
    profilePicture: Option<string>,
    location: Option<string>,
    stats: UserStats,
    preferences: UserPreferences,
    joinedDate: Instant)

  /** The registration request. */
  datatype RegisterRequest = RegisterRequest(email: string, fullName: string, password: string)

  /** The partial profile update: every member is nullable. */
  datatype ProfileUpdate = ProfileUpdate(
    name: Option<string>,
    location: Option<string>,
    phoneNumber: Option<string>,
    skillLevel: Option<int>,
    preferredPlayTimes: Option<seq<string>>,
    profilePicture: Option<string>)

  /** User to public view, member by member. */
  function ToUserDto(u: User): UserDto
  {
    UserDto(u.id, u.email, u.name, u.profilePicture, u.location, u.phoneNumber,
            u.skillLevel, u.preferredPlayTimes, u.createdAt)
  }

  /** Two users have the same public view exactly when they agree on every
      public column; the hash, last login and active flag are not shown. */
  lemma ViewShowsPublicFields(u: User, v: User)
    ensures ToUserDto(u) == ToUserDto(v)
      <==> (&& u.id == v.id && u.email == v.email && u.name == v.name
            && u.profilePicture == v.profilePicture && u.location == v.location
            && u.phoneNumber == v.phoneNumber && u.skillLevel == v.skillLevel
            && u.preferredPlayTimes == v.preferredPlayTimes && u.createdAt == v.createdAt)
  {
    if ToUserDto(u) == ToUserDto(v) {
      assert ToUserDto(u).fullName == ToUserDto(v).fullName;
    }
  }

  /** The User -> view mapping of the object mapper: member by member like
      `ToUserDto`, except that the mapper never writes a null collection, so
      a null play-time list arrives as an empty one. */
  function MapperView(u: User): UserDto
  {
    UserDto(u.id, u.email, u.name, u.profilePicture, u.location, u.phoneNumber,
            u.skillLevel, Some(match u.preferredPlayTimes case Some(ts) => ts case None => []),
            u.createdAt)
  }

  /** The mapper's view and the hand-written view agree exactly when the
      play-time list is not null; otherwise they differ only there. */
  lemma MapperViewAgrees(u: User)
    ensures MapperView(u) == ToUserDto(u) <==> u.preferredPlayTimes.Some?
    ensures u.preferredPlayTimes.None? ==> MapperView(u) == ToUserDto(u).(preferredPlayTimes := Some([]))
  {
    if MapperView(u) == ToUserDto(u) {
      assert MapperView(u).preferredPlayTimes == u.preferredPlayTimes;
    }
  }

  /** The mapper's view and the search view agree exactly when the creation
      time is not null. */
  lemma MapperViewMatchesSearch(u: User)
    ensures MapperView(u) == SearchView(u) <==> u.createdAt.Some?
  {
    if MapperView(u) == SearchView(u) {
      assert MapperView(u).createdAt == u.createdAt;
    }
  }

  /** User to profile: a null play-time list becomes empty, a null creation
      time becomes `default(DateTime)`. */
  function ToProfile(u: User): UserProfile
  {
    UserProfile(
      u.id, u.name, u.email, u.phoneNumber, u.profilePicture, u.location,
      UserStats(u.skillLevel),
      UserPreferences(match u.preferredPlayTimes case Some(ts) => ts case None => []),
      match u.createdAt case Some(t) => t case None => MinDateTime)
  }

  /** Profile to public view, as the search result mapping does. */
  function ProfileToUserDto(p: UserProfile): UserDto
  {
    UserDto(p.id, p.email, p.name, p.profilePicture, p.location, p.phone,
            p.stats.skillLevel, Some(p.preferences.preferredPlayTimes), Some(p.joinedDate))
  }

  /** The view a search result shows for a user: through the profile. */
  function SearchView(u: User): UserDto
  {
    ProfileToUserDto(ToProfile(u))
  }

  /** The User -> profile -> view round trip keeps identity, contact and skill,
      keeps non-null play times and creation time, and turns nulls into an
      empty list and `default(DateTime)`. */
  lemma RoundTrip(u: User)
    ensures var d := SearchView(u);
      && d.id == u.id && d.email == u.email && d.fullName == u.name
      && d.location == u.location && d.profilePicture == u.profilePicture
      && d.skillLevel == u.skillLevel && d.phoneNumber == u.phoneNumber
      && (u.preferredPlayTimes.Some? ==> d.preferredPlayTimes == u.preferredPlayTimes)
      && (u.preferredPlayTimes.None? ==> d.preferredPlayTimes == Some([]))
      && (u.createdAt.Some? ==> d.createdAt == u.createdAt)
      && (u.createdAt.None? ==> d.createdAt == Some(MinDateTime))
  {
  }

  /** The round trip agrees with the direct view exactly when neither nullable
      collection nor the creation time is null. */
  lemma RoundTripExact(u: User)
    ensures SearchView(u) == ToUserDto(u) <==> u.preferredPlayTimes.Some? && u.createdAt.Some?
  {
    if SearchView(u) == ToUserDto(u) {
      assert SearchView(u).preferredPlayTimes == u.preferredPlayTimes;
      assert SearchView(u).createdAt == u.createdAt;
    }
  }

  /** Neither view depends on the stored password hash. */
  lemma ViewsHidePasswordHash(u: User, h: string)
    ensures ToUserDto(u.(passwordHash := h)) == ToUserDto(u)
    ensures ToProfile(u.(passwordHash := h)) == ToProfile(u)
  {
  }

  /** Registration mapping as intended: the new id, the request's email and
      full name, creation time `now`, active, and an empty password hash (the
      request's password is never mapped). */
  function FromRegistration(req: RegisterRequest, id: string, now: Instant): User
  {
    User(id, req.email, req.fullName, None, None, None, None, None, Some(now), "", None, true)
  }

  /** The registration mapping ignores the password: two requests that differ
      only in their password map to the same user. */
  lemma RegistrationIgnoresPassword(req: RegisterRequest, password: string, id: string, now: Instant)
    ensures FromRegistration(req.(password := password), id, now) == FromRegistration(req, id, now)
    ensures FromRegistration(req, id, now).passwordHash == ""
    ensures FromRegistration(req, id, now).isActive
    ensures FromRegistration(req, id, now).id == id
    ensures FromRegistration(req, id, now).createdAt == Some(now)
  {
  }

  /** The registration mapping as configured: the request's `FullName` has
      no namesake on the user and no mapping rule, so `Name` keeps its
      default, the empty string. */
  function FromRegistrationAsWritten(req: RegisterRequest, id: string, now: Instant): User
  {
    User(id, req.email, "", None, None, None, None, None, Some(now), "", None, true)
  }

  /** As written, registration stores no name and the registered view shows
      none: it differs from the intended mapping exactly in the name, and
      exactly when the request has a non-empty full name. */
  lemma RegistrationAsWrittenDropsName(req: RegisterRequest, id: string, now: Instant)
    ensures FromRegistrationAsWritten(req, id, now) == FromRegistration(req, id, now).(name := "")
    ensures FromRegistrationAsWritten(req, id, now) != FromRegistration(req, id, now) <==> req.fullName != ""
    ensures MapperView(FromRegistrationAsWritten(req, id, now)).fullName == ""
    ensures MapperView(FromRegistration(req, id, now)).fullName == req.fullName
  {
    if req.fullName != "" {
      assert FromRegistration(req, id, now).name != FromRegistrationAsWritten(req, id, now).name;
    }
  }

  /** The request "Ann Lee" registers as a user with no name. */
  lemma AnnLeeRegistersNameless(id: string, now: Instant)
    ensures var req := RegisterRequest("a@x.io", "Ann Lee", "secret1");
      && FromRegistrationAsWritten(req, id, now).name == ""
      && FromRegistration(req, id, now).name == "Ann Lee"
  {
  }

  /** Copy a member only when the update holds a value for it. */
  function Pick<T>(update: Option<T>, current: T): T
  {
    match update
    case Some(v) => v
    case None => current
  }

  /** A nullable member of the update replaces a nullable member of the user only when non-null. */
  function Keep<T>(update: Option<T>, current: Option<T>): Option<T>
  {
    if update.Some? then update else current
  }

  /** The partial update: copies only non-null members onto the user. */
  function ApplyUpdate(d: ProfileUpdate, u: User): (r: User)
    ensures d.name.None? ==> r.name == u.name
    ensures d.name.Some? ==> r.name == d.name.value
    ensures d.location.None? ==> r.location == u.location
    ensures d.location.Some? ==> r.location == d.location
    ensures d.phoneNumber.None? ==> r.phoneNumber == u.phoneNumber
    ensures d.phoneNumber.Some? ==> r.phoneNumber == d.phoneNumber
    ensures d.skillLevel.None? ==> r.skillLevel == u.skillLevel
    ensures d.skillLevel.Some? ==> r.skillLevel == d.skillLevel
    ensures d.preferredPlayTimes.None? ==> r.preferredPlayTimes == u.preferredPlayTimes
    ensures d.preferredPlayTimes.Some? ==> r.preferredPlayTimes == d.preferredPlayTimes
    ensures d.profilePicture.None? ==> r.profilePicture == u.profilePicture
    ensures d.profilePicture.Some? ==> r.profilePicture == d.profilePicture
    ensures r.id == u.id && r.email == u.email && r.passwordHash == u.passwordHash
    ensures r.isActive == u.isActive && r.createdAt == u.createdAt && r.lastLoginAt == u.lastLoginAt
  {
    User(u.id, u.email, Pick(d.name, u.name),
         Keep(d.profilePicture, u.profilePicture),
         Keep(d.location, u.location), Keep(d.phoneNumber, u.phoneNumber),
         Keep(d.skillLevel, u.skillLevel), Keep(d.preferredPlayTimes, u.preferredPlayTimes),
         u.createdAt, u.passwordHash, u.lastLoginAt, u.isActive)
  }

  /** The update that carries `later`'s non-null members and `earlier`'s elsewhere. */
  function Merge(later: ProfileUpdate, earlier: ProfileUpdate): ProfileUpdate
  {
    ProfileUpdate(
      Keep(later.name, earlier.name), Keep(later.location, earlier.location),
      Keep(later.phoneNumber, earlier.phoneNumber), Keep(later.skillLevel, earlier.skillLevel),
      Keep(later.preferredPlayTimes, earlier.preferredPlayTimes),
      Keep(later.profilePicture, earlier.profilePicture))
  }

  /** Two updates in a row are one merged update: the later non-null members win. */
  lemma UpdatesCompose(earlier: ProfileUpdate, later: ProfileUpdate, u: User)
    ensures ApplyUpdate(later, ApplyUpdate(earlier, u)) == ApplyUpdate(Merge(later, earlier), u)
  {
  }

  /** An update with every member null changes nothing. */
  lemma EmptyUpdateIsIdentity(u: User)
    ensures ApplyUpdate(ProfileUpdate(None, None, None, None, None, None), u) == u
  {
  }

  /** Applying the same update twice is applying it once. */
  lemma UpdateIdempotent(d: ProfileUpdate, u: User)
    ensures ApplyUpdate(d, ApplyUpdate(d, u)) == ApplyUpdate(d, u)
  {
  }
}
