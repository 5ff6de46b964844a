/**
 Partner matching and profile management
 (TennisBuddy.Application/Services/UserService.cs) over the users table.
 */
module UserService {
  import opened Text
  import opened Domain
  import opened Seqs
  import opened Ordering
  import opened Mapping
  import opened Paging
  import opened UserRepository

  // ---------------------------------------------------------------------------
  // Search
  // ---------------------------------------------------------------------------

  /** The search request. */
  datatype SearchCriteria = SearchCriteria(
    location: Option<string>,
    minSkillLevel: Option<int>,
    maxSkillLevel: Option<int>,
    preferredPlayTime: Option<string>,
    pageSize: int,
    pageNumber: int)

  /** What the paging arithmetic needs: a positive page size and page number.
      The request's validation attributes (page size at most 100, skill
      bounds 1..10) are not needed by the service and not assumed. */
  predicate ValidPaging(c: SearchCriteria)
  {
    c.pageSize >= 1 && c.pageNumber >= 1
  }

  /** The search response. */
  datatype SearchResult = SearchResult(
    users: seq<UserDto>,
    totalCount: nat,
    pageNumber: int,
    pageSize: int,
    totalPages: nat,
    hasNextPage: bool,
    hasPreviousPage: bool)

  /** One `Where` clause of the search. */
  datatype Narrowing =
    | LocationContains(text: string)
    | SkillAtLeast(min: int)
    | SkillAtMost(max: int)
    | PlaysAt(tag: string)

  /** Whether a user passes one clause. A null column never passes. */
  predicate Admits(f: Narrowing, u: User)
  {
    match f
    case LocationContains(text) => u.location.Some? && ContainsIgnoreCase(u.location.value, text)
    case SkillAtLeast(min) => u.skillLevel.Some? && u.skillLevel.value >= min
    case SkillAtMost(max) => u.skillLevel.Some? && u.skillLevel.value <= max
    case PlaysAt(tag) => u.preferredPlayTimes.Some? && tag in u.preferredPlayTimes.value
  }

  predicate IsNullOrEmpty(s: Option<string>)
  {
    s.None? || |s.value| == 0
  }

  /** The clauses a request switches on, in the order the service applies them. */
  function Narrowings(c: SearchCriteria): seq<Narrowing>
  {
    (if IsNullOrEmpty(c.location) then [] else [LocationContains(c.location.value)])
    + (if c.minSkillLevel.None? then [] else [SkillAtLeast(c.minSkillLevel.value)])
    + (if c.maxSkillLevel.None? then [] else [SkillAtMost(c.maxSkillLevel.value)])
    + (if IsNullOrEmpty(c.preferredPlayTime) then [] else [PlaysAt(c.preferredPlayTime.value)])
  }

  predicate AdmitsAll(fs: seq<Narrowing>, u: User)
  {
    forall i :: 0 <= i < |fs| ==> Admits(fs[i], u)
  }

  /** The criteria as one condition: each present criterion must hold. */
  predicate MatchesCriteria(c: SearchCriteria, u: User)
  {
    && (!IsNullOrEmpty(c.location) ==> u.location.Some? && ContainsIgnoreCase(u.location.value, c.location.value))
    && (c.minSkillLevel.Some? ==> u.skillLevel.Some? && u.skillLevel.value >= c.minSkillLevel.value)
    && (c.maxSkillLevel.Some? ==> u.skillLevel.Some? && u.skillLevel.value <= c.maxSkillLevel.value)
    && (!IsNullOrEmpty(c.preferredPlayTime) ==> u.preferredPlayTimes.Some? && c.preferredPlayTime.value in u.preferredPlayTimes.value)
  }

  /** The switched-on clauses together say exactly what the criteria say. */
  lemma NarrowingsMeanCriteria(c: SearchCriteria, u: User)
    ensures AdmitsAll(Narrowings(c), u) <==> MatchesCriteria(c, u)
  {
    var l := if IsNullOrEmpty(c.location) then [] else [LocationContains(c.location.value)];
    var a := if c.minSkillLevel.None? then [] else [SkillAtLeast(c.minSkillLevel.value)];
    var b := if c.maxSkillLevel.None? then [] else [SkillAtMost(c.maxSkillLevel.value)];
    var t := if IsNullOrEmpty(c.preferredPlayTime) then [] else [PlaysAt(c.preferredPlayTime.value)];
    AdmitsAllAppend(l, a, u);
    AdmitsAllAppend(l + a, b, u);
    AdmitsAllAppend(l + a + b, t, u);
    AdmitsAllAtMostOne(l, u);
    AdmitsAllAtMostOne(a, u);
    AdmitsAllAtMostOne(b, u);
    AdmitsAllAtMostOne(t, u);
  }

  lemma AdmitsAllAtMostOne(fs: seq<Narrowing>, u: User)
    requires |fs| <= 1
    ensures AdmitsAll(fs, u) <==> (|fs| == 1 ==> Admits(fs[0], u))
  {
  }

  lemma AdmitsAllAppend(fs: seq<Narrowing>, gs: seq<Narrowing>, u: User)
    ensures AdmitsAll(fs + gs, u) <==> AdmitsAll(fs, u) && AdmitsAll(gs, u)
  {
    if AdmitsAll(fs, u) && AdmitsAll(gs, u) {
      forall i | 0 <= i < |fs + gs| ensures Admits((fs + gs)[i], u) {
        if i >= |fs| {
          assert (fs + gs)[i] == gs[i - |fs|];
        }
      }
    }
    if AdmitsAll(fs + gs, u) {
      forall i | 0 <= i < |fs| ensures Admits(fs[i], u) {
        assert (fs + gs)[i] == fs[i];
      }
      forall i | 0 <= i < |gs| ensures Admits(gs[i], u) {
        assert (fs + gs)[|fs| + i] == gs[i];
      }
    }
  }

  /** The clauses applied one `Where` after another. */
  function Narrow(us: seq<User>, fs: seq<Narrowing>): (r: seq<User>)
    ensures r == Filter(us, (u: User) => AdmitsAll(fs, u))
    decreases |fs|
  {
    if |fs| == 0 then
      FilterExtensional(us, (u: User) => AdmitsAll(fs, u), (u: User) => true);
      us
    else
      var first := (u: User) => Admits(fs[0], u);
      var rest := (u: User) => AdmitsAll(fs[1..], u);
      var both := (u: User) => AdmitsAll(fs, u);
      assert forall u :: both(u) == (first(u) && rest(u)) by {
        forall u ensures both(u) == (first(u) && rest(u)) {
          AdmitsAllAppend([fs[0]], fs[1..], u);
          assert [fs[0]] + fs[1..] == fs;
        }
      }
      FilterCompose(us, first, rest, both);
      Narrow(Filter(us, first), fs[1..])
  }

  /** The users a search matches, before paging: the active users in
      `GetAll` order that meet every present criterion. */
  function SearchMatches(store: Table, c: SearchCriteria): (r: seq<User>)
    ensures r == Filter(GetAll(store), (u: User) => MatchesCriteria(c, u))
    ensures forall u :: u in r <==> u in store && u.isActive && MatchesCriteria(c, u)
  {
    var r := Narrow(GetAll(store), Narrowings(c));
    forall u ensures AdmitsAll(Narrowings(c), u) == MatchesCriteria(c, u) {
      NarrowingsMeanCriteria(c, u);
    }
    FilterExtensional(GetAll(store), (u: User) => AdmitsAll(Narrowings(c), u), (u: User) => MatchesCriteria(c, u));
    r
  }

  /** The views shown for a list of users, in the same order. */
  function SearchViews(us: seq<User>): (r: seq<UserDto>)
    ensures |r| == |us|
    ensures forall i :: 0 <= i < |us| ==> r[i] == SearchView(us[i])
  {
    seq(|us|, i requires 0 <= i < |us| => SearchView(us[i]))
  }

  /** Each view in `views` is the view of the match at the same position of page `page`. */
  predicate ShowsPage(views: seq<UserDto>, m: seq<User>, page: int, size: int)
    requires page >= 1
  {
    forall i :: 0 <= i < |views| ==>
      (0 <= Offset(page, size) + i < |m| && views[i] == SearchView(m[Offset(page, size) + i]))
  }

  /** The views of page `page` of the matches `m`. */
  function PageViews(m: seq<User>, page: int, size: int): (r: seq<UserDto>)
    requires page >= 1 && size >= 1
    ensures |r| <= size
    ensures ShowsPage(r, m, page, size)
    ensures Offset(page, size) < |m| ==> |r| == Min(size, |m| - Offset(page, size))
    ensures r == [] <==> page > CeilDiv(|m|, size)
  {
    PageEmptyIffPastEnd(m, page, size);
    SearchViews(Page(m, page, size))
  }

  /** `r` answers request `c` over the match list `m`: it counts all of `m`,
      shows page `c.pageNumber` of it, and its page count and flags agree. */
  predicate Describes(r: SearchResult, m: seq<User>, c: SearchCriteria)
    requires ValidPaging(c)
  {
    && r.totalCount == |m|
    && |r.users| <= c.pageSize
    && ShowsPage(r.users, m, c.pageNumber, c.pageSize)
    && (Offset(c.pageNumber, c.pageSize) < |m| ==>
          |r.users| == Min(c.pageSize, |m| - Offset(c.pageNumber, c.pageSize)))
    && r.totalPages == CeilDiv(r.totalCount, c.pageSize)
    && (r.users == [] <==> c.pageNumber > r.totalPages)
    && r.pageNumber == c.pageNumber && r.pageSize == c.pageSize
    && (r.hasNextPage <==> c.pageNumber < r.totalPages)
    && (r.hasPreviousPage <==> c.pageNumber > 1)
  }

  /** The response for a list of matches: count, page count, one page, flags. */
  function Paginate(m: seq<User>, c: SearchCriteria): (r: SearchResult)
    requires ValidPaging(c)
    ensures Describes(r, m, c)
  {
    var pages := CeilDiv(|m|, c.pageSize);
    SearchResult(PageViews(m, c.pageNumber, c.pageSize), |m|, c.pageNumber, c.pageSize, pages,
                 c.pageNumber < pages, c.pageNumber > 1)
  }

  /** `SearchUsersAsync`: filter the active users, count, then cut one page. */
  function Search(store: Table, c: SearchCriteria): (r: SearchResult)
    requires ValidPaging(c)
    ensures Describes(r, SearchMatches(store, c), c)
  {
    Paginate(SearchMatches(store, c), c)
  }

  /** The users of a result are the views of one page of the matches. */
  lemma SearchShowsPage(store: Table, c: SearchCriteria)
    requires ValidPaging(c)
    ensures Search(store, c).users == SearchViews(Page(SearchMatches(store, c), c.pageNumber, c.pageSize))
  {
  }

  /** With no criteria every active user is matched, in `GetAll` order. */
  lemma SearchWithoutCriteria(store: Table, c: SearchCriteria)
    requires IsNullOrEmpty(c.location) && c.minSkillLevel.None? && c.maxSkillLevel.None?
    requires IsNullOrEmpty(c.preferredPlayTime)
    ensures SearchMatches(store, c) == GetAll(store)
  {
  }

  /** A user without a skill level never passes a skill bound. */
  lemma NoSkillFailsSkillBounds(c: SearchCriteria, u: User)
    requires u.skillLevel.None?
    requires c.minSkillLevel.Some? || c.maxSkillLevel.Some?
    ensures !MatchesCriteria(c, u)
  {
  }

  /** An inverted skill range is not an error: it matches nobody. */
  lemma InvertedRangeMatchesNobody(store: Table, c: SearchCriteria)
    requires ValidPaging(c)
    requires c.minSkillLevel.Some? && c.maxSkillLevel.Some?
    requires c.minSkillLevel.value > c.maxSkillLevel.value
    ensures Search(store, c).totalCount == 0
    ensures Search(store, c).totalPages == 0
    ensures Search(store, c).users == []
  {
    assert forall u :: !MatchesCriteria(c, u);
  }

  /** 25 matches, 10 per page, page 3: five users, three pages, no next page. */
  lemma ThirdPageOfTwentyFive(m: seq<User>, c: SearchCriteria)
    requires c.pageSize == 10 && c.pageNumber == 3 && |m| == 25
    ensures |Paginate(m, c).users| == 5
    ensures Paginate(m, c).totalPages == 3
    ensures !Paginate(m, c).hasNextPage && Paginate(m, c).hasPreviousPage
  {
    assert Offset(3, 10) == 20;
    assert CeilDiv(25, 10) == 3;
  }

  /** The same request for page `k`. */
  function AtPage(c: SearchCriteria, k: int): (r: SearchCriteria)
    ensures r.pageNumber == k && r.pageSize == c.pageSize
    ensures Narrowings(r) == Narrowings(c)
    ensures k >= 1 && ValidPaging(c) ==> ValidPaging(r)
  {
    c.(pageNumber := k)
  }

  /** The views of pages 1, 2, ..., k of `m`, laid end to end. */
  function ViewPages(m: seq<User>, size: int, k: nat): seq<UserDto>
    requires size >= 1
  {
    if k == 0 then [] else ViewPages(m, size, k - 1) + PageViews(m, k, size)
  }

  /** The first k pages of views are the views of the first k pages. */
  lemma {:induction false} ViewPagesAreViewsOfPages(m: seq<User>, size: int, k: nat)
    requires size >= 1
    ensures ViewPages(m, size, k) == SearchViews(FirstPages(m, size, k))
  {
    if k > 0 {
      ViewPagesAreViewsOfPages(m, size, k - 1);
      SearchViewsAppend(FirstPages(m, size, k - 1), Page(m, k, size));
    }
  }

  /** Asking for page `k` shows the views of page `k` of the request's matches. */
  lemma SearchPageK(store: Table, c: SearchCriteria, k: nat)
    requires ValidPaging(c) && k >= 1
    ensures Search(store, AtPage(c, k)).users == PageViews(SearchMatches(store, c), k, c.pageSize)
  {
    var c' := AtPage(c, k);
    MatchesIgnorePaging(store, c, k);
    assert Search(store, c') == Paginate(SearchMatches(store, c'), c');
  }

  /** The page number takes no part in which users match. */
  lemma MatchesIgnorePaging(store: Table, c: SearchCriteria, k: int)
    ensures SearchMatches(store, AtPage(c, k)) == SearchMatches(store, c)
  {
    assert Narrowings(AtPage(c, k)) == Narrowings(c);
  }

  lemma SearchViewsAppend(a: seq<User>, b: seq<User>)
    ensures SearchViews(a + b) == SearchViews(a) + SearchViews(b)
  {
  }

  /** Paging from page 1 to the last page shows each match exactly once, in
      order: asking for page k shows page k of one and the same match list,
      and those pages end to end are the whole list. */
  lemma AllPagesShowAllMatches(store: Table, c: SearchCriteria)
    requires ValidPaging(c)
    ensures forall k :: 1 <= k ==>
      Search(store, AtPage(c, k)).users == PageViews(SearchMatches(store, c), k, c.pageSize)
    ensures ViewPages(SearchMatches(store, c), c.pageSize, Search(store, c).totalPages)
      == SearchViews(SearchMatches(store, c))
  {
    var m := SearchMatches(store, c);
    forall k | 1 <= k
      ensures Search(store, AtPage(c, k)).users == PageViews(m, k, c.pageSize)
    {
      SearchPageK(store, c, k);
    }
    ViewPagesAreViewsOfPages(m, c.pageSize, CeilDiv(|m|, c.pageSize));
    PagesCoverAll(m, c.pageSize);
  }

  // ---------------------------------------------------------------------------
  // Similar skill and nearby players
  // ---------------------------------------------------------------------------

  /** The profile views of a list of users, in the same order. */
  function Profiles(us: seq<User>): (r: seq<UserProfile>)
    ensures |r| == |us|
    ensures forall i :: 0 <= i < |us| ==> r[i] == ToProfile(us[i])
  {
    seq(|us|, i requires 0 <= i < |us| => ToProfile(us[i]))
  }

  /** The users of `us` other than the one with id `id`, in order. */
  function Others(us: seq<User>, id: string): (r: seq<User>)
    ensures forall u :: u in r <==> u in us && u.id != id
    ensures IsSubsequence(r, us)
  {
    FilterIsSubsequence(us, (u: User) => u.id != id);
    Filter(us, (u: User) => u.id != id)
  }

  /** The profiles of the users of `us` other than `id`: exactly those, in the order of `us`. */
  function OtherProfiles(us: seq<User>, id: string): (r: seq<UserProfile>)
    ensures forall p :: p in r ==> p.id != id
    ensures forall u :: u in us && u.id != id ==> ToProfile(u) in r
    ensures forall p :: p in r ==> exists u :: u in us && u.id != id && p == ToProfile(u)
    ensures IsSubsequence(r, Profiles(us))
    ensures |r| == |Others(us, id)|
  {
    var others := Others(us, id);
    ProfilesOfMembers(others);
    ProfilesOfSubsequence(others, us);
    Profiles(others)
  }

  /** The profiles of a list are those of its users. */
  lemma ProfilesOfMembers(a: seq<User>)
    ensures forall p :: p in Profiles(a) ==> exists u :: u in a && p == ToProfile(u)
    ensures forall u :: u in a ==> ToProfile(u) in Profiles(a)
  {
    var r := Profiles(a);
    forall p | p in r ensures exists u :: u in a && p == ToProfile(u) {
      var k :| 0 <= k < |r| && r[k] == p;
      assert a[k] in a;
    }
    forall u | u in a ensures ToProfile(u) in r {
      var k :| 0 <= k < |a| && a[k] == u;
      assert r[k] == ToProfile(u);
    }
  }

  /** Taking profiles keeps a subsequence a subsequence. */
  lemma {:induction false} ProfilesOfSubsequence(a: seq<User>, b: seq<User>)
    requires IsSubsequence(a, b)
    ensures IsSubsequence(Profiles(a), Profiles(b))
    decreases |b|
  {
    if |a| > 0 {
      assert Profiles(b)[1..] == Profiles(b[1..]);
      if a[0] == b[0] && IsSubsequence(a[1..], b[1..]) {
        ProfilesOfSubsequence(a[1..], b[1..]);
        assert Profiles(a)[1..] == Profiles(a[1..]);
      } else {
        ProfilesOfSubsequence(a, b[1..]);
      }
    }
  }

  /** `p` may come before `q` in the similar-skill list: both have a skill
      level, `p`'s is no higher, and equal levels are in name order. */
  predicate SkillThenNameLe(p: UserProfile, q: UserProfile)
  {
    && p.stats.skillLevel.Some? && q.stats.skillLevel.Some?
    && p.stats.skillLevel.value <= q.stats.skillLevel.value
    && (p.stats.skillLevel == q.stats.skillLevel ==> LexLe(Codes(p.name), Codes(q.name)))
  }

  /** Profiles ordered by skill, then by name. */
  predicate SkillThenNameOrdered(r: seq<UserProfile>)
  {
    forall i, j :: 0 <= i < j < |r| ==> SkillThenNameLe(r[i], r[j])
  }

  /** Profiles picked in order from users sorted by skill, then name, are
      sorted the same way. */
  lemma SkillOrderKept(r: seq<UserProfile>, hits: seq<User>)
    requires IsSubsequence(r, Profiles(hits))
    requires forall i, j :: (0 <= i < j < |hits|
                             ==> (hits[i].skillLevel.Some? && hits[j].skillLevel.Some?
                                  && hits[i].skillLevel.value <= hits[j].skillLevel.value))
    requires forall i, j :: (0 <= i < j < |hits| && hits[i].skillLevel == hits[j].skillLevel
                             ==> LexLe(Codes(hits[i].name), Codes(hits[j].name)))
    ensures SkillThenNameOrdered(r)
  {
    forall i, j | 0 <= i < j < |r|
      ensures SkillThenNameLe(r[i], r[j])
    {
      SkillPairKept(r, hits, i, j);
    }
  }

  /** One pair of picked profiles keeps the order of the users they come from. */
  lemma SkillPairKept(r: seq<UserProfile>, hits: seq<User>, i: int, j: int)
    requires IsSubsequence(r, Profiles(hits)) && 0 <= i < j < |r|
    requires forall i, j :: (0 <= i < j < |hits|
                             ==> (hits[i].skillLevel.Some? && hits[j].skillLevel.Some?
                                  && hits[i].skillLevel.value <= hits[j].skillLevel.value))
    requires forall i, j :: (0 <= i < j < |hits| && hits[i].skillLevel == hits[j].skillLevel
                             ==> LexLe(Codes(hits[i].name), Codes(hits[j].name)))
    ensures SkillThenNameLe(r[i], r[j])
  {
    SubsequenceKeepsOrder(r, Profiles(hits), i, j);
    var x, y :| 0 <= x < y < |hits| && r[i] == Profiles(hits)[x] && r[j] == Profiles(hits)[y];
    assert r[i].stats.skillLevel == hits[x].skillLevel && r[i].name == hits[x].name;
    assert r[j].stats.skillLevel == hits[y].skillLevel && r[j].name == hits[y].name;
  }

  /** The skill window around the reference user: `Math.Max(1, s - range)` to
      `Math.Min(10, s + range)`, each sum taken in 32-bit two's complement as
      C# `int` arithmetic does; nothing when the reference user is absent,
      inactive or has no skill level. */
  function SkillWindow(store: Table, id: string, range: int): (r: Option<(int, int)>)
    ensures r.None? <==> GetById(store, id).None? || GetById(store, id).value.skillLevel.None?
    ensures r.Some? ==> var s := GetById(store, id).value.skillLevel.value;
      var down := WrapInt32(s - range);
      var up := WrapInt32(s + range);
      && r.value.0 >= MinSkillLevel && r.value.0 >= down
      && (r.value.0 == MinSkillLevel || r.value.0 == down)
      && r.value.1 <= MaxSkillLevel && r.value.1 <= up
      && (r.value.1 == MaxSkillLevel || r.value.1 == up)
  {
    match GetById(store, id)
    case None => None
    case Some(u) =>
      match u.skillLevel
      case None => None
      case Some(s) =>
        var down := WrapInt32(s - range);
        var up := WrapInt32(s + range);
        Some((if down > MinSkillLevel then down else MinSkillLevel,
              if up < MaxSkillLevel then up else MaxSkillLevel))
  }

  /** While `s - range` and `s + range` fit in an `int`, the window is the
      plain clamp of `[s - range, s + range]` to 1..10. */
  lemma SkillWindowWithoutOverflow(store: Table, id: string, range: int)
    requires GetById(store, id).Some? && GetById(store, id).value.skillLevel.Some?
    requires var s := GetById(store, id).value.skillLevel.value;
      && -0x8000_0000 <= s - range < 0x8000_0000
      && -0x8000_0000 <= s + range < 0x8000_0000
    ensures var s := GetById(store, id).value.skillLevel.value;
      SkillWindow(store, id, range) == Some((Max(MinSkillLevel, s - range), Paging.Min(MaxSkillLevel, s + range)))
  {
    var s := GetById(store, id).value.skillLevel.value;
    WrapInt32InRange(s - range);
    WrapInt32InRange(s + range);
  }

  function Max(a: int, b: int): int
  {
    if a >= b then a else b
  }

  /** `GetUsersBySimilarSkillLevelAsync`: the skill-range query over the window,
      the reference user left out, order kept (skill, then name). */
  function SimilarSkill(store: Table, currentUserId: string, range: int): (r: seq<UserProfile>)
    ensures SkillWindow(store, currentUserId, range).None? ==> r == []
    ensures forall p :: p in r ==> p.id != currentUserId
    ensures SkillWindow(store, currentUserId, range).Some? ==>
      var (lo, hi) := SkillWindow(store, currentUserId, range).value;
      && (forall p :: p in r ==> p.stats.skillLevel.Some? && lo <= p.stats.skillLevel.value <= hi)
      && (forall u :: (u in store && u.isActive && u.id != currentUserId && SkillWithin(u, lo, hi)
                       ==> ToProfile(u) in r))
      && (forall p :: (p in r ==> exists u :: u in store && u.isActive && u.id != currentUserId
                                             && SkillWithin(u, lo, hi) && p == ToProfile(u)))
      && IsSubsequence(r, Profiles(GetBySkillLevelRange(store, lo, hi)))
    ensures SkillThenNameOrdered(r)
  {
    match SkillWindow(store, currentUserId, range)
    case None => []
    case Some((lo, hi)) =>
      var hits := GetBySkillLevelRange(store, lo, hi);
      var r := OtherProfiles(hits, currentUserId);
      SkillOrderKept(r, hits);
      r
  }

  /** A reference user at skill 9 with range 2 searches the clamped window 7..10. */
  lemma SkillNineRangeTwo(store: Table, id: string)
    requires GetById(store, id).Some? && GetById(store, id).value.skillLevel == Some(9)
    ensures SkillWindow(store, id, 2) == Some((7, 10))
  {
  }

  /** With skill 5 and the largest `int` range, `5 + range` wraps to a negative
      number: the window is inverted and nobody is similar. */
  lemma SimilarSkillLargestRange(store: Table, id: string)
    requires GetById(store, id).Some? && GetById(store, id).value.skillLevel == Some(5)
    ensures SkillWindow(store, id, 0x7FFF_FFFF) == Some((1, -2147483644))
    ensures SimilarSkill(store, id, 0x7FFF_FFFF) == []
  {
    assert WrapInt32(5 + 0x7FFF_FFFF) == -2147483644;
    assert WrapInt32(5 - 0x7FFF_FFFF) == -2147483642;
    var r := SimilarSkill(store, id, 0x7FFF_FFFF);
    assert GetBySkillLevelRange(store, 1, -2147483644) == [];
    assert IsSubsequence(r, Profiles([]));
  }

  /** `GetNearbyUsersAsync`: the location query without the caller, ordered by name. */
  function Nearby(store: Table, currentUserId: string, location: string): (r: seq<UserProfile>)
    ensures forall p :: p in r ==> p.id != currentUserId
    ensures forall u :: (u in store && u.isActive && LocatedIn(u, location) && u.id != currentUserId
                         ==> ToProfile(u) in r)
    ensures forall p :: (p in r ==> exists u :: u in store && u.isActive && LocatedIn(u, location)
                                               && u.id != currentUserId && p == ToProfile(u))
    ensures forall i, j :: 0 <= i < j < |r| ==> LexLe(Codes(r[i].name), Codes(r[j].name))
    ensures IsSubsequence(r, Profiles(GetByLocation(store, location)))
  {
    var hits := GetByLocation(store, location);
    var r := OtherProfiles(hits, currentUserId);
    NameOrderKept(r, hits);
    r
  }

  /** Profiles picked in order from users sorted by name are sorted by name. */
  lemma NameOrderKept(r: seq<UserProfile>, hits: seq<User>)
    requires IsSubsequence(r, Profiles(hits))
    requires forall i, j :: 0 <= i < j < |hits| ==> LexLe(Codes(hits[i].name), Codes(hits[j].name))
    ensures forall i, j :: 0 <= i < j < |r| ==> LexLe(Codes(r[i].name), Codes(r[j].name))
  {
    forall i, j | 0 <= i < j < |r| ensures LexLe(Codes(r[i].name), Codes(r[j].name)) {
      SubsequenceKeepsOrder(r, Profiles(hits), i, j);
    }
  }

  /** When the caller is not among the location query's users, nearby is that query as-is. */
  lemma NearbyWithoutCaller(store: Table, currentUserId: string, location: string)
    requires forall u :: u in GetByLocation(store, location) ==> u.id != currentUserId
    ensures Nearby(store, currentUserId, location) == Profiles(GetByLocation(store, location))
  {
    var hits := GetByLocation(store, location);
    assert Filter(hits, (u: User) => u.id != currentUserId) == hits by {
      assert forall i :: 0 <= i < |hits| ==> hits[i] in hits;
    }
  }

  // ---------------------------------------------------------------------------
  // Profiles
  // ---------------------------------------------------------------------------

  /** `GetUserProfileByIdAsync`. */
  function GetUserProfile(store: Table, id: string): (r: Option<UserProfile>)
    ensures r.None? <==> forall u :: u in store ==> !ActiveWithId(u, id)
    ensures r.Some? ==> exists u :: u in store && ActiveWithId(u, id) && r.value == ToProfile(u)
  {
    match GetById(store, id)
    case None => None
    case Some(u) => Some(ToProfile(u))
  }

  /** `UpdateUserProfileAsync`: apply the non-null members to the active user
      with this id and save it; an absent user leaves the table alone. */
  function UpdateProfile(store: Table, id: string, d: ProfileUpdate): (r: (Option<UserProfile>, Table))
    ensures r.0.None? <==> forall u :: u in store ==> !ActiveWithId(u, id)
    ensures r.0.None? ==> r.1 == store
    ensures r.0.Some? ==> exists i :: (0 <= i < |store| && ActiveWithId(store[i], id)
                                       && r.1 == store[i := ApplyUpdate(d, store[i])]
                                       && r.0.value == ToProfile(ApplyUpdate(d, store[i])))
    ensures ActiveEmailsUnique(store) ==> ActiveEmailsUnique(r.1)
  {
    match FirstHit(store, ById(id))
    case None => (None, store)
    case Some(i) =>
      var u := ApplyUpdate(d, store[i]);
      ReplaceAt(store, i, u);
      var t := Replace(store, u);
      assert forall j :: 0 <= j < |t| ==> t[j].email == store[j].email && t[j].isActive == store[j].isActive;
      (Some(ToProfile(u)), t)
  }

  /** `DeleteUserAsync`: the repository's soft delete. */
  function DeleteUser(store: Table, id: string): (r: (bool, Table))
    ensures r.0 <==> exists u :: u in store && ActiveWithId(u, id)
    ensures !r.0 ==> r.1 == store
    ensures r.0 ==> exists i :: (0 <= i < |store| && ActiveWithId(store[i], id)
                                 && r.1 == store[i := store[i].(isActive := false)])
  {
    Delete(store, id)
  }
}
