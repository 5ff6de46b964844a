# TennisBuddy user core in Dafny

A model of the user side of the TennisBuddy back end: the user repository, the
user service (search with paging, similar-skill and nearby partner lists,
profile read/update, soft delete), the auth service (login, registration,
current user, the seven-day JWT) and the object mappings between the user
entity and its views.

The users table is a sequence of `User` rows with unique ids (`Domain.Table`);
every operation is a pure function from the table (and its other inputs) to a
result and, for writes, the new table. Reads see only active rows; a delete
clears the active flag. The database orderings (`OrderBy`, `ThenBy`) are one
insertion sort over a lexicographic key. The clock, the GUID generator,
BCrypt's salt and the JWT library are parameters: `now`, `id`, `salt`, and a
`Crypto` value of functions whose library promises are the predicate
`AuthService.Sound`.

Modules, leaf first: `Text` (case folding, substring search, ordinal
comparison), `Seqs` (filter, subsequence), `Domain` (the user entity),
`Ordering`, `Paging`, `UserRepository`, `Mapping`, `UserService`,
`AuthService`.

The search's location test is case-insensitive substring containment, and its
result keeps the `GetAll` order: by creation time, null times last. A page is
the run of matches starting at the page's offset. `Paging.Page`, which the
search uses, takes that offset as an unbounded integer, so a page past the end
is empty. The source computes it as a 32-bit product that can wrap; that form
is `Paging.PageAsWritten` (see "## Findings"). The similar-skill window, by
contrast, is modelled with the source's 32-bit sums, wrap included.

The user entity has a single `Name` (TennisBuddy.Domain/Entities/User.cs:14),
the public view a single `FullName` (TennisBuddy.Application/DTOs/UserDto.cs:7)
and the registration request a `FullName`. The profile view instead has
`FirstName` and `LastName` (TennisBuddy.Application/DTOs/User/UserProfileDto.cs:6-7).
The source reads `FirstName`/`LastName` from the user or the profile and writes
them to the public view in four mapping lines
(TennisBuddy.Application/Mappings/MappingProfile.cs:15-16 and 49-50), in the
token's name claim (TennisBuddy.Application/Services/AuthService.cs:113) and in
the hand-written view (TennisBuddy.Application/Services/AuthService.cs:139-140).
Neither the user nor the public view has those members, so those lines do not
compile as written. The user-to-profile mapping names neither member, and
as written the object mapper would leave the profile's `FirstName` and
`LastName` empty. The model replaces the profile's two members with one `name`
and uses the single name throughout: the profile's `name`, the view's
`fullName` and the token's name claim. The registration mapping
(TennisBuddy.Application/Mappings/MappingProfile.cs:37-41) has no rule for the
request's `FullName`, which has no namesake on the user, so as written a new
account is stored with an empty `Name`. That is the second entry under
"## Findings": `Mapping.FromRegistrationAsWritten` is the mapping as written,
and the rest of the model uses the intended one, which stores `FullName` as the
name.

## Model

| member | source | states |
|---|---|---|
| UserRepository.GetById | TennisBuddy.Infrastructure/Repositories/UserRepository.cs:17-21 | The result is an active stored row with that id, it is the only row with that id, and it is absent exactly when no active row has that id. |
| UserRepository.GetByEmail | TennisBuddy.Infrastructure/Repositories/UserRepository.cs:23-27 | The result is an active row whose email equals the argument ignoring case, and it is absent exactly when none does. While active emails are unique it is the only such row. |
| UserRepository.Exists | TennisBuddy.Infrastructure/Repositories/UserRepository.cs:57-61 | It is true exactly when the email lookup finds a row. |
| UserRepository.Create | TennisBuddy.Infrastructure/Repositories/UserRepository.cs:29-34 | It appends the row and returns it. It fails exactly when the key is already taken. |
| UserRepository.Update | TennisBuddy.Infrastructure/Repositories/UserRepository.cs:36-41 | It replaces the one row with the same key in place and fails exactly when there is none. |
| UserRepository.Delete | TennisBuddy.Infrastructure/Repositories/UserRepository.cs:43-55 | It reports false exactly when the id lookup finds nothing, and then the table is unchanged. Otherwise exactly that row has its active flag cleared. |
| UserRepository.GetAll | TennisBuddy.Infrastructure/Repositories/UserRepository.cs:63-69 | The result is a permutation of the active rows, holds exactly the active rows, and is ordered by creation time. |
| UserRepository.GetByLocation | TennisBuddy.Infrastructure/Repositories/UserRepository.cs:71-77 | The result is a permutation of the active rows whose non-null location contains the text ignoring case, ordered by name. |
| UserRepository.GetBySkillLevel | TennisBuddy.Infrastructure/Repositories/UserRepository.cs:79-85 | The result is a permutation of the active rows with exactly that skill level, ordered by name. |
| UserRepository.GetBySkillLevelRange | TennisBuddy.Infrastructure/Repositories/UserRepository.cs:87-94 | The result is a permutation of the active rows with a non-null skill in the closed range. It is ordered by skill, with name breaking ties, and is empty for an inverted range. |
| UserRepository.DeleteHidesUser | TennisBuddy.Infrastructure/Repositories/UserRepository.cs:43-69 | After a successful delete, neither the id lookup nor the full listing returns that user. |
| UserRepository.DeleteTwice | TennisBuddy.Infrastructure/Repositories/UserRepository.cs:43-55 | A second delete of the same id reports false and leaves the table as the first left it. |
| UserRepository.DeleteKeepsEmailsUnique | TennisBuddy.Infrastructure/Repositories/UserRepository.cs:43-55 | A delete keeps at most one active user per email. |
| UserRepository.CreateThenFind | TennisBuddy.Infrastructure/Repositories/UserRepository.cs:17-34 | A created active user with a new key and an unused email is found by both its id and its email. |
| UserRepository.UpdateThenFind | TennisBuddy.Infrastructure/Repositories/UserRepository.cs:17-41 | After an update of an existing active row, the id lookup returns the new row. |
| Ordering.Sort | TennisBuddy.Infrastructure/Repositories/UserRepository.cs:91-92 | The sorted result is a permutation of the input and is in key order. |
| Text.ContainsIffOccurs | TennisBuddy.Application/Services/UserService.cs:51-53 | Substring containment holds exactly when the pattern occurs at some position. |
| Text.ContainsIgnoreCaseIsCaseBlind | TennisBuddy.Infrastructure/Repositories/UserRepository.cs:74 | Lower-casing either side does not change case-insensitive containment. |
| Mapping.ViewShowsPublicFields | TennisBuddy.Application/Services/AuthService.cs:133-148 | Two users have equal public views exactly when they agree on the nine public columns. |
| Mapping.ViewsHidePasswordHash | TennisBuddy.Application/DTOs/UserDto.cs:3-14 | Neither the public view nor the profile depends on the password hash. |
| Mapping.RoundTrip | TennisBuddy.Application/Mappings/MappingProfile.cs:19-54 | User to profile to view keeps id, email, name, contact and skill. A null play-time list becomes empty and a null creation time becomes the minimum date. |
| Mapping.RoundTripExact | TennisBuddy.Application/Mappings/MappingProfile.cs:19-54 | The round trip equals the direct view exactly when neither the play-time list nor the creation time is null. |
| Mapping.MapperViewAgrees | TennisBuddy.Application/Mappings/MappingProfile.cs:14-17 | The object mapper's view equals the hand-written view exactly when the play-time list is non-null; otherwise it differs only in showing an empty list. |
| Mapping.MapperViewMatchesSearch | TennisBuddy.Application/Mappings/MappingProfile.cs:14-54 | The object mapper's view equals the search view exactly when the creation time is non-null. |
| Mapping.RegistrationIgnoresPassword | TennisBuddy.Application/Mappings/MappingProfile.cs:36-41 | The registration mapping gives the new id, creation time now, active, and an empty hash whatever the password. |
| Mapping.RegistrationAsWrittenDropsName | TennisBuddy.Application/Mappings/MappingProfile.cs:37-41 | As written, registration stores an empty name and the registered view shows none. It differs from the intended mapping only in the name, and does so exactly when the full name is non-empty. |
| Mapping.AnnLeeRegistersNameless | TennisBuddy.Application/Mappings/MappingProfile.cs:37-41 | The request with full name "Ann Lee" maps to a user named "" as written and "Ann Lee" as intended. |
| Mapping.ApplyUpdate | TennisBuddy.Application/Mappings/MappingProfile.cs:43-45 | A non-null update member overwrites its column and a null one leaves it. The id, email, hash, active flag and timestamps never change. |
| Mapping.EmptyUpdateIsIdentity | TennisBuddy.Application/Mappings/MappingProfile.cs:43-45 | An all-null update changes nothing. |
| Mapping.UpdateIdempotent | TennisBuddy.Application/Mappings/MappingProfile.cs:43-45 | Applying an update twice is the same as applying it once. |
| Mapping.UpdatesCompose | TennisBuddy.Application/Mappings/MappingProfile.cs:43-45 | Two updates in a row equal one merged update in which the later non-null members win. |
| Paging.CeilDiv | TennisBuddy.Application/Services/UserService.cs:76 | The page count is zero exactly for no items. The last page starts before the end and the page after it starts at or past the end. |
| Paging.CeilDivIsCeiling | TennisBuddy.Application/Services/UserService.cs:76 | Stated with products: the page count is the least number of pages whose total size covers all items. |
| Paging.OffsetIsProduct | TennisBuddy.Application/Services/UserService.cs:79 | Page `p` starts at `(p - 1) * size`. |
| Paging.Page | TennisBuddy.Application/Services/UserService.cs:78-81 | A page holds at most `size` items: the contiguous run starting at its offset. It is empty when the offset is past the end, and otherwise has min(size, remaining) items. |
| Paging.PageEmptyIffPastEnd | TennisBuddy.Application/Services/UserService.cs:75-81 | A page is empty exactly when its number exceeds the page count. |
| Paging.FirstPagesArePrefix | TennisBuddy.Application/Services/UserService.cs:78-81 | Pages 1..k laid end to end are the items before page k + 1 starts. |
| Paging.PagesCoverAll | TennisBuddy.Application/Services/UserService.cs:75-81 | Pages 1 through the page count, laid end to end, are the whole list, each item once and in order. |
| Paging.WrapInt32 | TennisBuddy.Application/Services/UserService.cs:79 | The result is a 32-bit signed value congruent to the input modulo 2^32. |
| Paging.PageAsWrittenAgrees | TennisBuddy.Application/Services/UserService.cs:78-81 | While the 32-bit offset does not overflow, the page as written is the intended page. |
| Paging.PageAsWrittenOverflows | TennisBuddy.Application/Services/UserService.cs:78-81 | A valid page number far past the end wraps the offset negative, and the page comes back full instead of empty. |
| UserService.NarrowingsMeanCriteria | TennisBuddy.Application/Services/UserService.cs:49-73 | The switched-on `Where` clauses together admit exactly the users that meet every present criterion. |
| UserService.Narrow | TennisBuddy.Application/Services/UserService.cs:47-73 | Applying the clauses one after another filters by all of them at once. |
| UserService.SearchMatches | TennisBuddy.Application/Services/UserService.cs:44-73 | The matches are the `GetAll` order filtered by the criteria. A user is among them exactly when it is stored, active and meets the criteria. |
| UserService.PageViews | TennisBuddy.Application/Services/UserService.cs:78-84 | Each shown view is the view of the match at the same position of the page. The length and emptiness follow the page count. |
| UserService.Paginate | TennisBuddy.Application/Services/UserService.cs:75-95 | The response counts all matches and shows the requested page. It echoes the request, and its page count and next/previous flags agree with it. |
| UserService.Search | TennisBuddy.Application/Services/UserService.cs:42-96 | The result describes the requested page of exactly the active users that meet the criteria. |
| UserService.SearchShowsPage | TennisBuddy.Application/Services/UserService.cs:78-84 | The users shown are the views of one page of the matches. |
| UserService.SearchWithoutCriteria | TennisBuddy.Application/Services/UserService.cs:44-73 | With no criteria the matches are all active users in `GetAll` order. |
| UserService.NoSkillFailsSkillBounds | TennisBuddy.Application/Services/UserService.cs:56-66 | A user with no skill level fails any skill bound. |
| UserService.InvertedRangeMatchesNobody | TennisBuddy.Application/Services/UserService.cs:56-66 | A minimum above the maximum is not an error: zero matches, zero pages, no users. |
| UserService.ThirdPageOfTwentyFive | TennisBuddy.Application/Services/UserService.cs:75-95 | With 25 matches at 10 per page, the response for page 3 shows 5 users out of 3 pages, with no next page and a previous one. |
| UserService.SearchPageK | TennisBuddy.Application/Services/UserService.cs:78-84 | Asking for page k shows page k of the same matches. |
| UserService.AllPagesShowAllMatches | TennisBuddy.Application/Services/UserService.cs:75-95 | Every page number sees one and the same match list. Pages 1 through the page count show every match exactly once, in order. |
| UserService.OtherProfiles | TennisBuddy.Application/Services/UserService.cs:106-107 | The result holds the profile of every user other than the given id, each as many times as it occurs among the users and none with that id, in their order. |
| UserService.SkillWindow | TennisBuddy.Application/Services/UserService.cs:112-119 | There is no window when the reference user is absent, inactive or has no skill. Otherwise the bounds are `s - range` and `s + range`, each wrapped to a 32-bit `int`, then clamped below by 1 and above by 10. |
| UserService.SkillWindowWithoutOverflow | TennisBuddy.Application/Services/UserService.cs:118-119 | While `s - range` and `s + range` fit in an `int`, the window is `max(1, s - range)` to `min(10, s + range)`. |
| UserService.SkillOrderKept | TennisBuddy.Application/Services/UserService.cs:121-123 | Profiles picked in order from users sorted by skill, then name, are sorted the same way. |
| UserService.SimilarSkill | TennisBuddy.Application/Services/UserService.cs:110-124 | Without a window the list is empty. Otherwise it holds exactly the profiles of the active users other than the caller with a skill in the window, each once and in the order of the skill-range query: by skill, then by name. |
| UserService.SkillNineRangeTwo | TennisBuddy.Application/Services/UserService.cs:118-119 | Skill 9 with range 2 gives the window 7..10. |
| UserService.SimilarSkillLargestRange | TennisBuddy.Application/Services/UserService.cs:118-123 | For skill 5 and range 2147483647, `5 + range` wraps to -2147483644; the window 1..-2147483644 is inverted and nobody is similar. |
| UserService.Nearby | TennisBuddy.Application/Services/UserService.cs:103-108 | The list holds exactly the profiles of the active users other than the caller whose location contains the text, each once and in the order of the location query: by name. |
| UserService.NameOrderKept | TennisBuddy.Application/Services/UserService.cs:105-107 | Profiles picked in order from users sorted by name are sorted by name. |
| UserService.NearbyWithoutCaller | TennisBuddy.Application/Services/UserService.cs:103-108 | When the caller is not among the location hits, the list is exactly their profiles. |
| UserService.GetUserProfile | TennisBuddy.Application/Services/UserService.cs:21-25 | The profile is absent exactly when no active user has the id, and is otherwise that user's profile. |
| UserService.UpdateProfile | TennisBuddy.Application/Services/UserService.cs:27-40 | For a missing user, nothing is saved and there is no result. Otherwise that row alone is replaced by the partial update and its profile is returned. Email uniqueness is kept. |
| UserService.DeleteUser | TennisBuddy.Application/Services/UserService.cs:98-101 | It reports true exactly when an active user had the id, and that row alone is deactivated. |
| AuthService.HashThenVerify | TennisBuddy.Application/Services/AuthService.cs:123-131 | Assuming BCrypt keeps its promise (`Sound`), a password verifies against any salted hash of it. This states the assumption; it does not prove it. |
| AuthService.GenerateJwtToken | TennisBuddy.Application/Services/AuthService.cs:102-121 | The token reads back as the user's id, email and name, valid from now until now plus seven days, and signed with the secret. |
| AuthService.ValidateToken | TennisBuddy.Application/Services/AuthService.cs:72-94 | Acceptance needs a non-empty secret, readable text, a matching signature and now within the lifetime with no skew. Every failure is false. |
| AuthService.TokenValidForSevenDays | TennisBuddy.Application/Services/AuthService.cs:72-121 | An issued token validates exactly from its issue time to seven days later. |
| AuthService.TamperedClaimsRejected | TennisBuddy.Application/Services/AuthService.cs:72-94 | Assuming the signature tells the shown claims from the signed ones, a token whose claims were changed after signing is rejected. |
| AuthService.RecordLogin | TennisBuddy.Application/Services/AuthService.cs:43-45 | Only the user's row changes, and only its last-login time. |
| AuthService.Login | TennisBuddy.Application/Services/AuthService.cs:29-55 | A failure saves nothing. A success updates one active matching row whose password verifies and returns its view with its token. With unique active emails, success happens exactly when such a user exists, and uniqueness is kept. |
| AuthService.LoginFailsUniformly | TennisBuddy.Application/Services/AuthService.cs:29-41 | An unknown email and a wrong password give the same answer: no response, nothing saved. |
| AuthService.LoginTokenNamesUser | TennisBuddy.Application/Services/AuthService.cs:29-55 | A login's token carries the id and email of the user returned, that email matches the one given, and the token validates for the next seven days. |
| AuthService.NewAccount | TennisBuddy.Application/Services/AuthService.cs:65-66 | The new row has the request's email, the new id, now as creation time, is active, and holds a hash the password verifies against. Its name is the request's full name, as intended; the source as written leaves it empty (see "## Findings"). |
| AuthService.Register | TennisBuddy.Application/Services/AuthService.cs:57-70 | Registration fails exactly when an active user holds the email, and then nothing is saved. Otherwise the new row is appended and the object mapper's view of it returned, with the new id and an empty play-time list. Email uniqueness is kept. |
| AuthService.RegisterThenLogin | TennisBuddy.Application/Services/AuthService.cs:29-70 | Right after registering, logging in with the same email and password succeeds and returns the new account. |
| AuthService.GetCurrentUser | TennisBuddy.Application/Services/AuthService.cs:96-100 | It is absent exactly when no active user has the id, and otherwise is that user's public view. |
| AuthService.DeletedIsNotCurrent | TennisBuddy.Application/Services/AuthService.cs:96-100 | A deactivated account is no longer the current user. |

## Left out

- I/O and persistence: Entity Framework, `SaveChangesAsync`, `async`/`await`, the controllers and the startup code are not modelled. A write is the new table, returned whole.
- Concurrency: two requests racing on the same row, or on two registrations of one email, are not modelled. The store is one value.
- The database's own unique index on email is not modelled. `ActiveEmailsUnique` is an invariant the operations are proved to keep, not one the store enforces.
- Culture-sensitive casing: `ToLower` and `OrdinalIgnoreCase` are modelled as ASCII case folding. Name ordering is by code point, standing in for the database collation.
- BCrypt is the `hash`/`verify` pair of `Crypto`. Its cost factor, salt format and timing behaviour are not modelled. The salt is a parameter.
- JWT: the HMAC-SHA256 signature and the base64url encoding of the token library are the `sign`/`encode`/`decode` functions of `Crypto`. Claim times are whole seconds, and the library's own issued-at claim is left out.
- AuthService.Login: the token library's minimum signing-key length is not modelled. With a non-empty secret shorter than that minimum, token creation throws (TennisBuddy.Application/Services/AuthService.cs:119) after the new last-login time has already been saved (AuthService.cs:44-45). The model instead returns a token.
- AuthService.ValidateToken: with a non-empty secret shorter than the library's minimum key length, validation throws and the catch returns false (AuthService.cs:90-93). The model rejects only the empty secret.
- UserService.Search: the page is taken at the unbounded offset `(pageNumber - 1) * pageSize`, not at the source's 32-bit product. Where that product overflows an `int`, the model returns the empty page that was evidently intended. `Paging.PageAsWritten` is the form as written (see "## Findings").
- Time and identity sources: `DateTime.UtcNow` is the parameter `now` and `Guid.NewGuid()` is the parameter `id`.
- AuthService.Register: a GUID collision on the new id (a database error) is excluded by requiring a fresh id.
- AuthService.Login: requires a non-empty signing secret, because startup throws when it is missing (TennisBuddy.Api/Program.cs:34-37).
- Login's check of the active flag after the email lookup cannot fail, since the lookup already filters on it. It is modelled as written, and `LoginFailsUniformly` therefore has no inactive-account case.
- Request validation attributes (page size at most 100, skill bounds 1..10, string lengths, the email format, the minimum password length) are enforced by the web layer, not the services. The services do not assume them. Search only requires a positive page size and page number, which its division and offset need.
- The page count is computed in the source with a `double` division and `Math.Ceiling`. It is modelled as exact integer ceiling division, which agrees for every count an `int` can hold.
- `radiusKm` of the nearby query is accepted and ignored by the source, so it is not a parameter.
- Profile and view members that no mapping fills (bio, date of birth, match statistics, win rate, court preferences, online status) are not modelled. They stay at their defaults.
- `HashPassword`, `VerifyPassword` and the `ToUserDto` and `MapperView` views carry no contract of their own. Their properties are stated by `HashThenVerify`, `ViewShowsPublicFields`, `MapperViewAgrees` and `MapperViewMatchesSearch`.
- The split `FirstName`/`LastName` of the profile view, and the lines that read or write those members on the user and the public view, are not modelled. The single name is used instead, as described above. The model does not show the empty profile names the mapper would produce as written.

## Findings

| source | as written | input that shows it | evidently intended | confidence | as-written member | corrected member |
|---|---|---|---|---|---|---|
| TennisBuddy.Application/Services/UserService.cs:78-81 | The offset `(PageNumber - 1) * PageSize` is a 32-bit `int` product, and `Skip` of a negative count skips nothing. | Five matches, page size 100, page number 21474838: the product 2147483700 wraps to -2147483596, so the page returns all five users while the page count is 1. | A page past the last one is empty. | not executed | Paging.PageAsWrittenOverflows | Paging.PageEmptyIffPastEnd |
| TennisBuddy.Application/Mappings/MappingProfile.cs:37-41 | The registration mapping has no rule for `FullName`, which has no namesake on the user, so `Name` keeps its default `""`, although the request requires a full name of at least two characters. | Registering email "a@x.io", full name "Ann Lee", password "secret1" stores a user named "" and returns a view whose full name is "". | The new account is named by the request's full name. | not executed | Mapping.RegistrationAsWrittenDropsName | AuthService.NewAccount |
