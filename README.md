# dvd-store-api: a verified model of the dvd cache and user registration

This project models the core of dvd-store-api, a Spring service for a DVD store.

- **Dvd catalogue.** `DvdService` answers dvd requests cache-aside. The Redis hash `"dvds"` maps an id string to a dvd. The `dvd` table sits behind `DvdRepository`.
- **Dvd titles.** A new dvd's title is sanitised first: trimmed, stripped of disallowed chars, and each whitespace run collapsed to one space. A blank or already-taken title is refused.
- **Users.** `UserService` validates a new user: name length and letters, email length, and passay's password rules. Registration refuses an email that is already taken and otherwise inserts into the `app_user` table behind `UserRepository`.
- **Enum parsing.** Two Jackson deserializers read a dvd genre and a user role from free-form JSON text.
- **Request validation.** Bean Validation constraints on the three request bodies decide what reaches the services.

Modules follow the program:

- **Shared.**
  - `Common`: option, result and failure wrappers.
  - `JavaStrings`: `trim`, `isBlank`, `\s`, ASCII case mapping, `replaceAll("\\s+", …)` and UTF-16 `length()`.
  - `SqlLike`: PostgreSQL `ILIKE`: what a pattern means, and the matcher the database runs to decide it, including where that matcher fails.
  - `Uuids`: `UUID.toString()` and `CAST(? AS uuid)`.
  - `Entities`: Dvd, User, the genre and role enums.
- **Requests.** `Requests` holds the three request bodies and their constraints.
- **Deserializers.** `GenreDeserializer` and `RoleDeserializer`.
- **Dvds.**
  - `DvdStore`: class `DvdRepository`, a map from id to row.
  - `DvdCaching`: class `DvdService`, with the table plus a `map<string, Dvd>` cache, and `SanitizeTitle`.
- **Users.**
  - `UserStore`: class `UserRepository`, a map from the serial id to the row, plus the id sequence.
  - `UserRegistration`: the validators and class `UserService`.

The central invariant is `DvdCaching.Coherent`. Every cache entry sits under the canonical string of an id (what `UUID.toString()` writes) and equals the table's row for that id. Every corrected `DvdService` method keeps it, and with it a read always answers what the table holds; the as-written update and delete do not.

## Model

| member | source | states |
|---|---|---|
| Requests.CreateViolations | src/main/java/gr/aegean/model/dto/dvd/DvdCreateRequest.java:9-17 | each of the four constraints is reported exactly when violated (blank or null title, null genre, null quantity, present quantity ≤ 0), and nothing else is reported |
| Requests.ValidCreateRequest | src/main/java/gr/aegean/model/dto/dvd/DvdCreateRequest.java:9-17 | a body without violations has all three fields, a title that trim() does not empty, and a positive quantity |
| Requests.NullQuantityIsOnlyMissing | src/main/java/gr/aegean/model/dto/dvd/DvdCreateRequest.java:14-16 | a null quantity is reported as missing only: @Positive lets null through |
| Requests.NonPositiveQuantityRejected | src/main/java/gr/aegean/model/dto/dvd/DvdCreateRequest.java:15-16 | a quantity of 0 or less, with title and genre valid, violates @Positive and nothing else |
| Requests.UpdateViolations | src/main/java/gr/aegean/model/dto/dvd/DvdUpdateRequest.java:7-11 | a patch is valid exactly when its quantity is absent or positive; the genre is unconstrained |
| Requests.EmptyPatchPassesValidation | src/main/java/gr/aegean/model/dto/dvd/DvdUpdateRequest.java:7-11 | a patch with neither field passes validation, so only the service can refuse it |
| Requests.RegisterViolations | src/main/java/gr/aegean/model/dto/auth/RegisterRequest.java:9-19 | each of the five constraints is reported exactly when violated, and nothing else is reported |
| Requests.ValidRegisterRequest | src/main/java/gr/aegean/model/dto/auth/RegisterRequest.java:9-19 | a body without violations has every field, and no string that trim() empties |
| JavaStrings.Trim | src/main/java/gr/aegean/service/DvdService.java:121 | trim() keeps no char ≤ U+0020 at either end, and is empty exactly when every char is ≤ U+0020 |
| JavaStrings.TrimIgnoresPadding | src/main/java/gr/aegean/deserializer/DvdGenreDeserializer.java:22 | padding of chars ≤ U+0020 on both sides does not change the result of trim() |
| JavaStrings.UpperDecidesCase | src/main/java/gr/aegean/deserializer/DvdGenreDeserializer.java:24 | two strings agree up to letter case exactly when their upper-case forms are equal |
| JavaStrings.TrimUpperCommute | src/main/java/gr/aegean/deserializer/UserRoleDeserializer.java:20-23 | trimming and upper-casing can be done in either order |
| JavaStrings.CollapsedSpacesAreSingle | src/main/java/gr/aegean/service/DvdService.java:123 | after each `\s` run becomes one space, no two spaces are adjacent |
| JavaStrings.ReplaceSpaceRunsKeeps | src/main/java/gr/aegean/service/DvdService.java:123 | a char property held by every non-`\s` char and by the replacement holds for every char of the result |
| JavaStrings.ReplaceSpaceRunsNoSpace | src/main/java/gr/aegean/service/DvdService.java:123 | a string without `\s` chars is left unchanged |
| JavaStrings.ReplaceOneRun | src/main/java/gr/aegean/deserializer/DvdGenreDeserializer.java:23 | a `\s` run between two words without `\s` becomes exactly one copy of the replacement |
| JavaStrings.Utf16Length | src/main/java/gr/aegean/service/UserService.java:44 | length() lies between the char count and twice it, and equals the char count when every char is in the BMP |
| JavaStrings.Utf16LengthChar | src/main/java/gr/aegean/service/UserService.java:44 | one char counts 2 when it lies outside the BMP and 1 otherwise |
| JavaStrings.Utf16LengthConcat | src/main/java/gr/aegean/service/UserService.java:44 | length() of a concatenation is the sum of the lengths of its parts |
| SqlLike.PatternOkUnlessEndsWithEscape | src/main/java/gr/aegean/repository/UserRepository.java:71 | every pattern that does not end with a backslash is well formed |
| SqlLike.TrailingEscapeIllFormed | src/main/java/gr/aegean/repository/UserRepository.java:71 | a pattern made of plain text and one trailing backslash is not well formed |
| SqlLike.MatchTextAgrees | src/main/java/gr/aegean/repository/UserRepository.java:71 | on a well-formed pattern the database's matcher never fails and answers a match exactly when ILike holds |
| SqlLike.IllFormedNeverMatches | src/main/java/gr/aegean/repository/UserRepository.java:71 | on a pattern with a lone trailing backslash the database's matcher never answers a match |
| SqlLike.ErrorExcludesMatch | src/main/java/gr/aegean/repository/UserRepository.java:67-74 | a pattern on which the matcher fails for one text matches no text, so the EXISTS scan answers the same in any row order |
| SqlLike.TrailingEscapeError | src/main/java/gr/aegean/repository/UserRepository.java:71 | plain text `a` and one backslash: the matcher fails exactly when the text starts with `a` up to case and goes on after it, and never answers a match |
| SqlLike.PlainMatchIsEqualsIgnoreCase | src/main/java/gr/aegean/repository/UserRepository.java:67-71 | for a pattern without `%`, `_` or backslash, ILIKE holds exactly when the text equals the pattern up to case |
| SqlLike.ContainsPattern | src/main/java/gr/aegean/repository/DvdRepository.java:77-78 | `%q%` with plain q matches exactly the texts that contain q up to case |
| SqlLike.LeadingPercent | src/main/java/gr/aegean/repository/DvdRepository.java:78 | a leading `%` matches exactly when some suffix of the text matches the rest of the pattern |
| SqlLike.TrailingPercent | src/main/java/gr/aegean/repository/DvdRepository.java:78 | plain q followed by `%` matches exactly the texts that begin with q up to case |
| SqlLike.PercentMatchesAll | src/main/java/gr/aegean/repository/DvdRepository.java:78 | `%` alone matches every text |
| SqlLike.UnderscorePercent | src/main/java/gr/aegean/repository/DvdRepository.java:78 | `_%` matches exactly the non-empty texts |
| SqlLike.UnderscoreMatchesAnyText | src/main/java/gr/aegean/repository/DvdRepository.java:77-78 | `%_%` matches exactly the non-empty texts |
| SqlLike.PlainPrefix | src/main/java/gr/aegean/repository/UserRepository.java:71 | a shared plain prefix of text and pattern does not change whether they match |
| SqlLike.UnderscoreMatchesOneChar | src/main/java/gr/aegean/repository/UserRepository.java:71 | an `_` in an otherwise plain pattern matches any one char |
| Uuids.ParseIdString | src/main/java/gr/aegean/repository/DvdRepository.java:62 | the database reads back the string UUID.toString() writes as the same id, and that string is canonical |
| Uuids.IdStringInjective | src/main/java/gr/aegean/service/DvdService.java:49 | distinct ids have distinct cache keys |
| Uuids.UpperCaseSpellingNamesSameId | src/main/java/gr/aegean/repository/DvdRepository.java:62 | the upper-case spelling of an id names the same row in the database, yet is a different string from the canonical one |
| DvdStore.Lookup | src/main/java/gr/aegean/repository/DvdRepository.java:61-71 | a string that is not a uuid is an error; otherwise the answer is the row with that id, or empty |
| DvdStore.SearchPattern | src/main/java/gr/aegean/repository/DvdRepository.java:78 | the bound search pattern never makes the database refuse the query |
| DvdStore.SearchNeverFails | src/main/java/gr/aegean/repository/DvdRepository.java:76-81 | the title query never makes the database fail, and its matcher keeps exactly the titles ILike keeps |
| DvdStore.TitleSearch | src/main/java/gr/aegean/repository/DvdRepository.java:76-81 | exactly the rows whose title matches `%title%` under ILIKE |
| DvdStore.PlainTitleSearch | src/main/java/gr/aegean/repository/DvdRepository.java:73-81 | for a query without wildcards or backslash, a row is found exactly when its title contains the query up to case |
| DvdStore.UnderscoreTitleSearch | src/main/java/gr/aegean/repository/DvdRepository.java:77-78 | the query "_" finds every row whose title is not empty |
| DvdStore.UpdateKeepsIdsAndTitles | src/main/java/gr/aegean/repository/DvdRepository.java:89-93 | an update keeps every key, id and title, keeps rows under their ids, and touches no row but the named one |
| DvdStore.UpdateSetsGenreAndQuantity | src/main/java/gr/aegean/repository/DvdRepository.java:89-93 | the named row gets exactly the new genre and quantity |
| DvdStore.DvdRepository.CreateDvd | src/main/java/gr/aegean/repository/DvdRepository.java:28-51 | the row is stored under the generated id with title, genre and quantity unchanged, and that id is set on the returned dvd; an id already in use is the database's error and changes nothing |
| DvdStore.DvdRepository.FindDvdById | src/main/java/gr/aegean/repository/DvdRepository.java:61-71 | answers Lookup on the current table; an unknown id is an empty result, not an error |
| DvdStore.DvdRepository.FindDvdsByTitle | src/main/java/gr/aegean/repository/DvdRepository.java:76-81 | the rows TitleSearch selects |
| DvdStore.DvdRepository.FindAllDvds | src/main/java/gr/aegean/repository/DvdRepository.java:83-87 | every row of the table |
| DvdStore.DvdRepository.UpdateDvd | src/main/java/gr/aegean/repository/DvdRepository.java:89-93 | the table becomes UpdatedRows: genre and quantity of the named row, a silent no-op for an absent id, rows stay keyed by id |
| DvdStore.DvdRepository.DeleteDvd | src/main/java/gr/aegean/repository/DvdRepository.java:95-102 | removes the row with the id; a string that is not a uuid is an error, an unknown id is "Dvd was not found with id: " and the id, and both leave the table as it was |
| DvdStore.DvdRepository.ExistsDvdWithTitle | src/main/java/gr/aegean/repository/DvdRepository.java:104-108 | true exactly when some row has this title, letter case included |
| DvdStore.DvdRepository.DeleteAllDvds | src/main/java/gr/aegean/repository/DvdRepository.java:110-114 | the table is empty |
| DvdCaching.RemoveDisallowed | src/main/java/gr/aegean/service/DvdService.java:122 | the result holds only chars of `[a-zA-Z0-9\s+.':-]`, keeps a string of such chars whole, and empties a string with none |
| DvdCaching.RemoveDisallowedChar | src/main/java/gr/aegean/service/DvdService.java:122 | one char is kept exactly when it is in the allowed class |
| DvdCaching.RemoveDisallowedConcat | src/main/java/gr/aegean/service/DvdService.java:122 | the result for a concatenation is the results for its parts, in order, so the allowed chars of a mixed string survive in their order |
| DvdCaching.SanitizedTitleChars | src/main/java/gr/aegean/service/DvdService.java:120-126 | a sanitised title holds only allowed chars, with the space as its only whitespace, and never two spaces side by side |
| DvdCaching.BlankSanitizedTitle | src/main/java/gr/aegean/service/DvdService.java:104-111 | a sanitised title is blank exactly when it is "" or a single space |
| DvdCaching.UnrecognisableTitleIsEmpty | src/main/java/gr/aegean/service/DvdService.java:113-126 | a title made only of disallowed chars, such as "!#$&$@", sanitises to "" |
| DvdCaching.SpacingBetweenWords | src/main/java/gr/aegean/service/DvdService.java:113-126 | any `\s` run between two clean words becomes one space, so "Harry  Potter" and "Harry Potter" are the same title |
| DvdCaching.EdgeSpaceSurvives | src/main/java/gr/aegean/service/DvdService.java:120-123 | trim() runs before the filter, so "! Matrix" sanitises to " Matrix" |
| DvdCaching.CleanWordUnchanged | src/main/java/gr/aegean/service/DvdService.java:120-126 | a single word of allowed chars is its own sanitised form |
| DvdCaching.CacheHitAgreesWithTable | src/main/java/gr/aegean/service/DvdService.java:73-77 | with a coherent cache, a hit is what the table holds for that id |
| DvdCaching.CoherentAfterPut | src/main/java/gr/aegean/service/DvdService.java:49 | writing a row to the table and caching it under its canonical key keeps the cache coherent |
| DvdCaching.CoherentAfterDelete | src/main/java/gr/aegean/service/DvdService.java:99-102 | deleting a row and its canonical cache entry keeps the cache coherent |
| DvdCaching.CreateResult | src/main/java/gr/aegean/service/DvdService.java:35-52 | "No title was provided" exactly when the sanitised title is blank; "Dvd already exists" exactly when it is not blank and taken; success exactly when it is new (and the generated id is free), with the sanitised title, the request's genre and quantity, and the generated id |
| DvdCaching.CreatedTitleIsNew | src/main/java/gr/aegean/service/DvdService.java:44-46 | a created dvd's title differs from every existing row's title |
| DvdCaching.ApplyPatch | src/main/java/gr/aegean/service/DvdService.java:144-160 | each field the patch carries replaces the dvd's, an absent one keeps it; id and title never change |
| DvdCaching.ApplyPatchIdempotent | src/main/java/gr/aegean/service/DvdService.java:144-160 | applying a patch twice is applying it once |
| DvdCaching.UpdateStoresPatchedRow | src/main/java/gr/aegean/service/DvdService.java:144-154 | the repository's update of a patched row stores exactly the patched row under its id |
| DvdCaching.UpdateResult | src/main/java/gr/aegean/service/DvdService.java:54-66 | an empty patch is "Either quantity or genre must be provided"; otherwise an id that is not a uuid is the database's error, an unknown id is "Dvd was not found with id: " and the id, and success holds exactly when the table has the id, with that row patched as the result |
| DvdCaching.TableRead | src/main/java/gr/aegean/service/DvdService.java:79-80 | the row with the id when there is one; an unknown id is "Dvd was not found with id: " and the id |
| DvdCaching.DvdService.CreateDvd | src/main/java/gr/aegean/service/DvdService.java:35-52 | answers CreateResult; on success the row is in the table and in the cache under its id's canonical string; on failure table and cache are as they were; coherence is kept |
| DvdCaching.DvdService.UpdateDvd | src/main/java/gr/aegean/service/DvdService.java:54-66 | answers UpdateResult; on success the patched row is in the table and cached under the canonical key; on failure nothing changes; coherence is kept |
| DvdCaching.DvdService.UpdateDvdAsWritten | src/main/java/gr/aegean/service/DvdService.java:54-66 | as UpdateDvd, but the patched row is cached under the caller's string |
| DvdCaching.DvdService.FindDvdById | src/main/java/gr/aegean/service/DvdService.java:73-85 | a hit returns the cached dvd without reading the table; a miss answers TableRead and caches a found row under its canonical key; an error leaves the cache alone; with a coherent cache the answer is always the table's |
| DvdCaching.DvdService.FindDvds | src/main/java/gr/aegean/service/DvdService.java:91-97 | a title that is present and not blank gives TitleSearch, anything else gives every row; the cache is not touched |
| DvdCaching.DvdService.DeleteDvd | src/main/java/gr/aegean/service/DvdService.java:99-102 | succeeds exactly when the table has the id, then removes the row and its canonical cache entry; an unknown id is the not-found error and a failure changes neither map; coherence is kept |
| DvdCaching.DvdService.DeleteDvdAsWritten | src/main/java/gr/aegean/service/DvdService.java:99-102 | as DeleteDvd, but the cache entry removed is the one under the caller's string |
| DvdCaching.StaleReadAfterUpperCaseUpdate | src/main/java/gr/aegean/service/DvdService.java:63 | after an update through the upper-case spelling of an id, a read through the canonical string serves quantity 1 while the table holds 2 |
| DvdCaching.DeletedDvdStillServed | src/main/java/gr/aegean/service/DvdService.java:101 | after a delete through the upper-case spelling of an id, a read through the canonical string still serves the deleted dvd |
| GenreDeserializer.ValueOf | src/main/java/gr/aegean/deserializer/DvdGenreDeserializer.java:27 | the genre whose name is exactly the text, and none when no genre has that name |
| GenreDeserializer.Deserialize | src/main/java/gr/aegean/deserializer/DvdGenreDeserializer.java:19-31 | succeeds exactly when the normalised text is a genre's name and returns that genre; otherwise fails with "Invalid dvd genre: " and the normalised text |
| GenreDeserializer.RoundTrip | src/main/java/gr/aegean/deserializer/DvdGenreDeserializer.java:20-27 | every genre's name reads back as that genre |
| GenreDeserializer.NormalizeName | src/main/java/gr/aegean/deserializer/DvdGenreDeserializer.java:20-24 | text of upper-case letters and underscores is its own normal form |
| GenreDeserializer.UpperReplaceCommute | src/main/java/gr/aegean/deserializer/DvdGenreDeserializer.java:23-24 | upper-casing and replacing `\s` runs can be done in either order |
| GenreDeserializer.NormalizeUpper | src/main/java/gr/aegean/deserializer/DvdGenreDeserializer.java:20-24 | upper-casing the input first does not change its normal form |
| GenreDeserializer.IgnoresCase | src/main/java/gr/aegean/deserializer/DvdGenreDeserializer.java:24 | texts that agree up to letter case read as the same genre, or fail alike |
| GenreDeserializer.IgnoresPadding | src/main/java/gr/aegean/deserializer/DvdGenreDeserializer.java:22 | chars ≤ U+0020 around the text do not change the answer |
| GenreDeserializer.SpaceReadsAsUnderscore | src/main/java/gr/aegean/deserializer/DvdGenreDeserializer.java:23 | one space between two words reads as the underscore of a constant name |
| GenreDeserializer.SameNormalForm | src/main/java/gr/aegean/deserializer/DvdGenreDeserializer.java:26-30 | the answer depends on the normalised text only |
| GenreDeserializer.ExactNameAccepted | src/test/java/gr/aegean/deserializer/DvdGenreDeserializerTest.java:29-44 | "SCIENCE_FICTION" reads as SCIENCE_FICTION |
| GenreDeserializer.MixedCaseAccepted | src/test/java/gr/aegean/deserializer/DvdGenreDeserializerTest.java:29-44 | "sCiENCE_FICTiON" reads as SCIENCE_FICTION |
| GenreDeserializer.PaddedSpacedMixedCaseAccepted | src/test/java/gr/aegean/deserializer/DvdGenreDeserializerTest.java:29-44 | " sCiENCE FICTiON   " reads as SCIENCE_FICTION |
| GenreDeserializer.EmptyRejected | src/test/java/gr/aegean/deserializer/DvdGenreDeserializerTest.java:46-60 | "" fails with the message "Invalid dvd genre: " |
| RoleDeserializer.ValueOf | src/main/java/gr/aegean/deserializer/UserRoleDeserializer.java:28 | the role whose name is exactly the text, and none when no role has that name |
| RoleDeserializer.Deserialize | src/main/java/gr/aegean/deserializer/UserRoleDeserializer.java:19-32 | succeeds exactly when "ROLE_" plus the trimmed, upper-cased text is a role's name and returns that role; every failure is "Invalid user role" |
| RoleDeserializer.ShortName | src/main/java/gr/aegean/deserializer/UserRoleDeserializer.java:26 | "ROLE_" followed by the short name is the role's name, and the short name is non-empty upper-case letters |
| RoleDeserializer.RoundTrip | src/main/java/gr/aegean/deserializer/UserRoleDeserializer.java:26-28 | each role's name without "ROLE_" reads back as that role |
| RoleDeserializer.IgnoresCaseAndPadding | src/main/java/gr/aegean/deserializer/UserRoleDeserializer.java:20-23 | padding and letter case do not change the answer |
| RoleDeserializer.PaddedMixedCaseAccepted | src/test/java/gr/aegean/deserializer/UserRoleDeserializerTest.java:29-44 | "   EmPloYeE " reads as ROLE_EMPLOYEE |
| RoleDeserializer.FullNameRejected | src/main/java/gr/aegean/deserializer/UserRoleDeserializer.java:26 | a role's full name, such as "ROLE_EMPLOYEE", fails: the prefix is added a second time |
| RoleDeserializer.LongTextRejected | src/main/java/gr/aegean/deserializer/UserRoleDeserializer.java:26-31 | text longer than eight chars after trim() never names a role |
| RoleDeserializer.InnerSpaceRejected | src/main/java/gr/aegean/deserializer/UserRoleDeserializer.java:20-28 | whitespace inside the text is kept, so "EM PLOYEE" fails |
| UserStore.EmailMatches | src/main/java/gr/aegean/repository/UserRepository.java:55 | exactly the keys of the rows whose email equals the text, letter case included |
| UserStore.ExistsResultMeaning | src/main/java/gr/aegean/repository/UserRepository.java:67-74 | for a well-formed email pattern, true exactly when some stored email matches it under ILIKE; for an ill-formed one never true; the escape error exactly when some row's match raises it |
| UserStore.PlainEmailQueryIgnoresCase | src/main/java/gr/aegean/repository/UserRepository.java:67-74 | for an email without `%`, `_` or backslash, the query answers exactly whether some email equals it up to case |
| UserStore.UnderscoreEmailFalsePositive | src/main/java/gr/aegean/repository/UserRepository.java:71 | with "a.b@x" stored, "a_b@x" is reported as taken though no stored email equals it up to case |
| UserStore.TrailingBackslashEmail | src/main/java/gr/aegean/repository/UserRepository.java:67-74 | for a plain email followed by a backslash, the query fails exactly when some stored email starts with it up to case and goes on after it, and answers false otherwise |
| UserStore.ExistsButNotFound | src/main/java/gr/aegean/repository/UserRepository.java:54-74 | an email that differs from a stored one only in case is reported as existing, yet the lookup by email finds no row |
| UserStore.UserRepository.RegisterUser | src/main/java/gr/aegean/repository/UserRepository.java:25-49 | the user is stored under the next sequence value, which is set as its id; the key was unused and the sequence advances |
| UserStore.UserRepository.FindUserByEmail | src/main/java/gr/aegean/repository/UserRepository.java:54-65 | empty exactly when no row has the email; the result-size error exactly when two or more do; otherwise the one row with that email |
| UserStore.UserRepository.ExistsUserWithEmail | src/main/java/gr/aegean/repository/UserRepository.java:67-74 | answers ExistsResult on the current table: for a well-formed pattern whether some email matches under ILIKE, for an ill-formed one never true |
| UserStore.UserRepository.ExistsUserWithEmailIgnoringCase | src/main/java/gr/aegean/repository/UserRepository.java:67-69 | true exactly when some stored email equals the email up to case |
| UserStore.UserRepository.DeleteAllUsers | src/main/java/gr/aegean/repository/UserRepository.java:76-79 | the table is empty and the sequence is not reset |
| UserRegistration.NameCheck | src/main/java/gr/aegean/service/UserService.java:43-59 | a name passes exactly when it has at most 30 chars and only ASCII letters; a long one gets the "Too many characters" message even if it also has non-letters; a short one with a non-letter gets the "only characters" message |
| UserRegistration.ValidateName | src/main/java/gr/aegean/service/UserService.java:43-59 | passes exactly when both names pass; a failing firstname is reported before the lastname |
| UserRegistration.ValidateEmail | src/main/java/gr/aegean/service/UserService.java:61-66 | passes exactly when the email has at most 50 chars, else "Invalid email. Too many characters" |
| UserRegistration.EmptyNamePasses | src/main/java/gr/aegean/service/UserService.java:48 | the empty name passes the name checks |
| UserRegistration.LengthReportedBeforeLetters | src/main/java/gr/aegean/service/UserService.java:44-50 | a name both too long and not all letters is reported as too long |
| UserRegistration.NoEmailGrammar | src/main/java/gr/aegean/service/UserService.java:61-66 | any text of at most 50 BMP chars passes, whether or not it looks like an address |
| UserRegistration.CountPositiveIffSome | src/main/java/gr/aegean/service/UserService.java:71-74 | a rule asking for at least one char of a class is met exactly when some char is in the class |
| UserRegistration.BrokenRules | src/main/java/gr/aegean/service/UserService.java:69-77 | exactly the listed rules the password breaks, kept in rule order |
| UserRegistration.PasswordViolations | src/main/java/gr/aegean/service/UserService.java:69-77 | exactly the rules the password breaks, in the validator's order |
| UserRegistration.ValidatePassword | src/main/java/gr/aegean/service/UserService.java:68-81 | passes exactly when no rule is broken; otherwise fails with the first broken rule's message |
| UserRegistration.PasswordAcceptedIffStrong | src/main/java/gr/aegean/service/UserService.java:68-81 | a password is accepted exactly when it has 8 to 128 chars and at least one upper-case letter, one lower-case letter, one digit and one special char |
| UserRegistration.ShortPasswordReportsLength | src/main/java/gr/aegean/service/UserService.java:70-79 | a password under 8 chars is reported as too short, whatever else it lacks |
| UserRegistration.MissingUppercaseReportedFirst | src/main/java/gr/aegean/service/UserService.java:70-79 | a password of good length without an upper-case letter is reported for that before any other class |
| UserRegistration.ValidateUser | src/main/java/gr/aegean/service/UserService.java:31-35 | passes exactly when all checks pass; the first failing check in the order firstname, lastname, email, password is the answer |
| UserRegistration.ValidUserIff | src/main/java/gr/aegean/service/UserService.java:31-81 | a user is accepted exactly when both names have at most 30 ASCII letters, the email at most 50 chars, and the password is strong |
| UserRegistration.UserService.RegisterUser | src/main/java/gr/aegean/service/UserService.java:23-29 | refuses with "The provided email already exists", changing nothing, exactly when some stored email equals the new one up to case; otherwise stores the user under a new id |
| UserRegistration.UserService.RegisterUserAsWritten | src/main/java/gr/aegean/service/UserService.java:23-29 | the email is checked as an ILIKE pattern: a query error or a match refuses the user and changes nothing, no match stores the user under a new id |
| UserRegistration.RegisteredUserIsStored | src/main/java/gr/aegean/service/UserService.java:23-29 | after a registration, the lookup by the exact email finds exactly the new row |
| UserRegistration.SecondRegistrationRefused | src/test/java/gr/aegean/service/UserServiceTest.java:44-57 | once a user is stored, every spelling of the same email up to case counts as taken, so a second registration is refused |

## Left out

- Controllers, status codes, the exception handler, Spring Security, JWT, `AuthService`, the row mappers and the configuration classes are not part of this model. The `AuthService` registration flow only sequences calls across foreign collaborators.
- Redis and SQL are modelled as in-memory maps. The model leaves out Redis TTL, serialisation, connection failures and database unique constraints. The only database errors it has are an id that is not a uuid, a LIKE pattern whose lone trailing backslash the matcher reaches, a taken generated key, and more than one row for an email.
- Execution is sequential. The check-then-insert races on title and email, and the gap between the table write and the cache write, only matter under concurrency.
- Random uuids and serial ids are parameters: the generated uuid is an argument, and the serial id comes from a counter.
- `Dvd` and `User` are values. `setId`, `setTitle` and the patch setters build a new value that is returned, instead of changing the caller's object in place. So the model cannot show aliasing of the caller's object.
- The dvd DTO copies the four dvd fields one for one, so the model uses the dvd itself.
- Lists are modelled as sets. The order of query results is not modelled.
- The source of the genre enum is not part of this model. `Entities.Genre` lists only the constants that the service and its tests use. No proof depends on how many there are.
- Only ASCII letters change case. Java's `toUpperCase`/`toLowerCase` and PostgreSQL's ILIKE also fold non-ASCII letters, and this model does not.
- `Uuids.ParseId` accepts the 8-4-4-4-12 layout in any letter case and the 32 bare hex digits. PostgreSQL's other accepted spellings (braces, other hyphen groupings) are read as invalid.
- UserRegistration.IsSpecial: covers passay's special chars only in the ASCII range. The non-ASCII symbols passay also counts are left out.
- UserRegistration.PasswordRule: the messages are passay's default English texts with the service's parameters. passay's message resolver is not part of this model.
- UserStore.ResultSizeMessage: the row count that Spring appends to the result-size message is left out. Only its fixed prefix is kept.
- DvdStore.DvdRepository.CreateDvd: does not model the path where the insert reports a row count other than 1, or where no key comes back, so the id stays null. A uuid default on the table always yields a key.
- Java's `int` quantity and `Integer` user id are unbounded here. Nothing in the core does arithmetic on them.

## Findings

| source | as written | input that shows it | evidently intended | confidence | as-written member | corrected member |
|---|---|---|---|---|---|---|
| src/main/java/gr/aegean/service/DvdService.java:63, src/main/java/gr/aegean/service/DvdService.java:101 | updateDvd and deleteDvd key the cache by the caller's id string, while createDvd and findDvdById key it by `UUID.toString()` | the id "AAAAAAAA-AAAA-AAAA-AAAA-AAAAAAAAAAAA" names the same row as "aaaaaaaa-aaaa-aaaa-aaaa-aaaaaaaaaaaa". After an update or delete through the first spelling, a read through the second serves the old quantity or the deleted dvd | key every cache write and delete by the canonical string of the id the table found, so the cache stays coherent with the table | not executed | DvdCaching.DvdService.UpdateDvdAsWritten, DvdCaching.DvdService.DeleteDvdAsWritten, DvdCaching.StaleReadAfterUpperCaseUpdate, DvdCaching.DeletedDvdStillServed | DvdCaching.DvdService.UpdateDvd, DvdCaching.DvdService.DeleteDvd |
| src/main/java/gr/aegean/repository/UserRepository.java:71 | existsUserWithEmail binds the email as the right-hand side of ILIKE, so `_` and `%` are wildcards and a trailing backslash can raise a query error | with "a.b@x" stored, registering "a_b@x" is refused as a duplicate. With "ab@x" stored, registering `a` followed by a backslash fails with a database error | emails compared for equality up to letter case, as the comment at lines 67-69 states | not executed | UserStore.ExistsResultMeaning, UserStore.UnderscoreEmailFalsePositive, UserStore.TrailingBackslashEmail, UserRegistration.UserService.RegisterUserAsWritten | UserStore.UserRepository.ExistsUserWithEmailIgnoringCase, UserRegistration.UserService.RegisterUser |
