# Exercise catalogue: access control, engagement and user registry

A Dafny model of the service layer of a NestJS/TypeORM REST API in which
authenticated users create, browse and engage with *exercises*: content items
with a name, a description, an integer difficulty, an optional duration, a
visibility flag and an owner (`createdBy`).

The model covers:

- the single access rule behind `update`, `delete` and `findOne`: a private
  exercise is open to its creator only, and a public one is open to anyone;
- the catalogue operations `create`, `update`, `delete`, `findOne` and `findAll`.
  `findAll` includes the visibility clause exactly as the query builder emits
  it: `isPublic OR (createdBy = caller AND filters…)`;
- the engagement operations:
  - the favorite and save toggles;
  - the rating range check and upsert;
  - the favoriters query;
- the user registry: create with a unique username, lookup by username, and
  storing a hashed refresh token;
- the schema rules the entities declare: unique exercise names and usernames,
  32-bit integer columns, one rating per (user, exercise), and foreign keys
  that cascade on delete.

The store is immutable. `Entities.Store` holds five tables (users, exercises,
favorites, saves, ratings). Each table maps ids to rows and keeps a serial
counter standing in for the id sequence.

Every operation is a total function. Those that can fail return `Result`: a
failure carries only the error, so a refused request leaves the caller holding
the unchanged store. The lookups (`Query.FindAll`, `Engagement.UsersWhoFavorited`,
`Users.FindByUsername`), `Users.UpdateRefreshToken` and the cascades
(`Entities.RemoveExercise`, `Entities.RemoveUser`) cannot fail and return their
value directly.
`Entities.Valid` collects what a reachable store satisfies:

- ids below the counter;
- foreign keys resolve;
- the unique columns;
- the exercise's integer columns within the 32-bit range;
- at most one Favorite, Save or Rating row per pair;
- ratings within 1..5.

The `…PreservesValid` lemmas show each operation keeps `Valid`. The Favorite
and Save tables declare no uniqueness constraint. Their at-most-one-row
property is kept by the toggle's check-then-act alone, and `Engagement.ToggleFlips`
proves it.

Modules:

- `Wrappers`: errors and results.
- `Tables`: id-keyed tables, and least-id lookup for `findOne` with several matches.
- `Entities`: records, invariants and cascades.
- `Access`: the permission rule.
- `Catalog`: single-exercise operations.
- `Sorting`: a generic insertion sort.
- `Query`: `findAll`.
- `Engagement`: favorites, saves, ratings.
- `Users`: the user service.

The password hash is a parameter `hash: (string, nat) -> Digest`, applied with
cost factor `Users.SaltRounds` = 10. The caller's identity is a plain user id.

## Model

| member | source | states |
|---|---|---|
| Access.Authorize | src/exercise/exercise.service.ts:39-48 | NotFound exactly when the id is absent; Forbidden for the given action exactly when the exercise exists, is private and the caller is not its creator; otherwise the stored exercise |
| Catalog.Build | src/exercise/exercise.service.ts:31-34 | the new row copies the input fields, its creator is the caller, and `isPublic` is true when the input leaves it out |
| Catalog.Create | src/exercise/exercise.service.ts:30-36 | refused as out of range exactly when the difficulty or duration lies outside the 32-bit `integer` column (src/exercise/exercise.entity.ts:28-29, 52-53); otherwise refused with a unique violation exactly when some exercise already holds the name; otherwise exactly one row is added under an id the table did not hold, returned with that id, and every other row and table is unchanged |
| Catalog.CreatePreservesValid | src/exercise/exercise.entity.ts:22-29 | after a successful create, names are still unique, every integer column holds a 32-bit value and every foreign key still resolves |
| Catalog.CreateKeepsReferences | src/exercise/exercise.entity.ts:34-35 | the new exercise's creator is an existing user, so every reference still resolves |
| Catalog.FreshIdUnreferenced | src/exercise/exercise.entity.ts:19-20 | an id the sequence has not handed out has no favorites, saves or ratings |
| Catalog.CreateThenFindOne | src/exercise/exercise.service.ts:103-127 | findOne by the creator on the id create returned shows the created name, description and creator, with zero favorites and saves |
| Catalog.ApplyPatch | src/exercise/exercise.service.ts:50 | each field present in the patch is overwritten, each absent field keeps its value, the creator never changes; a duration can be cleared |
| Catalog.PatchIdempotent | src/exercise/exercise.service.ts:50 | merging the same patch a second time changes nothing |
| Catalog.Update | src/exercise/exercise.service.ts:38-52 | NotFound when absent, then Forbidden(modify) when private and not the caller's; then out of range when the merged difficulty or duration does not fit the 32-bit column; then a unique violation when another exercise holds the resulting name; otherwise only that row changes, to the merged exercise, and no other table changes |
| Catalog.UpdatePreservesValid | src/exercise/exercise.service.ts:50-51 | a successful update keeps every invariant, and the creator of every exercise is unchanged |
| Catalog.UpdateKeepsReferences | src/exercise/exercise.service.ts:50-51 | an update keeps every foreign key resolving |
| Catalog.UpdateThenFindOne | src/exercise/exercise.service.ts:119-126 | after an update, findOne by a caller still allowed to see the exercise shows the patched name and description, the unchanged creator and the unchanged counts |
| Catalog.DeleteExercise | src/exercise/exercise.service.ts:54-67 | NotFound when absent, then Forbidden(delete) when private and not the caller's; otherwise the exercise is gone, with its Favorite, Save and Rating rows, and every row referencing another exercise stays |
| Catalog.DeletePreservesValid | src/exercise/exercise.service.ts:66 | a delete keeps every invariant, and a later findOne of that id by anyone is NotFound |
| Catalog.FindOne | src/exercise/exercise.service.ts:103-127 | NotFound, then Forbidden(view), on the same conditions; otherwise the narrow view: id, name, description, creator, and the number of live Favorite and Save rows |
| Catalog.PrivateExerciseOwnerOnly | src/exercise/exercise.service.ts:113-116 | on a private exercise, findOne, delete and update pass the permission check for the creator and are Forbidden for every other caller |
| Catalog.PublicExerciseOpenToAll | src/exercise/exercise.service.ts:61-64 | on a public exercise, any caller may read and delete it, and may update it unless a merged value does not fit its column or the resulting name is taken |
| Entities.UniqueRatingsAtMostOne | src/exercise/rating.entity.ts:14 | under the unique (user, exercise) constraint, a pair has at most one rating row |
| Entities.UniquePairsAtMostOne | src/exercise/favorite.entity.ts:15-19 | when no two Favorite (or Save) rows record the same pair, each pair has at most one row |
| Entities.RemoveExercise | src/exercise/favorite.entity.ts:18-19 | deleting an exercise removes it and every Favorite, Save and Rating row that references it; a row referencing another exercise is kept |
| Entities.RemoveExercisePreservesValid | src/exercise/rating.entity.ts:22 | the cascade leaves a valid store: nothing references the deleted exercise |
| Entities.RemoveExerciseKeepsReferences | src/exercise/save.entity.ts:18-19 | after the cascade, every remaining reference resolves |
| Entities.RemoveUser | src/exercise/exercise.entity.ts:34-35 | deleting a user removes the user, every exercise the user created, the user's own engagement rows, and the engagement rows of the removed exercises |
| Entities.RemoveUserPreservesValid | src/exercise/rating.entity.ts:19 | the user cascade leaves a valid store |
| Entities.RemoveUserKeepsReferences | src/exercise/favorite.entity.ts:15-16 | after the user cascade every remaining reference resolves |
| Entities.SubStoreKeepsValid | src/exercise/exercise.entity.ts:22-23 | deleting rows never breaks a unique column, the range of ratings or the numbering |
| Query.Lower | src/exercise/exercise.service.ts:80 | lowercasing keeps the length and maps every character through ASCII lowercasing |
| Query.ListingOf | src/exercise/exercise.service.ts:96-100 | a listed exercise carries the stored row's id, name, description, difficulty, visibility and duration, no creator, and the number of live Favorite and Save rows that reference it |
| Query.FindAll | src/exercise/exercise.service.ts:69-101 | lists exactly the exercises the where clause admits, each once, with live counts; sorted on the requested column, descending only for the exact text "DESC", whenever `sortBy` is given |
| Query.FindAllShowsOnlyVisible | src/exercise/exercise.service.ts:75-77 | every listed exercise is a stored one that is public or created by the caller |
| Query.FindAllListsEveryPublic | src/exercise/exercise.service.ts:76-87 | every public exercise is listed whatever filters are given |
| Query.FindAllFiltersOwnPrivate | src/exercise/exercise.service.ts:77-87 | a private exercise of the caller is listed if and only if it passes every given filter |
| Query.Normalize | src/exercise/exercise.service.ts:79-91 | maps an empty text filter and a zero difficulty to a missing one and keeps a given filter's value; keeps an order of "DESC" and maps any other order to a missing one; the sort column is kept |
| Query.FalsyFiltersIgnored | src/exercise/exercise.service.ts:79-87 | an empty or zero filter lists the same as a missing one |
| Query.FilterIsCaseInsensitiveSubstring | src/exercise/exercise.service.ts:79-84 | the name or description filter holds if and only if some contiguous piece of the text equals the filter text once both are lowercased |
| Query.FilterCaseIrrelevant | src/exercise/exercise.service.ts:80 | filter texts that differ only in letter case select the same exercises |
| Query.PrecedesIsPreorder | src/exercise/exercise.service.ts:89-91 | the order on each sortable column, in either direction, is total and transitive |
| Engagement.Toggle | src/exercise/exercise.service.ts:133-141 | deletes the row of (user, exercise) when there is one and reports un-toggled; otherwise adds exactly one row for that pair and reports toggled |
| Engagement.ToggleFlips | src/exercise/exercise.service.ts:133-141 | on a relation with at most one row per pair, a toggle keeps that property, flips whether the pair is recorded, and leaves every other pair's rows unchanged |
| Engagement.ToggleTwice | src/exercise/exercise.service.ts:133-141 | two toggles of the same pair report opposite outcomes and restore the recorded pairs; starting from an absent pair, they restore the rows exactly |
| Engagement.ToggleMovesCount | src/exercise/exercise.service.ts:133-141 | a toggle moves the exercise's count up or down by one and leaves every other exercise's count unchanged |
| Engagement.FavoriteExercise | src/exercise/exercise.service.ts:129-142 | NotFound exactly when the exercise is absent, with no visibility check; "Exercise unfavorited" exactly when the caller had favorited it, else "Exercise favorited"; only the Favorite table changes |
| Engagement.SaveExercise | src/exercise/exercise.service.ts:144-157 | the same for saves: "Exercise unsaved" or "Exercise saved", and only the Save table changes |
| Engagement.FavoritePreservesValid | src/exercise/exercise.service.ts:139-140 | favoriting keeps every store invariant, the at-most-one-row-per-pair property included |
| Engagement.SavePreservesValid | src/exercise/exercise.service.ts:154-155 | saving keeps every store invariant |
| Engagement.FavoriteMovesCount | src/exercise/exercise.service.ts:129-142 | favoriteCount rises by one on "favorited" and falls by one on "unfavorited"; no other exercise's count and no save count moves |
| Engagement.SaveMovesCount | src/exercise/exercise.service.ts:144-157 | saveCount rises by one on "saved" and falls by one on "unsaved"; nothing else moves |
| Engagement.FavoriteTwiceRestores | src/exercise/exercise.service.ts:134-141 | a second favorite request reports the opposite outcome and restores the set of recorded favorites; nothing else changes |
| Engagement.SaveTwiceRestores | src/exercise/exercise.service.ts:149-156 | a second save request reports the opposite outcome and restores the set of recorded saves |
| Engagement.Upsert | src/exercise/exercise.service.ts:167-178 | afterwards a rating of (user, exercise) holds the new value; an existing rating is overwritten in place, and otherwise one row is added |
| Engagement.UpsertLeavesOne | src/exercise/exercise.service.ts:167-178 | under the one-rating-per-pair constraint, exactly one rating of the pair remains, holding the new value, and every other rating is unchanged |
| Engagement.RateExercise | src/exercise/exercise.service.ts:159-181 | the range error exactly when the value is outside 1..5, checked before existence; then NotFound exactly for a missing exercise; otherwise "Exercise rated", and only ratings change |
| Engagement.RateKeepsRange | src/exercise/rating.entity.ts:28-29 | a successful rating stores only a value within 1..5, so every stored value stays within 1..5 |
| Engagement.RatePreservesValid | src/exercise/exercise.service.ts:160-162 | a successful rating by an existing user keeps every store invariant: values in range, one rating per pair, references resolving |
| Engagement.RateTwiceKeepsLatest | src/exercise/exercise.service.ts:169-171 | after two ratings of the same exercise by the same user, exactly one rating remains and it holds the second value |
| Engagement.UsersWhoFavorited | src/exercise/exercise.service.ts:183-189 | one entry per Favorite row of the exercise; each entry is a stored user with its own row |
| Engagement.FavoritersFavorited | src/exercise/exercise.service.ts:184-188 | every listed user has a Favorite row for that exercise |
| Engagement.FavoritersComplete | src/exercise/exercise.service.ts:184-188 | every user with a Favorite row for that exercise is listed |
| Engagement.FavoritersMatchCount | src/exercise/exercise.service.ts:183-189 | on a store whose references resolve, the list is as long as favoriteCount, and it is empty for an unknown exercise id |
| Engagement.FavoritersDistinct | src/exercise/exercise.service.ts:183-189 | no user is listed twice |
| Engagement.FavoriteThenListed | src/exercise/exercise.service.ts:139-141 | a user who has just favorited an exercise is among its favoriters |
| Wrappers.MessageIdentifiesError | src/exercise/exercise.service.ts:42-47 | at the service layer, two failures carry the same text exactly when they are the same failure, so each of NotFound, the three denials, the taken username, the rating range error and the two store refusals has its own text |
| Users.CreateUser | src/user/user.service.ts:15-32 | "Username already exists" exactly when the username is stored; otherwise exactly one user is added under a fresh id, with the hashed password and no token, and every other user is unchanged |
| Users.FindByUsername | src/user/user.service.ts:34-36 | none exactly when no user holds the name; otherwise a stored user holding it |
| Users.UpdateRefreshToken | src/user/user.service.ts:38-41 | that user's refresh token becomes the hash of the token, and nothing else changes; an unknown id changes nothing |
| Users.CreateKeepsUnique | src/user/user.entity.ts:12-13 | a successful create keeps usernames unique |
| Users.CreateThenFind | src/user/user.service.ts:25-36 | looking up the username just registered returns that user, whose password is the hash of the given one |
| Users.CreateTwiceConflicts | src/user/user.service.ts:16-22 | registering a taken username again fails, whatever the password |
| Users.RegisterAllKeepsUnique | src/user/user.service.ts:16-22 | after any sequence of registrations, no username is held twice |
| Users.RegisterAllKeepsRows | src/user/user.service.ts:26-31 | registrations never alter a user already stored |
| Users.RegisterAllHoldsEveryName | src/user/user.service.ts:15-32 | after a sequence of registrations, every requested username is held, by the requester or by whoever held it already |
| Users.UpdateKeepsUnique | src/user/user.service.ts:38-41 | setting a token changes no username and no password, so usernames stay unique |
| Users.UpdateThenFind | src/user/user.service.ts:38-41 | after the update, looking the user up by username finds that user, carrying the new hashed token |
| Users.CreateUserPreservesValid | src/user/user.entity.ts:12-13 | registration keeps every store invariant |
| Users.UpdateRefreshTokenPreservesValid | src/user/user.service.ts:40 | storing a token keeps every store invariant |

## Left out

- HTTP controllers, routing, `+id` parsing, Swagger metadata and the authentication service. The caller is a user id given as a parameter.
- Catalog.Create, Engagement.FavoriteExercise, Engagement.SaveExercise, Engagement.RateExercise: the caller is assumed to be a stored user. For a caller without a user row, the database's foreign key would refuse the insert. That error is not modelled: the model inserts the row, and the `…PreservesValid` lemmas require the caller to exist.
- Wrappers.MessageIdentifiesError: the texts are told apart at the service layer only. Over HTTP, the rating range error (a plain `Error`) and the two store refusals all surface as the same 500 "Internal server error". `UniqueViolation` and `OutOfRange` carry only the fixed part of the database's text, which also names the constraint or the offending value.
- Engagement.Toggle, Engagement.Upsert: the lookup `where: { exercise, user }` passes whole loaded entities. The model reads it as a match on the two ids. This is an assumption about TypeORM's translation of an entity-valued condition, and TypeORM is not part of this model.
- bcrypt: the hash is a function parameter. bcrypt's random salt is not modelled: the same secret always yields the same digest here.
- Timestamps (`createdAt`, `updatedAt`). They are driven by the clock, and sorting by them is not offered.
- Concurrency. The model is sequential, so the check-then-act races in the toggles, the upsert and user registration are out of scope, as is mapping a unique-violation error to a Conflict in the controller.
- Catalog.Create: only the declared input fields are modelled. The body is spread without a whitelist, and no validation pipe is installed. `createdBy: user` comes after the spread, so a body's `createdBy` is overridden. A body's `id` gets through: a create with an existing id overwrites that exercise and takes it over for the caller, past the access check.
- Catalog.ApplyPatch: only the declared patch fields are modelled. `Object.assign` copies the whole body before `save`. A body's `createdBy` would change the owner. A body's `id` replaces the loaded row's primary key, so `save` updates the exercise holding that id, or inserts one if there is none. The loaded exercise is left alone, and the other exercise is overwritten with the merged fields and the loaded exercise's creator, without passing its own access check.
- Users.CreateUser: only `username` and `password` are modelled. The body is spread into the new user without a whitelist. A body carrying `id` makes `save` overwrite that existing user's username and password. A body carrying `refreshToken` stores it unhashed. The contract's fresh id, absent token and unchanged other users hold only for a body with exactly the two declared fields.
- Catalog.Create: an empty name is accepted. The service does no validation of its own, and no validation pipe is installed.
- Catalog.FindOne: `createdBy` is returned as the creator's id, not as the full user row that is loaded.
- Query.FindAll: the listing does not carry the related Favorite, Save and Rating arrays that the joins attach, nor the timestamps. It has no creator, as in the source, which does not join `createdBy`. Without `sortBy`, the model lists in id order but promises no order.
- Query.FindAll: `sortBy` is an enumeration of known columns. The source interpolates raw text into the query.
- Query.FindAll: text is ordered by code point. The database collation may differ.
- Query.FindAll: `%` and `_` are not treated as wildcards inside filter text.
- Query.Lower: only ASCII letters are lowercased, not the full Unicode case mapping.
- Query.NumberGiven: the difficulty filter is a number, for which 0 counts as absent. The controller forwards the raw query string, for which "0" is truthy. A non-numeric text would be an error from the store.
- Engagement.RateExercise: the value is an `int`. `undefined`, `NaN` and fractional values that slip past the range check are not modelled.
- Engagement.RateExercise: the Rating entity's unused `rating` column (src/exercise/rating.entity.ts:25-26) is not modelled. The service never writes it, so a NOT NULL column in the database would reject a first rating.
- Engagement.UsersWhoFavorited: a Favorite row whose user is missing is skipped rather than listed as null. The foreign keys rule this case out.
- Tables: ids are unbounded naturals. The store's serial id column is a 32-bit `integer`, so the sequence running past 2147483647 and an id parameter outside that range are not modelled.
- Tables: a failed insert never consumes a sequence value here. The database may leave a gap.
- The entity-level cascades on deleting a user (`Entities.RemoveUser`) are modelled. No service operation of the core deletes users.
