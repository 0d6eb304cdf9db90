# laravel-favorite, modelled in Dafny

Laravel Favorite lets a user favorite any entity of the application, such as
an Article or a Post. The package stores one row per favorite in a
`favorites` table with the columns `user_id`, `favoriteable_type` and
`favoriteable_id`. Two traits work on that table:

- `Favoriteable`, on the entity, adds, removes and toggles a user's
  favorite. It also answers whether a user has favorited the entity, counts
  the entity's favorites and lists the users who favorited it. When the
  entity is deleted, it removes the entity's rows.
- `Favoriteability`, on the user, lists the user's favorites of one class,
  keyed by entity id. Its other methods hand the user's own id to the
  entity's methods.

The model has three modules:

- `Favorite` (`Favorite.dfy`): a row, the WHERE clauses the traits use (as a
  first-order `Cond` datatype), and the SELECT / COUNT / EXISTS / DELETE
  statements over a table held as a sequence of rows.
- `Favoriteable` (`Favoriteable.dfy`): the entity side. The queries are
  functions of the rows. The mutators are methods of a `Table` class whose
  fields are the rows (`rows`) and the set of entities that currently exist
  (`targets`).
- `Favoriteability` (`Favoriteability.dfy`): the user side. A user is its
  integer id.

The authenticated user's id (`Auth::id()`) is an explicit `authId`
argument; `None` means nobody is logged in. An explicit `$user_id` is used
only when it is truthy in PHP's sense. A missing id or an id of 0 falls back
to `authId` (`Favoriteable.ResolveUser`). The model assumes that a favorite
saved without a user and without an authenticated user stores a NULL
`user_id`; the table's schema is not part of this model (see "Left out").

## Model

| member | source | states |
|---|---|---|
| Favorite.NewFavorite | src/Traits/Favoriteable.php:35-36 | the row saved through the entity's morph relation carries the given `user_id` and points at that entity |
| Favoriteable.Truthy | src/Traits/Favoriteable.php:35 | an optional id is falsy exactly when it is null or 0 |
| Favoriteable.ResolveUser | src/Traits/Favoriteable.php:35 | `$user_id ? $user_id : Auth::id()`: the result is the given id or the authenticated one; a non-zero given id wins; a null or 0 id falls back to `authId` |
| Favorite.FavoriteCond | src/Traits/Favoriteable.php:46 | the clause `where('user_id', u)` on the entity's morph relation matches exactly the rows (u, t) |
| Favorite.Where | src/Traits/Favoriteability.php:38 | a SELECT with a WHERE clause returns exactly the table's rows that satisfy it, and never more rows than the table holds |
| Favorite.WhereMultiset | src/Traits/Favoriteability.php:38 | a selected row appears in the result as often as in the table; a row that fails the clause does not appear |
| Favorite.CountWhere | src/Traits/Favoriteable.php:105 | COUNT(*) equals the number of rows the same SELECT would load |
| Favorite.ExistsWhere | src/Traits/Favoriteable.php:73 | EXISTS holds exactly when some row satisfies the clause |
| Favorite.DeleteWhere | src/Traits/Favoriteable.php:125 | a DELETE leaves exactly the rows that fail the clause |
| Favoriteable.FavoritesOf | src/Traits/Favoriteable.php:23-26 | the morph-many relation is exactly the rows whose type and key name the entity |
| Favoriteable.IsFavoritedQuery | src/Traits/Favoriteable.php:73 | the query holds exactly when the row (user, entity) is in the table |
| Favoriteable.IsFavoritedLoaded | src/Traits/Favoriteable.php:69-71 | the loaded relation's `contains` gives the same answer as the query, namely whether the row (user, entity) exists |
| Favoriteable.FavoritesCount | src/Traits/Favoriteable.php:99-116 | the count is the size of the entity's relation, and it is zero exactly when no row names the entity |
| Favoriteable.FavoritedBy | src/Traits/Favoriteable.php:81-92 | a user id is a key exactly when that user has a row for the entity; each key maps to its own user; there are never more entries than favorites |
| Favoriteable.FavoritedByKeys | src/Traits/Favoriteable.php:89-91 | the keys of favoritedBy are exactly the users with a row for the entity |
| Favoriteable.Removed | src/Traits/Favoriteable.php:46 | removing deletes every copy of the row (user, entity) and keeps every other row |
| Favoriteable.RemovedKeepsOthers | src/Traits/Favoriteable.php:46 | every other row keeps all of its copies, duplicates included |
| Favoriteable.RemovedCount | src/Traits/Favoriteable.php:44-47 | the entity's count drops by the number of copies of (user, entity); the count of every other entity is unchanged |
| Favoriteable.RemoveAbsent | src/Traits/Favoriteable.php:44-47 | removing a favorite that does not exist leaves the table unchanged |
| Favoriteable.RemoveInserted | src/Traits/Favoriteable.php:44-47 | removing the only copy of a row that was added restores the table to its earlier state, in order |
| Favoriteable.AddCount | src/Traits/Favoriteable.php:33-37 | adding raises the entity's count by one and leaves every other entity's count unchanged |
| Favoriteable.AddTwice | src/Traits/Favoriteable.php:33-37 | adding does not deduplicate: adding the same pair twice leaves two more copies and raises the count by two |
| Favoriteable.Cascaded | src/Traits/Favoriteable.php:121-128 | the deleted hook removes every row naming the entity, for every user, and keeps every other row |
| Favoriteable.CascadeKeepsCopies | src/Traits/Favoriteable.php:125 | rows of other entities keep all their copies |
| Favoriteable.CascadeKeepsOthers | src/Traits/Favoriteable.php:121-128 | after the hook the entity's count is zero, and every other entity's relation is exactly as before, even one with the same key and another type |
| Favoriteable.Toggled | src/Traits/Favoriteable.php:54-57 | toggling flips whether the row (user, entity) exists, and no other row comes or goes |
| Favoriteable.ToggledCount | src/Traits/Favoriteable.php:54-57 | toggling an absent pair raises the count by one; toggling a present one lowers it by its number of copies |
| Favoriteable.ToggleAbsent | src/Traits/Favoriteable.php:54-57 | toggling an absent pair appends its row |
| Favoriteable.ToggleTwice | src/Traits/Favoriteable.php:54-57 | toggling an absent pair twice restores the table exactly |
| Favoriteable.ThreeUsersToggle | tests/FavoriteModelTest.php:193-195 | three users toggling an entity with no favorites append one row each, in order |
| Favoriteable.ThreeUsersCounted | tests/FavoriteModelTest.php:193-197 | after those three toggles the count is 3 |
| Favoriteable.ThreeUsersFavoritedBy | tests/FavoriteModelTest.php:211-215 | after those three toggles favoritedBy has 3 entries |
| Favoriteable.ThreeUsersToggleBack | tests/FavoriteModelTest.php:199-203 | when the same three users toggle again, the table is back where it started, the count is 0 and favoritedBy is empty |
| Favoriteable.Table.constructor | src/Models/Favorite.php:20 | an empty favorites table next to the given existing entities |
| Favoriteable.Table.IsFavorited | src/Traits/Favoriteable.php:66-74 | true exactly when the resolved user (the explicit id if truthy, else the authenticated one) has a row for the entity |
| Favoriteable.Table.AddFavorite | src/Traits/Favoriteable.php:33-37 | appends the row (resolved user, entity) without checking for an existing one; afterwards the pair is favorited and the count is one higher |
| Favoriteable.Table.RemoveFavorite | src/Traits/Favoriteable.php:44-47 | deletes the resolved user's rows for the entity; afterwards the pair is not favorited; a no-op when it was not favorited |
| Favoriteable.Table.ToggleFavorite | src/Traits/Favoriteable.php:54-57 | removes when favorited and adds otherwise, so the favorited status flips |
| Favoriteable.Table.Delete | src/Traits/Favoriteable.php:121-128 | deleting an existing entity removes it and all its rows, leaving every other entity's rows unchanged; deleting a missing entity changes nothing |
| Favoriteability.UserFavorites | src/Traits/Favoriteability.php:19-22 | the user's favorites are exactly the rows whose `user_id` is the user's id |
| Favoriteability.FavoritesOfType | src/Traits/Favoriteability.php:32-48 | an id is listed exactly when an entity of that class with that id exists and the user has a row for it; it maps to that entity |
| Favoriteability.ListingKeys | src/Traits/Favoriteability.php:32-48 | the listing's keys are determined by the existing entities of the class the user has rows for |
| Favoriteability.ListingEmpty | src/Traits/Favoriteability.php:32-48 | a user without rows has an empty listing for every class |
| Favoriteability.ListingAfterAdd | src/Traits/Favoriteability.php:32-48 | appending a row with the user's own id (what the user's addFavorite stores for a non-zero id) lists the entity under its class if it exists, and changes no other listing |
| Favoriteability.ListingAfterRemove | src/Traits/Favoriteability.php:32-48 | removing the rows with the user's own id for an entity (what the user's removeFavorite deletes for a non-zero id) drops the entity from its class's listing, and changes nothing else |
| Favoriteability.ListingAfterDelete | src/Traits/Favoriteability.php:42-46 | deleting an entity drops it from every user's listing and keeps everything else listed |
| Favoriteability.ListingSkipsMissing | src/Traits/Favoriteability.php:42-46 | the listing skips a missing entity whether or not its rows were removed |
| Favoriteability.IsFavorited | src/Traits/Favoriteability.php:91-94 | for a non-zero id, true exactly when one of the user's own rows names the entity; for id 0 it is the entity's check with no explicit user |
| Favoriteability.HasFavorited | src/Traits/Favoriteability.php:104-107 | always equal to isFavorited; for an existing entity and a non-zero id it agrees with the user's listing of the entity's class |
| Favoriteability.AddFavorite | src/Traits/Favoriteability.php:56-59 | the entity's addFavorite with the user's id: for a non-zero id it appends (user, entity); afterwards hasFavorited holds |
| Favoriteability.RemoveFavorite | src/Traits/Favoriteability.php:67-70 | the entity's removeFavorite with the user's id; afterwards hasFavorited is false |
| Favoriteability.ToggleFavorite | src/Traits/Favoriteability.php:78-81 | the entity's toggleFavorite with the user's id; hasFavorited flips |
| Favoriteability.ArticlesListed | tests/FavoriteModelTest.php:167-174 | after a user with a non-zero id and no favorites adds three Articles and two Posts, the Article listing holds exactly those three ids |
| Favoriteability.PostsListed | tests/FavoriteModelTest.php:167-175 | in the same scenario, the Post listing holds exactly those two ids |
| Favoriteability.AllRemovedListed | tests/FavoriteModelTest.php:177-185 | when the user removes all five again, every listing of theirs is empty |
| Favoriteability.ZeroIdNotListed | src/Traits/Favoriteability.php:56-59 | a user with id 0 hands a falsy id to the entity, so the row goes to the authenticated user and the entity does not appear in user 0's listing |
| Favoriteability.DeletedNotListed | tests/FavoriteModelTest.php:232-237 | when a user with a non-zero id favorites two Articles and one is deleted, the listing holds only the other |

## Left out

- The service provider (src/FavoriteServiceProvider.php) and the migration it publishes are not part of this model. Column nullability is not modelled: a save with no user and no authenticated user is taken to store a NULL `user_id`, where a NOT NULL column would make the save fail instead.
- The store-generated row `id` and the timestamps are not modelled. Rows are compared by their three columns.
- Eloquent hydration is not modelled. Neither is the `relationLoaded` cache as a separate state: a loaded relation is taken to be current, so the loaded and query paths read the same rows.
- Favoriteable.IsFavoritedLoaded: compares `user_id` exactly, where the collection's `contains` uses PHP's loose `==`. The two differ only when the resolved user is NULL and a stored `user_id` is 0, or the reverse.
- Favoriteable.FavoritedBy: a row with a NULL `user_id` contributes nothing. The code would read `->id` of a missing user there. Users are modelled by their ids, not as loaded records.
- Favoriteability.FavoritesOfType: `isset($item['favoriteable'])` is modelled as "the entity is among the existing ones". Eloquent's class-name resolution of `favoriteable_type` is not modelled.
- The Auth facade is an argument, `authId`. The rest of the framework (events, the model's own `delete`) is modelled only as far as the deleted hook and the `targets` set go.
- A user with id 0: the delegating methods fall back to the authenticated user, because 0 is falsy, but `favorites()` uses 0 as it is. The model keeps this behaviour and states it in `Favoriteability.IsFavorited`.
- Concurrency and transactions are not modelled; each statement is atomic.
- The test fixture models (tests/Models) are not modelled. The tests' scenarios appear as lemmas over arbitrary starting tables.
