/** The favoriter side: what a user offers. A user is its id (`$this->id`);
    its listing reads the rows and the existing entities, and its mutators
    hand their own id to the entity's methods on the shared `Table`. */
module Favoriteability {
  import opened Favorite
  import opened Favoriteable

  /** favorites(): the has-many relation, the rows whose user_id is this
      user's id. */
  function UserFavorites(rows: seq<Row>, userId: UserId): (r: seq<Row>)
    ensures forall x :: x in r <==> x in rows && x.userId == Some(userId)
  {
    Where(rows, UserIs(Some(userId)))
  }

  /** favorite($class): the user's rows of type `kind`, each replaced by the
      entity it points at, keyed by the entity's id; a row whose entity no
      longer exists contributes nothing. So an id is listed exactly when
      that entity of type `kind` exists and the user has a row for it, and
      the entity listed under an id is always of type `kind`. */
  function FavoritesOfType(rows: seq<Row>, targets: set<Target>, userId: UserId, kind: string): (m: map<int, Target>)
    ensures forall id :: id in m <==> Target(kind, id) in targets && NewFavorite(Some(userId), Target(kind, id)) in rows
    ensures forall id :: id in m ==> m[id] == Target(kind, id)
  {
    var favs := Where(UserFavorites(rows, userId), TypeIs(kind));
    var ids := set x | x in favs && x.Favoriteable() in targets :: x.favoriteableId;
    assert forall id :: id in ids <==> Target(kind, id) in targets && NewFavorite(Some(userId), Target(kind, id)) in rows by {
      forall id ensures id in ids <==> Target(kind, id) in targets && NewFavorite(Some(userId), Target(kind, id)) in rows {
        var y := NewFavorite(Some(userId), Target(kind, id));
        if y in rows {
          assert y in favs && y.Favoriteable() == Target(kind, id);
        }
      }
    }
    map id | id in ids :: Target(kind, id)
  }

  /** isFavorited($object): the entity's isFavorited with this user's id.
      For a non-zero id that is whether the user's own rows include one for
      the entity; an id of 0 is falsy and falls back to the authenticated
      user, as an omitted id would. */
  function IsFavorited(table: Table, userId: UserId, entity: Target, authId: Option<UserId>): (b: bool)
    reads table
    ensures userId != 0 ==> (b <==> exists x :: x in UserFavorites(table.rows, userId) && x.Favoriteable() == entity)
    ensures userId == 0 ==> b == table.IsFavorited(entity, None, authId)
  {
    var b := table.IsFavorited(entity, Some(userId), authId);
    assert userId != 0 ==> NewFavorite(Some(userId), entity) in table.rows ==>
      NewFavorite(Some(userId), entity) in UserFavorites(table.rows, userId);
    b
  }

  /** hasFavorited($object): the same question as isFavorited. For an
      existing entity and a non-zero id it agrees with the user's listing
      of that entity's type. */
  function HasFavorited(table: Table, userId: UserId, entity: Target, authId: Option<UserId>): (b: bool)
    reads table
    ensures b == IsFavorited(table, userId, entity, authId)
    ensures userId != 0 && entity in table.targets ==>
      (b <==> entity.id in FavoritesOfType(table.rows, table.targets, userId, entity.kind))
  {
    table.IsFavorited(entity, Some(userId), authId)
  }

  /** addFavorite($object): the entity's addFavorite with this user's id. */
  method AddFavorite(table: Table, userId: UserId, entity: Target, authId: Option<UserId>)
    modifies table
    ensures table.rows == old(table.rows) + [NewFavorite(ResolveUser(Some(userId), authId), entity)]
    ensures table.targets == old(table.targets)
    ensures userId != 0 ==> table.rows == old(table.rows) + [NewFavorite(Some(userId), entity)]
    ensures HasFavorited(table, userId, entity, authId)
  {
    table.AddFavorite(entity, Some(userId), authId);
  }

  /** removeFavorite($object): the entity's removeFavorite with this user's id. */
  method RemoveFavorite(table: Table, userId: UserId, entity: Target, authId: Option<UserId>)
    modifies table
    ensures table.rows == Removed(old(table.rows), entity, ResolveUser(Some(userId), authId))
    ensures table.targets == old(table.targets)
    ensures !HasFavorited(table, userId, entity, authId)
  {
    table.RemoveFavorite(entity, Some(userId), authId);
  }

  /** toggleFavorite($object): the entity's toggleFavorite with this user's id. */
  method ToggleFavorite(table: Table, userId: UserId, entity: Target, authId: Option<UserId>)
    modifies table
    ensures table.rows == Toggled(old(table.rows), entity, ResolveUser(Some(userId), authId))
    ensures table.targets == old(table.targets)
    ensures HasFavorited(table, userId, entity, authId) == !old(HasFavorited(table, userId, entity, authId))
  {
    table.ToggleFavorite(entity, Some(userId), authId);
  }

  /** Adding a favorite for the user lists the entity under its type when it
      exists, and changes nothing else in any listing. */
  lemma ListingAfterAdd(rows: seq<Row>, targets: set<Target>, userId: UserId, t: Target, kind: string)
    ensures FavoritesOfType(rows + [NewFavorite(Some(userId), t)], targets, userId, kind).Keys
         == FavoritesOfType(rows, targets, userId, kind).Keys + (if t.kind == kind && t in targets then {t.id} else {})
  {
    var before := FavoritesOfType(rows, targets, userId, kind);
    var after := FavoritesOfType(rows + [NewFavorite(Some(userId), t)], targets, userId, kind);
    var extra: set<int> := if t.kind == kind && t in targets then {t.id} else {};
    assert forall id :: id in after.Keys <==> id in before.Keys + extra;
  }

  /** Removing the user's favorite of `t` drops `t` from the listing of its
      type and changes nothing else. */
  lemma ListingAfterRemove(rows: seq<Row>, targets: set<Target>, userId: UserId, t: Target, kind: string)
    ensures FavoritesOfType(Removed(rows, t, Some(userId)), targets, userId, kind).Keys
         == FavoritesOfType(rows, targets, userId, kind).Keys - (if t.kind == kind then {t.id} else {})
  {
    var before := FavoritesOfType(rows, targets, userId, kind);
    var after := FavoritesOfType(Removed(rows, t, Some(userId)), targets, userId, kind);
    var gone: set<int> := if t.kind == kind then {t.id} else {};
    assert forall id :: id in after.Keys <==> id in before.Keys - gone;
  }

  /** Deleting `t` (the entity goes, and its rows with it) drops it from
      every user's listing and leaves everything else listed. */
  lemma ListingAfterDelete(rows: seq<Row>, targets: set<Target>, userId: UserId, t: Target, kind: string)
    ensures FavoritesOfType(Cascaded(rows, t), targets - {t}, userId, kind).Keys
         == FavoritesOfType(rows, targets, userId, kind).Keys - (if t.kind == kind then {t.id} else {})
  {
    var before := FavoritesOfType(rows, targets, userId, kind);
    var gone: set<int> := if t.kind == kind then {t.id} else {};
    forall id ensures id in before.Keys - gone <==>
                        (Target(kind, id) in targets - {t} && NewFavorite(Some(userId), Target(kind, id)) in Cascaded(rows, t)) {
      var y := NewFavorite(Some(userId), Target(kind, id));
      assert y.Favoriteable() == Target(kind, id);
    }
    ListingKeys(Cascaded(rows, t), targets - {t}, userId, kind, before.Keys - gone);
  }

  /** The listing skips a missing entity on its own: once `t` is gone, the
      listing is the same whether or not the deleted hook removed its rows. */
  lemma ListingSkipsMissing(rows: seq<Row>, targets: set<Target>, userId: UserId, t: Target, kind: string)
    ensures FavoritesOfType(rows, targets - {t}, userId, kind) == FavoritesOfType(Cascaded(rows, t), targets - {t}, userId, kind)
  {
    var unpruned := FavoritesOfType(rows, targets - {t}, userId, kind);
    var pruned := FavoritesOfType(Cascaded(rows, t), targets - {t}, userId, kind);
    assert forall id :: id in unpruned <==> id in pruned;
  }

  /** A user with no rows has an empty listing for every type. */
  lemma ListingEmpty(rows: seq<Row>, targets: set<Target>, userId: UserId, kind: string)
    requires forall x :: x in rows ==> x.userId != Some(userId)
    ensures FavoritesOfType(rows, targets, userId, kind) == map[]
  {
    var m := FavoritesOfType(rows, targets, userId, kind);
    assert m.Keys == {};
  }

  /** The table after `a`, `b`, `c`, `d` and `e` are favorited in that
      order, each save storing `u` as the row's `user_id`. */
  function FiveFavorites(rows: seq<Row>, u: Option<UserId>, a: Target, b: Target, c: Target, d: Target, e: Target): (r: seq<Row>)
    ensures forall x :: x in r <==> x in rows || x in [NewFavorite(u, a), NewFavorite(u, b), NewFavorite(u, c),
                                                      NewFavorite(u, d), NewFavorite(u, e)]
  {
    rows + [NewFavorite(u, a)] + [NewFavorite(u, b)] + [NewFavorite(u, c)] + [NewFavorite(u, d)] + [NewFavorite(u, e)]
  }

  /** The listing is determined by which existing entities of the type the
      user has a row for. */
  lemma ListingKeys(rows: seq<Row>, targets: set<Target>, userId: UserId, kind: string, ids: set<int>)
    requires forall id :: id in ids <==> Target(kind, id) in targets && NewFavorite(Some(userId), Target(kind, id)) in rows
    ensures FavoritesOfType(rows, targets, userId, kind).Keys == ids
  {
    var m := FavoritesOfType(rows, targets, userId, kind);
    assert forall id :: id in m.Keys <==> id in ids;
  }

  /** A user with a non-zero id and no favorites adds three existing
      Articles and two existing Posts through its own addFavorite, which
      stores `ResolveUser(Some(userId), authId)`: the Article listing has
      exactly those three ids. */
  lemma ArticlesListed(
    rows: seq<Row>, targets: set<Target>, userId: UserId, authId: Option<UserId>,
    article: string, post: string, a1: int, a2: int, a3: int, p1: int, p2: int)
    requires userId != 0
    requires article != post
    requires a1 != a2 && a1 != a3 && a2 != a3
    requires Target(article, a1) in targets && Target(article, a2) in targets && Target(article, a3) in targets
    requires forall x :: x in rows ==> x.userId != Some(userId)
    ensures var added := FiveFavorites(rows, ResolveUser(Some(userId), authId),
                                       Target(article, a1), Target(article, a2), Target(article, a3),
                                       Target(post, p1), Target(post, p2));
            && FavoritesOfType(added, targets, userId, article).Keys == {a1, a2, a3}
            && |FavoritesOfType(added, targets, userId, article)| == 3
  {
    var u := ResolveUser(Some(userId), authId);
    assert u == Some(userId);
    var added := FiveFavorites(rows, u, Target(article, a1), Target(article, a2), Target(article, a3),
                               Target(post, p1), Target(post, p2));
    forall id ensures id in {a1, a2, a3} <==> Target(article, id) in targets && NewFavorite(Some(userId), Target(article, id)) in added {
      var y := NewFavorite(Some(userId), Target(article, id));
      assert y !in rows;
      assert y in added <==> id == a1 || id == a2 || id == a3;
    }
    ListingKeys(added, targets, userId, article, {a1, a2, a3});
    SizeThree(FavoritesOfType(added, targets, userId, article), a1, a2, a3);
  }

  /** ... and the Post listing has exactly those two ids. */
  lemma PostsListed(
    rows: seq<Row>, targets: set<Target>, userId: UserId, authId: Option<UserId>,
    article: string, post: string, a1: int, a2: int, a3: int, p1: int, p2: int)
    requires userId != 0
    requires article != post
    requires p1 != p2
    requires Target(post, p1) in targets && Target(post, p2) in targets
    requires forall x :: x in rows ==> x.userId != Some(userId)
    ensures var added := FiveFavorites(rows, ResolveUser(Some(userId), authId),
                                       Target(article, a1), Target(article, a2), Target(article, a3),
                                       Target(post, p1), Target(post, p2));
            && FavoritesOfType(added, targets, userId, post).Keys == {p1, p2}
            && |FavoritesOfType(added, targets, userId, post)| == 2
  {
    var u := ResolveUser(Some(userId), authId);
    assert u == Some(userId);
    var added := FiveFavorites(rows, u, Target(article, a1), Target(article, a2), Target(article, a3),
                               Target(post, p1), Target(post, p2));
    forall id ensures id in {p1, p2} <==> Target(post, id) in targets && NewFavorite(Some(userId), Target(post, id)) in added {
      var y := NewFavorite(Some(userId), Target(post, id));
      assert y !in rows;
      assert y in added <==> id == p1 || id == p2;
    }
    ListingKeys(added, targets, userId, post, {p1, p2});
    SizeTwo(FavoritesOfType(added, targets, userId, post), p1, p2);
  }

  /** Once the user removes all five again through its own removeFavorite,
      every listing of theirs is empty. */
  lemma AllRemovedListed(
    rows: seq<Row>, targets: set<Target>, userId: UserId, authId: Option<UserId>, kind: string,
    a: Target, b: Target, c: Target, d: Target, e: Target)
    requires userId != 0
    requires forall x :: x in rows ==> x.userId != Some(userId)
    ensures var u := ResolveUser(Some(userId), authId);
            var added := FiveFavorites(rows, u, a, b, c, d, e);
            var removed := Removed(Removed(Removed(Removed(Removed(added, a, u), b, u), c, u), d, u), e, u);
            FavoritesOfType(removed, targets, userId, kind) == map[]
  {
    var u := ResolveUser(Some(userId), authId);
    assert u == Some(userId);
    var added := FiveFavorites(rows, u, a, b, c, d, e);
    var r1 := Removed(added, a, u);
    var r2 := Removed(r1, b, u);
    var r3 := Removed(r2, c, u);
    var r4 := Removed(r3, d, u);
    var removed := Removed(r4, e, u);
    assert forall x :: x in removed ==> x in added && x !in [NewFavorite(u, a), NewFavorite(u, b),
                                                             NewFavorite(u, c), NewFavorite(u, d),
                                                             NewFavorite(u, e)];
    ListingEmpty(removed, targets, userId, kind);
  }

  /** A user with a non-zero id favorites two existing Articles and one of
      them is deleted (its rows go with it): the Article listing holds only
      the other one. */
  lemma DeletedNotListed(
    rows: seq<Row>, targets: set<Target>, userId: UserId, authId: Option<UserId>,
    article: string, a1: int, a2: int)
    requires userId != 0
    requires a1 != a2
    requires Target(article, a1) in targets && Target(article, a2) in targets
    requires forall x :: x in rows ==> x.userId != Some(userId)
    ensures var u := ResolveUser(Some(userId), authId);
            var added := rows + [NewFavorite(u, Target(article, a1))] + [NewFavorite(u, Target(article, a2))];
            var listed := FavoritesOfType(Cascaded(added, Target(article, a1)), targets - {Target(article, a1)}, userId, article);
            listed.Keys == {a2} && |listed| == 1
  {
    var u := ResolveUser(Some(userId), authId);
    assert u == Some(userId);
    var t := Target(article, a1);
    var added := rows + [NewFavorite(u, t)] + [NewFavorite(u, Target(article, a2))];
    var after := Cascaded(added, t);
    forall id ensures id in {a2} <==> Target(article, id) in targets - {t} && NewFavorite(Some(userId), Target(article, id)) in after {
      var y := NewFavorite(Some(userId), Target(article, id));
      assert y !in rows;
      assert y.Favoriteable() == Target(article, id);
    }
    ListingKeys(after, targets - {t}, userId, article, {a2});
    var listed := FavoritesOfType(after, targets - {t}, userId, article);
    assert |listed.Keys| == |{a2}|;
  }

  /** Why the scenarios above need a non-zero id: a user whose id is 0 hands
      a falsy id to the entity, so its addFavorite stores the authenticated
      user's id, and the entity does not appear in the user's own listing. */
  lemma ZeroIdNotListed(rows: seq<Row>, targets: set<Target>, authId: Option<UserId>, t: Target)
    requires authId != Some(0)
    requires forall x :: x in rows ==> x.userId != Some(0)
    ensures FavoritesOfType(rows + [NewFavorite(ResolveUser(Some(0), authId), t)], targets, 0, t.kind) == map[]
  {
    var u := ResolveUser(Some(0), authId);
    assert u == authId;
    ListingEmpty(rows + [NewFavorite(u, t)], targets, 0, t.kind);
  }
}
