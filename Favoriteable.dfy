/** The favoriteable side: what an entity that can be favorited offers.
    The entity itself is a `Target` value; the rows it reads and writes and the
    set of entities that currently exist live in a `Table` object, whose
    methods are the trait's mutators. The queries are functions of the rows. */
module Favoriteable {
  import opened Favorite

  /** PHP truthiness of an optional integer id: null and 0 are false. */
  predicate Truthy(v: Option<UserId>): (b: bool)
    ensures !b <==> v == None || v == Some(0)
  {
    v.Some? && v.value != 0
  }

  /** `$user_id ? $user_id : Auth::id()`: a truthy explicit id wins; a missing
      or zero id falls back to the authenticated user's id, which is null
      when nobody is logged in. */
  function ResolveUser(given: Option<UserId>, authId: Option<UserId>): (u: Option<UserId>)
    ensures u == given || u == authId
    ensures given.Some? && given.value != 0 ==> u == given
    ensures given == None || given == Some(0) ==> u == authId
  {
    if Truthy(given) then given else authId
  }

  /** favorites(): the morph-many relation, the rows whose type and key
      name `t`. */
  function FavoritesOf(rows: seq<Row>, t: Target): (r: seq<Row>)
    ensures forall x :: x in r <==> x in rows && x.Favoriteable() == t
  {
    Where(rows, TargetIs(t))
  }

  /** isFavorited through a query: favorites()->where('user_id', u)->exists().
      It holds exactly when the row (u, t) is in the table. */
  function IsFavoritedQuery(rows: seq<Row>, t: Target, u: Option<UserId>): (b: bool)
    ensures b <==> NewFavorite(u, t) in rows
  {
    ExistsWhere(rows, FavoriteCond(u, t))
  }

  /** isFavorited on an entity whose favorites are already loaded: the
      loaded collection's contains('user_id', u). Same answer as the query. */
  function IsFavoritedLoaded(rows: seq<Row>, t: Target, u: Option<UserId>): (b: bool)
    ensures b <==> NewFavorite(u, t) in rows
    ensures b == IsFavoritedQuery(rows, t, u)
  {
    ExistsWhere(FavoritesOf(rows, t), UserIs(u))
  }

  /** favoritesCount(): the number of rows naming `t`, counted by the query
      or as the size of the loaded relation (the two agree). Zero exactly when
      no row names `t`. */
  function FavoritesCount(rows: seq<Row>, t: Target): (n: nat)
    ensures n == |FavoritesOf(rows, t)|
    ensures n == 0 <==> forall x :: x in rows ==> x.Favoriteable() != t
  {
    var favs := FavoritesOf(rows, t);
    assert favs != [] ==> favs[0] in favs;
    CountWhere(rows, TargetIs(t))
  }

  /** The distinct non-null user ids found in some rows. */
  function UserIdsOf(favs: seq<Row>): (ids: set<UserId>)
    ensures forall k :: k in ids <==> exists x :: x in favs && x.userId == Some(k)
    ensures |ids| <= |favs|
  {
    if favs == [] then {}
    else
      var head: set<UserId> := if favs[0].userId.Some? then {favs[0].userId.value} else {};
      assert forall x :: x in favs <==> x == favs[0] || x in favs[1..];
      head + UserIdsOf(favs[1..])
  }

  /** favoritedBy(): the users with a row for `t`, keyed by user id (a user
      is modelled by its id). A user appears exactly when it has favorited
      `t`, once however many rows it has, so there are never more entries
      than rows. */
  function FavoritedBy(rows: seq<Row>, t: Target): (m: map<UserId, UserId>)
    ensures forall k :: k in m <==> NewFavorite(Some(k), t) in rows
    ensures forall k :: k in m ==> m[k] == k
    ensures |m| <= FavoritesCount(rows, t)
  {
    var favs := FavoritesOf(rows, t);
    var ids := UserIdsOf(favs);
    assert forall k :: k in ids <==> NewFavorite(Some(k), t) in rows by {
      forall k ensures k in ids <==> NewFavorite(Some(k), t) in rows {
        if k in ids {
          var x :| x in favs && x.userId == Some(k);
          assert x == NewFavorite(Some(k), t);
        }
        if NewFavorite(Some(k), t) in rows {
          assert NewFavorite(Some(k), t) in favs;
        }
      }
    }
    var m := map k | k in ids :: k;
    assert m.Keys == ids;
    m
  }

  /** removeFavorite's statement, favorites()->where('user_id', u)->delete():
      every copy of the row (u, t) goes and every other row stays. */
  function Removed(rows: seq<Row>, t: Target, u: Option<UserId>): (r: seq<Row>)
    ensures forall x :: x in r <==> x in rows && x != NewFavorite(u, t)
  {
    DeleteWhere(rows, FavoriteCond(u, t))
  }

  /** The deleted hook's statement, favorites()->delete(): every row naming
      `t` goes, whoever the user, and every other row stays. */
  function Cascaded(rows: seq<Row>, t: Target): (r: seq<Row>)
    ensures forall x :: x in r <==> x in rows && x.Favoriteable() != t
  {
    DeleteWhere(rows, TargetIs(t))
  }

  /** toggleFavorite on the rows: remove when favorited, add otherwise. The
      favorited status of (u, t) flips and no other row comes or goes. */
  function Toggled(rows: seq<Row>, t: Target, u: Option<UserId>): (r: seq<Row>)
    ensures NewFavorite(u, t) in r <==> NewFavorite(u, t) !in rows
    ensures forall x :: x != NewFavorite(u, t) ==> (x in r <==> x in rows)
  {
    if IsFavoritedQuery(rows, t, u) then Removed(rows, t, u)
    else rows + [NewFavorite(u, t)]
  }

  /** Removing leaves every other row with all its copies, duplicates
      included. */
  lemma RemovedKeepsOthers(rows: seq<Row>, t: Target, u: Option<UserId>, x: Row)
    requires x != NewFavorite(u, t)
    ensures multiset(Removed(rows, t, u))[x] == multiset(rows)[x]
  {
    WhereMultiset(rows, Not(FavoriteCond(u, t)), x);
  }

  /** The deleted hook leaves every row of another entity with all its
      copies. */
  lemma CascadeKeepsCopies(rows: seq<Row>, t: Target, x: Row)
    requires x.Favoriteable() != t
    ensures multiset(Cascaded(rows, t))[x] == multiset(rows)[x]
  {
    WhereMultiset(rows, Not(TargetIs(t)), x);
  }

  /** Adding appends one row: the count of its entity rises by one, every
      other entity's count stays. */
  lemma {:induction false} AddCount(rows: seq<Row>, t: Target, u: Option<UserId>, s: Target)
    ensures FavoritesCount(rows + [NewFavorite(u, t)], s)
         == FavoritesCount(rows, s) + (if s == t then 1 else 0)
  {
    WhereAppend(rows, [NewFavorite(u, t)], TargetIs(s));
    assert [NewFavorite(u, t)][1..] == [];
  }

  /** addFavorite checks nothing: adding the same pair twice leaves two
      copies of the row and raises the count by two. */
  lemma {:induction false} AddTwice(rows: seq<Row>, t: Target, u: Option<UserId>)
    ensures var twice := rows + [NewFavorite(u, t)] + [NewFavorite(u, t)];
            && multiset(twice)[NewFavorite(u, t)] == multiset(rows)[NewFavorite(u, t)] + 2
            && FavoritesCount(twice, t) == FavoritesCount(rows, t) + 2
  {
    AddCount(rows, t, u, t);
    AddCount(rows + [NewFavorite(u, t)], t, u, t);
  }

  /** Removing takes away exactly the copies of (u, t) from the count of t;
      the count of every other entity stays. */
  lemma {:induction false} RemovedCount(rows: seq<Row>, t: Target, u: Option<UserId>, s: Target)
    ensures FavoritesCount(Removed(rows, t, u), s)
         == FavoritesCount(rows, s) - (if s == t then multiset(rows)[NewFavorite(u, t)] else 0)
  {
    var m := FavoriteCond(u, t);
    var kept := Removed(rows, t, u);
    assert kept == Where(rows, Not(m));
    WhereWhere(rows, Not(m), TargetIs(s));
    assert FavoritesCount(kept, s) == |Where(rows, And(Not(m), TargetIs(s)))|;
    if s == t {
      WhereSplit(rows, TargetIs(t), m);
      WhereOne(rows, And(TargetIs(t), m), NewFavorite(u, t));
      WhereSame(rows, And(Not(m), TargetIs(t)), And(TargetIs(t), Not(m)));
    } else {
      WhereSame(rows, And(Not(m), TargetIs(s)), TargetIs(s));
    }
  }

  /** Removing a favorite that is not there leaves the table as it was. */
  lemma {:induction false} RemoveAbsent(rows: seq<Row>, t: Target, u: Option<UserId>)
    requires NewFavorite(u, t) !in rows
    ensures Removed(rows, t, u) == rows
  {
    WhereAll(rows, Not(FavoriteCond(u, t)));
  }

  /** Removing the one copy of (u, t) that was appended after `before` and
      before `after` gives back exactly `before + after`. */
  lemma {:induction false} RemoveInserted(before: seq<Row>, t: Target, u: Option<UserId>, after: seq<Row>)
    requires NewFavorite(u, t) !in before && NewFavorite(u, t) !in after
    ensures Removed(before + [NewFavorite(u, t)] + after, t, u) == before + after
  {
    var c := Not(FavoriteCond(u, t));
    var y := NewFavorite(u, t);
    assert Where([y], c) == [] by {
      assert !Matches(c, y);
      assert [y][1..] == [];
    }
    WhereAll(before, c);
    WhereAll(after, c);
    WhereAppend(before, [y], c);
    assert Where(before + [y], c) == before;
    WhereAppend(before + [y], after, c);
  }

  /** The deleted hook leaves no row for `t` and leaves the rows of every
      other entity, in order, as they were; that includes an entity of
      another type that has the same key. */
  lemma {:induction false} CascadeKeepsOthers(rows: seq<Row>, t: Target, s: Target)
    ensures FavoritesCount(Cascaded(rows, t), t) == 0
    ensures s != t ==> FavoritesOf(Cascaded(rows, t), s) == FavoritesOf(rows, s)
  {
    var kept := Cascaded(rows, t);
    assert kept == Where(rows, Not(TargetIs(t)));
    assert FavoritesCount(kept, t) == 0 by {
      forall x | x in kept ensures x.Favoriteable() != t {
        assert !Matches(TargetIs(t), x);
      }
    }
    if s != t {
      WhereWhere(rows, Not(TargetIs(t)), TargetIs(s));
      WhereSame(rows, And(Not(TargetIs(t)), TargetIs(s)), TargetIs(s));
    }
  }

  /** Toggling changes the count of t by one when the pair was absent, and
      removes all its copies when it was present. */
  lemma {:induction false} ToggledCount(rows: seq<Row>, t: Target, u: Option<UserId>)
    ensures FavoritesCount(Toggled(rows, t, u), t)
         == if NewFavorite(u, t) in rows
            then FavoritesCount(rows, t) - multiset(rows)[NewFavorite(u, t)]
            else FavoritesCount(rows, t) + 1
  {
    if NewFavorite(u, t) in rows {
      RemovedCount(rows, t, u, t);
    } else {
      AddCount(rows, t, u, t);
    }
  }

  /** Toggling twice from the unfavorited state restores the table exactly. */
  lemma {:induction false} ToggleTwice(rows: seq<Row>, t: Target, u: Option<UserId>)
    requires NewFavorite(u, t) !in rows
    ensures Toggled(Toggled(rows, t, u), t, u) == rows
  {
    RemoveInserted(rows, t, u, []);
    assert rows + [NewFavorite(u, t)] + [] == rows + [NewFavorite(u, t)];
    assert rows + [] == rows;
  }

  /** Toggling a pair that is absent appends its row. */
  lemma ToggleAbsent(rows: seq<Row>, t: Target, u: Option<UserId>)
    requires NewFavorite(u, t) !in rows
    ensures Toggled(rows, t, u) == rows + [NewFavorite(u, t)]
  {
  }

  /** Three different users toggle an entity nobody had favorited: each
      toggle appends that user's row. */
  lemma {:induction false} ThreeUsersToggle(rows: seq<Row>, t: Target)
    requires forall x :: x in rows ==> x.Favoriteable() != t
    ensures Toggled(Toggled(Toggled(rows, t, Some(1)), t, Some(2)), t, Some(3))
         == rows + [NewFavorite(Some(1), t)] + [NewFavorite(Some(2), t)] + [NewFavorite(Some(3), t)]
  {
    var a, b := NewFavorite(Some(1), t), NewFavorite(Some(2), t);
    ToggleAbsent(rows, t, Some(1));
    ToggleAbsent(rows + [a], t, Some(2));
    ToggleAbsent(rows + [a] + [b], t, Some(3));
  }

  /** ... after which the entity is counted three times ... */
  lemma {:induction false} ThreeUsersCounted(rows: seq<Row>, t: Target)
    requires forall x :: x in rows ==> x.Favoriteable() != t
    ensures FavoritesCount(rows + [NewFavorite(Some(1), t)] + [NewFavorite(Some(2), t)] + [NewFavorite(Some(3), t)], t) == 3
  {
    var a, b := NewFavorite(Some(1), t), NewFavorite(Some(2), t);
    AddCount(rows, t, Some(1), t);
    AddCount(rows + [a], t, Some(2), t);
    AddCount(rows + [a] + [b], t, Some(3), t);
  }

  /** ... and favorited by three users. */
  lemma {:induction false} ThreeUsersFavoritedBy(rows: seq<Row>, t: Target)
    requires forall x :: x in rows ==> x.Favoriteable() != t
    ensures |FavoritedBy(rows + [NewFavorite(Some(1), t)] + [NewFavorite(Some(2), t)] + [NewFavorite(Some(3), t)], t)| == 3
  {
    var once := rows + [NewFavorite(Some(1), t)] + [NewFavorite(Some(2), t)] + [NewFavorite(Some(3), t)];
    assert forall k :: NewFavorite(Some(k), t) in once <==> k in {1, 2, 3};
    FavoritedByKeys(once, t, {1, 2, 3});
    SizeThree(FavoritedBy(once, t), 1, 2, 3);
  }

  /** The users favoriting `t` are exactly the ones with a row for it. */
  lemma FavoritedByKeys(rows: seq<Row>, t: Target, users: set<UserId>)
    requires forall k :: NewFavorite(Some(k), t) in rows <==> k in users
    ensures FavoritedBy(rows, t).Keys == users
  {
    var m := FavoritedBy(rows, t);
    assert forall k :: k in m.Keys <==> k in users;
  }

  /** After the three toggles above each user toggles again: the table is
      back where it started, with count zero and nobody favoriting. */
  lemma {:induction false} ThreeUsersToggleBack(rows: seq<Row>, t: Target)
    requires forall x :: x in rows ==> x.Favoriteable() != t
    ensures var once := rows + [NewFavorite(Some(1), t)] + [NewFavorite(Some(2), t)] + [NewFavorite(Some(3), t)];
            var twice := Toggled(Toggled(Toggled(once, t, Some(1)), t, Some(2)), t, Some(3));
            && twice == rows
            && FavoritesCount(twice, t) == 0
            && FavoritedBy(twice, t) == map[]
  {
    var a, b, c := NewFavorite(Some(1), t), NewFavorite(Some(2), t), NewFavorite(Some(3), t);
    assert rows + [a] + [b] + [c] == rows + [a] + [b, c];
    RemoveInserted(rows, t, Some(1), [b, c]);
    assert rows + [b, c] == rows + [b] + [c];
    RemoveInserted(rows, t, Some(2), [c]);
    ToggleTwice(rows, t, Some(3));
    FavoritedByKeys(rows, t, {});
  }

  /** The favorites table together with the entities that currently exist.
      Its methods are the favoriteable trait's mutators; `t` is the entity
      the trait's `$this` stands for. */
  class Table {
    var rows: seq<Row>
    var targets: set<Target>

    /** An empty favorites table beside the given existing entities. */
    constructor (existing: set<Target>)
      ensures rows == [] && targets == existing
    {
      rows := [];
      targets := existing;
    }

    /** isFavorited($user_id): whether the resolved user has a row for `t`. */
    function IsFavorited(t: Target, userId: Option<UserId>, authId: Option<UserId>): (b: bool)
      reads this
      ensures b <==> NewFavorite(ResolveUser(userId, authId), t) in rows
    {
      IsFavoritedQuery(rows, t, ResolveUser(userId, authId))
    }

    /** addFavorite($user_id): saves one new row for the resolved user,
        without looking for an existing one. */
    method AddFavorite(t: Target, userId: Option<UserId>, authId: Option<UserId>)
      modifies this
      ensures rows == old(rows) + [NewFavorite(ResolveUser(userId, authId), t)]
      ensures targets == old(targets)
      ensures IsFavorited(t, userId, authId)
      ensures FavoritesCount(rows, t) == old(FavoritesCount(rows, t)) + 1
    {
      var u := ResolveUser(userId, authId);
      AddCount(rows, t, u, t);
      rows := rows + [NewFavorite(u, t)];
    }

    /** removeFavorite($user_id): deletes every row of the resolved user for
        `t`; a no-op when there is none. */
    method RemoveFavorite(t: Target, userId: Option<UserId>, authId: Option<UserId>)
      modifies this
      ensures rows == Removed(old(rows), t, ResolveUser(userId, authId))
      ensures targets == old(targets)
      ensures !IsFavorited(t, userId, authId)
      ensures !old(IsFavorited(t, userId, authId)) ==> rows == old(rows)
    {
      var u := ResolveUser(userId, authId);
      if NewFavorite(u, t) !in rows {
        RemoveAbsent(rows, t, u);
      }
      rows := Removed(rows, t, u);
    }

    /** toggleFavorite($user_id): removes when favorited, adds otherwise, so
        the favorited status of the resolved user flips. */
    method ToggleFavorite(t: Target, userId: Option<UserId>, authId: Option<UserId>)
      modifies this
      ensures rows == Toggled(old(rows), t, ResolveUser(userId, authId))
      ensures targets == old(targets)
      ensures IsFavorited(t, userId, authId) == !old(IsFavorited(t, userId, authId))
    {
      if IsFavorited(t, userId, authId) {
        RemoveFavorite(t, userId, authId);
      } else {
        AddFavorite(t, userId, authId);
      }
    }

    /** Deleting the entity `t`. Deleting a model that does not exist does
        nothing; otherwise the entity is gone and the deleted hook removes
        every row naming it, leaving every other entity's rows as they were. */
    method Delete(t: Target)
      modifies this
      ensures targets == old(targets) - {t}
      ensures rows == if t in old(targets) then Cascaded(old(rows), t) else old(rows)
      ensures t in old(targets) ==> FavoritesCount(rows, t) == 0
      ensures forall s :: s != t ==> FavoritesOf(rows, s) == FavoritesOf(old(rows), s)
    {
      if t in targets {
        forall s | s != t
          ensures FavoritesOf(Cascaded(rows, t), s) == FavoritesOf(rows, s)
        {
          CascadeKeepsOthers(rows, t, s);
        }
        CascadeKeepsOthers(rows, t, t);
        targets := targets - {t};
        rows := Cascaded(rows, t);
      }
    }
  }
}
