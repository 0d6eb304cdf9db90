/** The `favorites` table and the statements the two traits run against it.
    A row records that one user favorites one entity; the entity is named
    polymorphically by its class (`favoriteable_type`) and its key
    (`favoriteable_id`). The store-generated `id` and the timestamps are not
    modelled. A WHERE clause is a value of `Cond`, so that the traits' queries
    are first-order data the lemmas below can reason about. */
module Favorite {

  datatype Option<T> = None | Some(value: T)

  /** Users are identified by their integer key. */
  type UserId = int

  /** A favoriteable entity as the morph columns see it: class name and key. */
  datatype Target = Target(kind: string, id: int)

  /** One row of the table. `user_id` may be NULL: an unauthenticated call
      without an explicit user stores the missing id as it is. */
  datatype Row = Row(userId: Option<UserId>, favoriteableType: string, favoriteableId: int)
  {
    /** The entity this row points at (the `favoriteable` morph relation). */
    function Favoriteable(): Target {
      Target(favoriteableType, favoriteableId)
    }
  }

  /** The row that saving `new Favorite(['user_id' => u])` through the
      entity's morph relation produces: the relation fills in the type and key. */
  function NewFavorite(u: Option<UserId>, t: Target): (r: Row)
    ensures r.userId == u && r.Favoriteable() == t
  {
    Row(u, t.kind, t.id)
  }

  /** The WHERE clauses used by the traits. */
  datatype Cond =
    | TargetIs(t: Target)          // the morph relation's own constraint
    | UserIs(u: Option<UserId>)    // where('user_id', u); a null u is `IS NULL`
    | TypeIs(kind: string)         // where('favoriteable_type', kind)
    | And(left: Cond, right: Cond)
    | Not(cond: Cond)

  /** The WHERE clause for one user's favorite of one entity,
      where('user_id', u) on the entity's morph relation; it picks out
      exactly the row (u, t). */
  function FavoriteCond(u: Option<UserId>, t: Target): (c: Cond)
    ensures forall x :: Matches(c, x) <==> x == NewFavorite(u, t)
  {
    And(TargetIs(t), UserIs(u))
  }

  predicate Matches(c: Cond, x: Row) {
    match c
    case TargetIs(t) => x.Favoriteable() == t
    case UserIs(u) => x.userId == u
    case TypeIs(kind) => x.favoriteableType == kind
    case And(l, r) => Matches(l, x) && Matches(r, x)
    case Not(d) => !Matches(d, x)
  }

  /** SELECT ... WHERE c: the matching rows in table order and nothing
      else (WhereMultiset below: each with its full multiplicity). */
  function Where(rows: seq<Row>, c: Cond): (r: seq<Row>)
    ensures forall x :: x in r <==> x in rows && Matches(c, x)
    ensures |r| <= |rows|
  {
    if rows == [] then []
    else
      assert forall x :: x in rows <==> x == rows[0] || x in rows[1..];
      (if Matches(c, rows[0]) then [rows[0]] else []) + Where(rows[1..], c)
  }

  /** A selected row keeps every copy it has in the table. */
  lemma {:induction false} WhereMultiset(rows: seq<Row>, c: Cond, x: Row)
    ensures multiset(Where(rows, c))[x] == if Matches(c, x) then multiset(rows)[x] else 0
  {
    if rows != [] {
      assert rows == [rows[0]] + rows[1..];
      WhereMultiset(rows[1..], c, x);
    }
  }

  /** SELECT COUNT(*) ... WHERE c, counted without loading the rows; it
      equals the size of the loaded collection. */
  function CountWhere(rows: seq<Row>, c: Cond): (n: nat)
    ensures n == |Where(rows, c)|
  {
    if rows == [] then 0
    else (if Matches(c, rows[0]) then 1 else 0) + CountWhere(rows[1..], c)
  }

  /** SELECT EXISTS(... WHERE c). */
  function ExistsWhere(rows: seq<Row>, c: Cond): (b: bool)
    ensures b <==> exists x :: x in rows && Matches(c, x)
  {
    if rows == [] then false
    else if Matches(c, rows[0]) then
      assert rows[0] in rows;
      true
    else
      assert forall x :: x in rows ==> x == rows[0] || x in rows[1..];
      assert forall x :: x in rows[1..] ==> x in rows;
      ExistsWhere(rows[1..], c)
  }

  /** DELETE ... WHERE c: what stays is every row that does not match, in
      order; matching rows are gone. */
  function DeleteWhere(rows: seq<Row>, c: Cond): (r: seq<Row>)
    ensures forall x :: x in r <==> x in rows && !Matches(c, x)
  {
    Where(rows, Not(c))
  }

  /** Filtering distributes over concatenation of tables. */
  lemma {:induction false} WhereAppend(a: seq<Row>, b: seq<Row>, c: Cond)
    ensures Where(a + b, c) == Where(a, c) + Where(b, c)
  {
    if a == [] {
      assert a + b == b;
    } else {
      assert (a + b)[0] == a[0];
      assert (a + b)[1..] == a[1..] + b;
      WhereAppend(a[1..], b, c);
    }
  }

  /** A filter every row passes returns the table unchanged. */
  lemma {:induction false} WhereAll(rows: seq<Row>, c: Cond)
    requires forall x :: x in rows ==> Matches(c, x)
    ensures Where(rows, c) == rows
  {
    if rows != [] {
      WhereAll(rows[1..], c);
    }
  }

  /** Two conditions that agree on every row of the table select the same rows. */
  lemma {:induction false} WhereSame(rows: seq<Row>, c: Cond, d: Cond)
    requires forall x :: x in rows ==> (Matches(c, x) <==> Matches(d, x))
    ensures Where(rows, c) == Where(rows, d)
  {
    if rows != [] {
      WhereSame(rows[1..], c, d);
    }
  }

  /** Chaining two WHERE clauses is the same as their conjunction. */
  lemma {:induction false} WhereWhere(rows: seq<Row>, c: Cond, d: Cond)
    ensures Where(Where(rows, c), d) == Where(rows, And(c, d))
  {
    if rows != [] {
      var x, rest := rows[0], rows[1..];
      var head := if Matches(c, x) then [x] else [];
      assert Where(rows, c) == head + Where(rest, c);
      WhereAppend(head, Where(rest, c), d);
      WhereWhere(rest, c, d);
      assert Where(head, d) == if Matches(And(c, d), x) then [x] else [] by {
        if head != [] {
          assert head[1..] == [];
        }
      }
    }
  }

  /** Every row selected by `c` either also satisfies `d` or does not. */
  lemma {:induction false} WhereSplit(rows: seq<Row>, c: Cond, d: Cond)
    ensures |Where(rows, c)| == |Where(rows, And(c, d))| + |Where(rows, And(c, Not(d)))|
  {
    if rows != [] {
      var x, rest := rows[0], rows[1..];
      WhereSplit(rest, c, d);
      assert |Where(rows, c)| == (if Matches(c, x) then 1 else 0) + |Where(rest, c)|;
      assert |Where(rows, And(c, d))| == (if Matches(And(c, d), x) then 1 else 0) + |Where(rest, And(c, d))|;
      assert |Where(rows, And(c, Not(d)))| == (if Matches(And(c, Not(d)), x) then 1 else 0) + |Where(rest, And(c, Not(d)))|;
    }
  }

  /** A condition that singles out one row value selects exactly its copies. */
  lemma {:induction false} WhereOne(rows: seq<Row>, c: Cond, y: Row)
    requires forall x :: Matches(c, x) <==> x == y
    ensures |Where(rows, c)| == multiset(rows)[y]
  {
    if rows != [] {
      assert rows == [rows[0]] + rows[1..];
      WhereOne(rows[1..], c, y);
    }
  }

  // Proof helpers for the scenario lemmas; they say nothing about the table.

  /** Size of a map with three given distinct keys. */
  lemma SizeThree<K, V>(m: map<K, V>, a: K, b: K, c: K)
    requires a != b && a != c && b != c
    requires m.Keys == {a, b, c}
    ensures |m| == 3
  {
    assert |m.Keys| == |{a, b, c}|;
  }

  /** Size of a map with two given distinct keys. */
  lemma SizeTwo<K, V>(m: map<K, V>, a: K, b: K)
    requires a != b
    requires m.Keys == {a, b}
    ensures |m| == 2
  {
    assert |m.Keys| == |{a, b}|;
  }
}
