/**
 The two tables of the service, `users` and `urls`, as sequences of rows in
 insertion order, and the two query shapes every handler uses: a `WHERE`
 filter that keeps the matching rows in table order, and `rows[0]` of such a
 filter.  The predicates at the end are the table invariants that the
 find-or-insert handlers keep.
 */
module Store {
  import opened Wrappers

  /** A row of `users`: the serial id, the email and the password column. */
  datatype User = User(id: nat, email: string, password: string)

  /** A row of `urls`: the owner's id, the short code and the long link. */
  datatype Url = Url(userId: nat, shortKey: string, originalUrl: string)

  /** `SELECT ... WHERE keep`: the rows that satisfy `keep`, in table order. */
  function Where<T(==,!new)>(rows: seq<T>, keep: T -> bool): (r: seq<T>)
    ensures |r| <= |rows|
    ensures forall x {:trigger multiset(r)[x]} :: multiset(r)[x] == if keep(x) then multiset(rows)[x] else 0
    ensures forall x {:trigger x in r} :: x in r <==> x in rows && keep(x)
  {
    if rows == [] then []
    else
      var rest := Where(rows[1..], keep);
      assert rows == [rows[0]] + rows[1..];
      if keep(rows[0]) then [rows[0]] + rest else rest
  }

  /** `result.rows[0]` of a `WHERE` query, or nothing when no row matched. */
  function First<T(==,!new)>(rows: seq<T>, keep: T -> bool): (r: Option<T>)
    ensures r.None? <==> forall x :: x in rows ==> !keep(x)
    ensures r.Some? ==> r.value in rows && keep(r.value)
  {
    var hits := Where(rows, keep);
    if |hits| > 0 then
      assert hits[0] in hits;
      Some(hits[0])
    else
      assert forall x :: x in rows ==> (x in hits <==> keep(x));
      None
  }

  /** A filter that matches no row selects nothing. */
  lemma {:induction false} WhereNone<T(!new)>(rows: seq<T>, keep: T -> bool)
    requires forall x :: x in rows ==> !keep(x)
    ensures Where(rows, keep) == []
  {
    if rows != [] {
      assert rows[0] in rows;
      assert forall x :: x in rows[1..] ==> x in rows;
      WhereNone(rows[1..], keep);
    }
  }

  /** Filtering a concatenation filters each part. */
  lemma {:induction false} WhereAppend<T(!new)>(a: seq<T>, b: seq<T>, keep: T -> bool)
    ensures Where(a + b, keep) == Where(a, keep) + Where(b, keep)
  {
    if a == [] {
      assert a + b == b;
    } else {
      var ab := a + b;
      assert ab != [] && ab[0] == a[0] && ab[1..] == a[1..] + b;
      WhereAppend(a[1..], b, keep);
      var head := if keep(a[0]) then [a[0]] else [];
      assert Where(ab, keep) == head + Where(a[1..] + b, keep);
      assert Where(a, keep) == head + Where(a[1..], keep);
    }
  }

  /** A row appended after rows none of which matches is the first match. */
  lemma FirstOfAppended<T(!new)>(rows: seq<T>, keep: T -> bool, x: T)
    requires forall y :: y in rows ==> !keep(y)
    requires keep(x)
    ensures First(rows + [x], keep) == Some(x)
  {
  }

  function ByEmail(email: string): User -> bool {
    (u: User) => u.email == email
  }

  function ById(id: nat): User -> bool {
    (u: User) => u.id == id
  }

  function OwnedBy(id: nat): Url -> bool {
    (r: Url) => r.userId == id
  }

  function OwnedWithKey(id: nat, code: string): Url -> bool {
    (r: Url) => r.userId == id && r.shortKey == code
  }

  function OwnedWithLink(id: nat, link: string): Url -> bool {
    (r: Url) => r.userId == id && r.originalUrl == link
  }

  function KeyIsNot(code: string): Url -> bool {
    (r: Url) => r.shortKey != code
  }

  predicate EmailTaken(users: seq<User>, email: string) {
    exists u :: u in users && u.email == email
  }

  predicate HasUserWithId(users: seq<User>, id: nat) {
    exists u :: u in users && u.id == id
  }

  ghost predicate UniqueIds(users: seq<User>) {
    forall u, v :: u in users && v in users && u.id == v.id ==> u == v
  }

  ghost predicate UniqueEmails(users: seq<User>) {
    forall u, v :: u in users && v in users && u.email == v.email ==> u == v
  }

  /** No two `users` rows share an id or an email, and every id is below the next serial value. */
  ghost predicate UsersConsistent(users: seq<User>, nextId: nat) {
    && (forall u :: u in users ==> u.id < nextId)
    && UniqueIds(users)
    && UniqueEmails(users)
  }

  /** Each owner has at most one `urls` row per link, and no row appears twice. */
  ghost predicate OneRowPerLink(urls: seq<Url>) {
    && (forall r, s :: r in urls && s in urls && r.userId == s.userId && r.originalUrl == s.originalUrl ==> r == s)
    && (forall r :: multiset(urls)[r] <= 1)
  }

  /** The invariant of the two tables under the handlers of the service. */
  ghost predicate Consistent(users: seq<User>, urls: seq<Url>, nextId: nat) {
    && UsersConsistent(users, nextId)
    && (forall r :: r in urls ==> HasUserWithId(users, r.userId))
    && OneRowPerLink(urls)
  }

  /** Appending a row for an (owner, link) pair that has none keeps one row per link, and it is that pair's only row. */
  lemma AppendNewLink(urls: seq<Url>, row: Url)
    requires OneRowPerLink(urls)
    requires forall x :: x in urls ==> !(x.userId == row.userId && x.originalUrl == row.originalUrl)
    ensures OneRowPerLink(urls + [row])
    ensures Where(urls + [row], OwnedWithLink(row.userId, row.originalUrl)) == [row]
  {
    var keep := OwnedWithLink(row.userId, row.originalUrl);
    assert row !in urls;
    assert multiset(urls + [row]) == multiset(urls) + multiset{row};
    WhereAppend(urls, [row], keep);
    WhereNone(urls, keep);
    assert [row][1..] == [];
  }

  /** Under the invariant, an owner never has two rows for the same link. */
  lemma {:induction false} AtMostOneRowPerLink(urls: seq<Url>, id: nat, link: string)
    requires OneRowPerLink(urls)
    ensures |Where(urls, OwnedWithLink(id, link))| <= 1
  {
    if urls != [] {
      var h, t := urls[0], urls[1..];
      assert urls == [h] + t;
      assert multiset(urls) == multiset{h} + multiset(t);
      assert OneRowPerLink(t) by {
        forall r ensures multiset(t)[r] <= 1 {
          assert multiset(t)[r] <= multiset(urls)[r];
        }
      }
      if OwnedWithLink(id, link)(h) {
        assert multiset(urls)[h] == 1 + multiset(t)[h];
        assert forall y :: y in t ==> y != h;
        WhereNone(t, OwnedWithLink(id, link));
        assert Where(urls, OwnedWithLink(id, link)) == [h] + Where(t, OwnedWithLink(id, link));
      } else {
        AtMostOneRowPerLink(t, id, link);
      }
    }
  }
}
