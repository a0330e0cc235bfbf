/**
 The read-only route handlers, `GET /dashboard`, `GET /submit` and `GET /:code`, and the
 duplicate query of `POST /submit`.  Each is a function of the current tables
 and of the session the request carries.
 */
module Routes {
  import opened Wrappers
  import opened Store
  import opened Http
  import opened Auth

  /** `GET /dashboard`: the rows whose `user_id` is the session user's id, or a redirect to login. */
  function Dashboard(users: seq<User>, urls: seq<Url>, session: Option<nat>): (r: Reply)
    ensures CurrentUser(users, session).None? ==> r == Redirect(LoginPage)
    ensures CurrentUser(users, session).Some? ==>
      && r.Render? && r.view == DashboardView
      && forall x :: multiset(r.rows)[x] == if x.userId == session.value then multiset(urls)[x] else 0
  {
    match CurrentUser(users, session)
    case None => Redirect(LoginPage)
    case Some(user) => Render(DashboardView, Where(urls, OwnedBy(user.id)))
  }

  /** `GET /submit`: the form for a logged-in user, the login page otherwise. */
  function SubmitForm(users: seq<User>, session: Option<nat>): (r: Reply)
    ensures r == Render(SubmitView, []) <==> CurrentUser(users, session).Some?
    ensures r != Render(SubmitView, []) ==> r == Redirect(LoginPage)
  {
    if CurrentUser(users, session).Some? then Render(SubmitView, []) else Redirect(LoginPage)
  }

  /**
   `GET /:code`: login first; then the link of the first row owned by the
   session user with that short code, or 404.
   */
  function Resolve(users: seq<User>, urls: seq<Url>, session: Option<nat>, code: string): (r: Reply)
    ensures CurrentUser(users, session).None? ==> r == Redirect(LoginPage)
    ensures CurrentUser(users, session).Some? && r != Send(404, NotFoundText) ==>
      exists x :: x in urls && x.userId == session.value && x.shortKey == code && r == Redirect(x.originalUrl)
    ensures CurrentUser(users, session).Some? && r == Send(404, NotFoundText) <==>
      CurrentUser(users, session).Some? &&
      forall x :: x in urls ==> !(x.userId == session.value && x.shortKey == code)
  {
    match CurrentUser(users, session)
    case None => Redirect(LoginPage)
    case Some(user) =>
      match First(urls, OwnedWithKey(user.id, code))
      case Some(row) => Redirect(row.originalUrl)
      case None => Send(404, NotFoundText)
  }

  /** ASCII case folding, as Express's case-insensitive path matching applies it to plain letters. */
  function Fold(c: char): char {
    if 'A' <= c <= 'Z' then (c as int + 32) as char else c
  }

  predicate SameFolded(a: string, b: string) {
    |a| == |b| && forall i :: 0 <= i < |a| ==> Fold(a[i]) == Fold(b[i])
  }

  /**
   A code that reaches `GET /:code` rather than a route registered before it:
   a non-empty segment that is not, ignoring case, one of the one-segment
   `GET` paths `/dashboard`, `/register`, `/login`, `/submit` and `/logout`.
   */
  predicate ReachesCodeRoute(code: string) {
    && code != ""
    && !SameFolded(code, "dashboard")
    && !SameFolded(code, "register")
    && !SameFolded(code, "login")
    && !SameFolded(code, "submit")
    && !SameFolded(code, "logout")
  }

  /** Paths of earlier routes, in any letter case, are not codes; an ordinary generated code is. */
  lemma CodeRouteExamples()
    ensures !ReachesCodeRoute("register") && !ReachesCodeRoute("Dashboard") && !ReachesCodeRoute("")
    ensures ReachesCodeRoute("x7Kq2Lp")
  {
  }

  /**
   Other owners' rows never influence `GET /:code`: resolving against the
   whole table or against the session user's own rows gives the same answer,
   even for a code that another owner also holds.
   */
  lemma ResolveSeesOnlyOwnRows(users: seq<User>, urls: seq<Url>, id: nat, code: string)
    ensures Resolve(users, urls, Some(id), code) == Resolve(users, Where(urls, OwnedBy(id)), Some(id), code)
  {
  }

  /**
   The duplicate test of `POST /submit`: `users INNER JOIN urls ON users.id =
   urls.user_id WHERE email = $1 AND original_url = $2`, as the `urls` part of
   each joined row.
   */
  function JoinKeep(users: seq<User>, email: string, link: string): Url -> bool {
    (x: Url) => x.originalUrl == link && exists u :: u in users && u.id == x.userId && u.email == email
  }

  function SubmitJoin(users: seq<User>, urls: seq<Url>, email: string, link: string): (r: seq<Url>)
    ensures forall x :: x in r <==>
      x in urls && x.originalUrl == link && exists u :: u in users && u.id == x.userId && u.email == email
  {
    Where(urls, JoinKeep(users, email, link))
  }

  /**
   With one row per email, joining on the session user's email finds exactly
   the rows that user owns for that link, although the insert uses the id.
   */
  lemma JoinFindsOwnRows(users: seq<User>, urls: seq<Url>, u: User, link: string)
    requires UniqueEmails(users) && u in users
    ensures forall x :: x in SubmitJoin(users, urls, u.email, link) <==>
      x in urls && x.userId == u.id && x.originalUrl == link
  {
  }
}
