/**
 Sequences of requests against one server: what a client observes across
 several calls, proved from the handlers' contracts and the lemmas about the
 tables and the session.
 */
module Scenarios {
  import opened Wrappers
  import opened Store
  import opened Http
  import opened Auth
  import opened Routes
  import opened App

  /** A second registration of the same email is refused, whatever its password, and changes nothing. */
  method RegisterTwice(s: Server, email: string, password: string, otherPassword: string,
                       bcryptHash: string -> Option<string>)
    returns (first: Reply, second: Reply)
    requires s.Valid()
    modifies s
    ensures s.Valid()
    ensures old(EmailTaken(s.users, email)) || bcryptHash(password).Some? ==>
      second == Send(200, AlreadyRegisteredText)
    ensures s.urls == old(s.urls)
    ensures old(EmailTaken(s.users, email)) ==> s.users == old(s.users)
    ensures !old(EmailTaken(s.users, email)) && bcryptHash(password).Some? ==>
      s.users == old(s.users) + [User(old(s.nextId), email, bcryptHash(password).value)]
  {
    first := s.Register(email, password, bcryptHash);
    if !old(EmailTaken(s.users, email)) && bcryptHash(password).Some? {
      assert s.users[|s.users| - 1] in s.users;
    }
    second := s.Register(email, otherPassword, bcryptHash);
  }

  /**
   Register, log in, shorten a link, follow the code, log out: the code leads
   to the link while the session lasts, and to the login page afterwards.
   Only a code that no earlier route shadows reaches the `/:code` handler.
   */
  method RegisterSubmitResolve(s: Server, email: string, password: string,
                               bcryptHash: string -> Option<string>,
                               compare: (string, string) -> Verdict, link: string, code: string)
    returns (followed: Reply, afterLogout: Reply)
    requires s.Valid() && !EmailTaken(s.users, email)
    requires email != "" && password != ""
    requires ReachesCodeRoute(code)
    requires bcryptHash(password).Some? && compare(password, bcryptHash(password).value) == Match
    modifies s
    ensures s.Valid()
    ensures followed == Redirect(link)
    ensures afterLogout == Redirect(LoginPage)
  {
    ghost var id := s.nextId;
    var registered := s.Register(email, password, bcryptHash);
    var newRow := User(id, email, bcryptHash(password).value);
    assert newRow in s.users;
    var loggedIn, session := s.Login(email, password, compare, None);
    var u :| CurrentUser(s.users, session) == Some(u) && u.email == email;
    assert u == newRow;
    ghost var before := s.urls;
    assert forall x :: x in before ==> x.userId != id by {
      forall x | x in before ensures x.userId != id {
        var v :| v in s.users && v.id == x.userId;
        assert v in old(s.users) || v == newRow;
        if v == newRow {
          assert HasUserWithId(old(s.users), x.userId);
        }
      }
    }
    var submitted := s.Submit(session, link, code);
    assert s.urls == before + [Url(id, code, link)];
    FirstOfAppended(before, OwnedWithKey(id, code), Url(id, code, link));
    followed := Resolve(s.users, s.urls, session, code);
    afterLogout := Resolve(s.users, s.urls, None, code);
  }

  /**
   Registration accepts an empty password and stores its hash, but the
   `local` strategy refuses an empty password before looking at any row, so
   such an account can never log in with a password.
   */
  method RegisterEmptyPassword(s: Server, email: string, attempt: string,
                               bcryptHash: string -> Option<string>,
                               compare: (string, string) -> Verdict, session: Option<nat>)
    returns (registered: Reply, loggedIn: Reply, session': Option<nat>)
    requires s.Valid() && email != "" && !EmailTaken(s.users, email)
    requires bcryptHash("").Some?
    modifies s
    ensures s.Valid()
    ensures registered == Redirect(DashboardPage)
    ensures User(old(s.nextId), email, bcryptHash("").value) in s.users
    ensures attempt == "" ==> loggedIn == Redirect(LoginPage) && session' == session
    ensures loggedIn == Redirect(DashboardPage) ==> attempt != ""
  {
    ghost var id := s.nextId;
    registered := s.Register(email, "", bcryptHash);
    assert s.users[|s.users| - 1] == User(id, email, bcryptHash("").value);
    loggedIn, session' := s.Login(email, attempt, compare, session);
  }

  /** Submitting the same link twice leaves one row for it, and the second submit writes nothing. */
  method SubmitTwice(s: Server, session: Option<nat>, link: string, code1: string, code2: string)
    returns (first: Reply, second: Reply)
    requires s.Valid() && CurrentUser(s.users, session).Some?
    modifies s
    ensures s.Valid()
    ensures |Where(s.urls, OwnedWithLink(session.value, link))| == 1
    ensures s.urls == old(s.urls) || s.urls == old(s.urls) + [Url(session.value, code1, link)]
  {
    first := s.Submit(session, link, code1);
    ghost var between := s.urls;
    var w := Where(s.urls, OwnedWithLink(session.value, link));
    assert w[0] in w;
    second := s.Submit(session, link, code2);
    assert s.urls == between;
  }

  /** Two users who shorten the same link each own one row for it. */
  method SameLinkTwoUsers(s: Server, alice: nat, bob: nat, link: string, code1: string, code2: string)
    requires s.Valid() && alice != bob
    requires CurrentUser(s.users, Some(alice)).Some? && CurrentUser(s.users, Some(bob)).Some?
    modifies s
    ensures s.Valid()
    ensures |Where(s.urls, OwnedWithLink(alice, link))| == 1
    ensures |Where(s.urls, OwnedWithLink(bob, link))| == 1
  {
    var r1 := s.Submit(Some(alice), link, code1);
    ghost var between := s.urls;
    var r2 := s.Submit(Some(bob), link, code2);
    WhereAppend(between, [Url(bob, code2, link)], OwnedWithLink(alice, link));
    assert Where([Url(bob, code2, link)], OwnedWithLink(alice, link)) == [];
  }

  /**
   The first Google login for an unseen email stores the row but does not log
   in; the second finds the row and logs in as it.
   */
  method GoogleTwice(s: Server, profile: Profile, session: Option<nat>)
    returns (first: Reply, second: Reply, session': Option<nat>)
    requires s.Valid() && !EmailTaken(s.users, profile.email)
    modifies s
    ensures s.Valid()
    ensures s.users == old(s.users) + [User(old(s.nextId), profile.email, profile.id)]
    ensures first == Redirect(LoginPage)
    ensures second == Redirect(DashboardPage)
    ensures CurrentUser(s.users, session') == Some(User(old(s.nextId), profile.email, profile.id))
  {
    var result := s.GoogleVerify(profile);
    var outcome := Authenticate(result, session);
    var session1;
    first, session1 := outcome.0, outcome.1;
    var newRow := User(old(s.nextId), profile.email, profile.id);
    assert newRow in s.users;
    result := s.GoogleVerify(profile);
    assert result.user == newRow;
    outcome := Authenticate(result, session1);
    second, session' := outcome.0, outcome.1;
    LoginEstablishesSession(s.users, newRow, session1);
  }

  /** A Google login with the email of a local account is that account: same id, no new row. */
  method GoogleMergesLocal(s: Server, profile: Profile, session: Option<nat>, local: User)
    returns (reply: Reply, session': Option<nat>)
    requires s.Valid() && local in s.users && local.email == profile.email
    modifies s
    ensures s.Valid()
    ensures s.users == old(s.users)
    ensures reply == Redirect(DashboardPage)
    ensures CurrentUser(s.users, session') == Some(local)
  {
    var result := s.GoogleVerify(profile);
    assert result.user == local;
    var outcome := Authenticate(result, session);
    reply, session' := outcome.0, outcome.1;
    LoginEstablishesSession(s.users, local, session);
  }

  /** Anyone, logged in or not, can delete another user's row by naming its code. */
  method DeleteAnotherUsersRow(s: Server, victim: Url)
    returns (reply: Reply)
    requires s.Valid() && victim in s.urls
    modifies s
    ensures s.Valid()
    ensures victim !in s.urls
    ensures Dashboard(s.users, s.urls, Some(victim.userId)).Render?
    ensures victim !in Dashboard(s.users, s.urls, Some(victim.userId)).rows
  {
    reply := s.Delete(victim.shortKey);
    var rows := Dashboard(s.users, s.urls, Some(victim.userId)).rows;
    assert multiset(rows)[victim] == 0;
  }
}
