/**
 * The two read-only resolvers of the Query type: `media` (CRUD.go:122-150),
 * one record by id behind an exact-username credential check, and
 * `mediaList` (CRUD.go:166-193), the records whose name matches a pattern
 * built from the username, behind a pattern-username credential check.
 *
 * Each is a specification function over the credential table, the current
 * store contents and the argument bag, and a method with the resolver's
 * loops proved equal to it. Neither writes the store: they receive its
 * contents as a value.
 */
module Queries {
  import opened Wrappers
  import opened Catalog
  import opened Regex

  /** A credential check either lets resolution go on or ends it with an outcome. */
  datatype Gate = Pass | Stop(outcome: Outcome)

  /** `regexp.MustCompile(password).Match(secret)`: the supplied password is a pattern searched for in the stored one. */
  function PasswordGate(e: Engine, password: string, secret: string): Gate
  {
    if !e.compiles(password) then Stop(Panic(BadPattern(password)))
    else if e.matches(password, secret) then Pass
    else Stop(Err(PasswordMismatch))
  }

  /** `k` is the first credential entry whose username equals `username`. */
  ghost predicate FirstNamed(users: seq<User>, username: string, k: int)
  {
    0 <= k < |users| && users[k].Username == username &&
    forall j :: 0 <= j < k ==> users[j].Username != username
  }

  /** `k` is the first credential entry whose username the pattern `username` matches. */
  ghost predicate FirstMatched(e: Engine, users: seq<User>, username: string, k: int)
  {
    0 <= k < |users| && e.matches(username, users[k].Username) &&
    forall j :: 0 <= j < k ==> !e.matches(username, users[j].Username)
  }

  /** The check of `media`: only the first entry with an equal username is consulted; no such entry lets resolution go on. */
  function MediaGate(e: Engine, users: seq<User>, username: string, password: string): Gate
  {
    match FirstIndex(users, (u: User) => u.Username == username)
    case None => Pass
    case Some(k) => PasswordGate(e, password, users[k].Password)
  }

  /** The check of `mediaList`: the first entry whose username the `username` pattern matches is consulted. */
  function MediaListGate(e: Engine, users: seq<User>, username: string, password: string): Gate
  {
    match FirstIndex(users, (u: User) => e.matches(username, u.Username))
    case None => Pass
    case Some(k) => PasswordGate(e, password, users[k].Password)
  }

  /** The lookup that ends `media`: nil without an id or without a record with that id. */
  function Lookup(medias: seq<Media>, id: Option<int>): Outcome
  {
    if id.None? then Nil
    else
      match FindById(medias, id.value)
      case None => Nil
      case Some(m) => Ok(m)
  }

  /** The `media` resolver (CRUD.go:122-150). */
  function MediaQuery(e: Engine, users: seq<User>, medias: seq<Media>, args: Args): Outcome
  {
    match StringArg(args, "username")
    case None => Err(UsernameNotFound)
    case Some(username) =>
      match StringArg(args, "password")
      case None => Err(PasswordNotFound)
      case Some(password) =>
        match MediaGate(e, users, username, password)
        case Stop(o) => o
        case Pass => Lookup(medias, IntArg(args, "id"))
  }

  /** The records, in store order, whose name the pattern matches: the accumulating loop of mediaList. */
  function NamesMatching(e: Engine, pattern: string, medias: seq<Media>): seq<Media>
    decreases |medias|
  {
    if medias == [] then []
    else
      var kept := NamesMatching(e, pattern, medias[..|medias| - 1]);
      var last := medias[|medias| - 1];
      if e.matches(pattern, last.Name) then kept + [last] else kept
  }

  /**
   * The filtered list holds exactly the records whose name matches, each as
   * many times as the store holds it, and keeps their store order.
   */
  lemma {:induction false} NamesMatchingIsFilter(e: Engine, pattern: string, medias: seq<Media>)
    ensures var r := NamesMatching(e, pattern, medias);
            IsSubsequence(r, medias) &&
            (forall m :: m in r <==> m in medias && e.matches(pattern, m.Name)) &&
            forall m :: multiset(r)[m] == if e.matches(pattern, m.Name) then multiset(medias)[m] else 0
    decreases |medias|
  {
    if medias != [] {
      var init, last := medias[..|medias| - 1], medias[|medias| - 1];
      assert medias == init + [last];
      NamesMatchingIsFilter(e, pattern, init);
      var kept := NamesMatching(e, pattern, init);
      assert multiset(medias) == multiset(init) + multiset{last};
      if e.matches(pattern, last.Name) {
        assert multiset(kept + [last]) == multiset(kept) + multiset{last};
      }
    }
  }

  /**
   * The `mediaList` resolver (CRUD.go:166-193). The username pattern is
   * compiled before the argument is checked; a failed comma-ok assertion
   * leaves the empty string there.
   */
  function MediaListQuery(e: Engine, users: seq<User>, medias: seq<Media>, args: Args): Outcome
  {
    var username := match StringArg(args, "username") case Some(u) => u case None => "";
    if !e.compiles(username) then Panic(BadPattern(username))
    else if StringArg(args, "username").None? then Err(UsernameNotFound)
    else
      match StringArg(args, "password")
      case None => Err(PasswordNotFound)
      case Some(password) =>
        match MediaListGate(e, users, username, password)
        case Stop(o) => o
        case Pass =>
          if !e.compiles(Anywhere(username)) then Panic(BadPattern(Anywhere(username)))
          else OkList(NamesMatching(e, Anywhere(username), medias))
  }

  /** The resolver of `media` with its two scans. */
  method ResolveMedia(e: Engine, users: seq<User>, medias: seq<Media>, args: Args) returns (r: Outcome)
    ensures r == MediaQuery(e, users, medias, args)
  {
    var username := StringArg(args, "username");
    if username.None? {
      return Err(UsernameNotFound);
    }
    var password := StringArg(args, "password");
    if password.None? {
      return Err(PasswordNotFound);
    }
    var i := 0;
    while i < |users|
      invariant 0 <= i <= |users|
      invariant forall j :: 0 <= j < i ==> users[j].Username != username.value
    {
      if users[i].Username == username.value {
        FirstIndexAt(users, (u: User) => u.Username == username.value, i);
        if !e.compiles(password.value) {
          return Panic(BadPattern(password.value));
        }
        if e.matches(password.value, users[i].Password) {
          break;
        }
        return Err(PasswordMismatch);
      }
      i := i + 1;
    }
    var id := IntArg(args, "id");
    if id.Some? {
      var k := 0;
      while k < |medias|
        invariant 0 <= k <= |medias|
        invariant forall j :: 0 <= j < k ==> medias[j].ID != id.value
      {
        if medias[k].ID == id.value {
          FirstIndexAt(medias, (m: Media) => m.ID == id.value, k);
          return Ok(medias[k]);
        }
        k := k + 1;
      }
    }
    return Nil;
  }

  /** The resolver of `mediaList` with its credential scan and its accumulating filter. */
  method ResolveMediaList(e: Engine, users: seq<User>, medias: seq<Media>, args: Args) returns (r: Outcome)
    ensures r == MediaListQuery(e, users, medias, args)
  {
    var username := StringArg(args, "username");
    var name := if username.Some? then username.value else "";
    if !e.compiles(name) {
      return Panic(BadPattern(name));
    }
    if username.None? {
      return Err(UsernameNotFound);
    }
    var password := StringArg(args, "password");
    if password.None? {
      return Err(PasswordNotFound);
    }
    var i := 0;
    while i < |users|
      invariant 0 <= i <= |users|
      invariant forall j :: 0 <= j < i ==> !e.matches(name, users[j].Username)
    {
      if e.matches(name, users[i].Username) {
        FirstIndexAt(users, (u: User) => e.matches(name, u.Username), i);
        if !e.compiles(password.value) {
          return Panic(BadPattern(password.value));
        }
        if e.matches(password.value, users[i].Password) {
          break;
        }
        return Err(PasswordMismatch);
      }
      i := i + 1;
    }
    var pattern := Anywhere(name);
    if !e.compiles(pattern) {
      return Panic(BadPattern(pattern));
    }
    var result := [];
    var k := 0;
    while k < |medias|
      invariant 0 <= k <= |medias|
      invariant result == NamesMatching(e, pattern, medias[..k])
    {
      assert medias[..k + 1][..k] == medias[..k];
      if e.matches(pattern, medias[k].Name) {
        result := result + [medias[k]];
      }
      k := k + 1;
    }
    assert medias[..k] == medias;
    return OkList(result);
  }

  // ----- What `media` promises -----

  /** The check of `media` lets resolution go on: no entry has the username, or the first one accepts the password pattern. */
  ghost predicate MediaAdmits(e: Engine, users: seq<User>, username: string, password: string)
  {
    forall k :: FirstNamed(users, username, k) ==> e.compiles(password) && e.matches(password, users[k].Password)
  }

  /** A missing username or password is reported before the credential table or the store is looked at. */
  lemma MediaChecksArgumentsFirst(e: Engine, users: seq<User>, medias: seq<Media>, args: Args)
    ensures StringArg(args, "username").None? ==> MediaQuery(e, users, medias, args) == Err(UsernameNotFound)
    ensures StringArg(args, "username").Some? && StringArg(args, "password").None? ==>
              MediaQuery(e, users, medias, args) == Err(PasswordNotFound)
  {
  }

  /** "password mismatch" comes exactly from the first entry whose username equals the argument rejecting the password pattern. */
  lemma MediaMismatch(e: Engine, users: seq<User>, medias: seq<Media>, args: Args, username: string, password: string)
    requires StringArg(args, "username") == Some(username) && StringArg(args, "password") == Some(password)
    ensures MediaQuery(e, users, medias, args) == Err(PasswordMismatch) <==>
              exists k :: FirstNamed(users, username, k) && e.compiles(password) && !e.matches(password, users[k].Password)
  {
    match FirstIndex(users, (u: User) => u.Username == username)
    case None =>
    case Some(k) =>
      assert FirstNamed(users, username, k);
  }

  /** Entries after the first one with the username are never consulted, whatever their passwords. */
  lemma MediaConsultsFirstNamedOnly(e: Engine, users: seq<User>, medias: seq<Media>, args: Args, username: string, k: nat)
    requires StringArg(args, "username") == Some(username)
    requires FirstNamed(users, username, k)
    ensures MediaQuery(e, users, medias, args) == MediaQuery(e, users[..k + 1], medias, args)
  {
    FirstIndexAt(users, (u: User) => u.Username == username, k);
    FirstIndexAt(users[..k + 1], (u: User) => u.Username == username, k);
  }

  /** A username nobody has is not an error: resolution goes on as if there were no credential table, and the password is never compiled. */
  lemma MediaUnknownUserPasses(e: Engine, users: seq<User>, medias: seq<Media>, args: Args, username: string)
    requires StringArg(args, "username") == Some(username)
    requires forall j :: 0 <= j < |users| ==> users[j].Username != username
    ensures MediaQuery(e, users, medias, args) == MediaQuery(e, [], medias, args)
  {
  }

  /** Past the check, `media` answers with the first record in store order that has the id, and nil when there is none or no id. */
  lemma MediaResult(e: Engine, users: seq<User>, medias: seq<Media>, args: Args, username: string, password: string)
    requires StringArg(args, "username") == Some(username) && StringArg(args, "password") == Some(password)
    requires MediaAdmits(e, users, username, password)
    ensures var r := MediaQuery(e, users, medias, args);
            (r.Nil? || r.Ok?) &&
            (r.Nil? <==> IntArg(args, "id").None? || forall k :: 0 <= k < |medias| ==> medias[k].ID != IntArg(args, "id").value) &&
            (r.Ok? ==> IntArg(args, "id").Some? && exists k :: FirstWithId(medias, IntArg(args, "id").value, k) && r.media == medias[k])
  {
    match FirstIndex(users, (u: User) => u.Username == username)
    case None =>
    case Some(k) =>
      assert FirstNamed(users, username, k);
  }

  /** The password `.*` opens every account: the outcome is the one without any credential table. */
  lemma MediaWildcardPassword(e: Engine, users: seq<User>, medias: seq<Media>, args: Args)
    requires WildcardMatchesAll(e)
    requires StringArg(args, "username").Some? && StringArg(args, "password") == Some(".*")
    ensures MediaQuery(e, users, medias, args) == MediaQuery(e, [], medias, args)
  {
  }

  // ----- What `mediaList` promises -----

  /** The check of `mediaList` lets resolution go on: no entry's username matches the pattern, or the first such entry accepts the password pattern. */
  ghost predicate MediaListAdmits(e: Engine, users: seq<User>, username: string, password: string)
  {
    forall k :: FirstMatched(e, users, username, k) ==> e.compiles(password) && e.matches(password, users[k].Password)
  }

  /** A missing username or password is reported before any table is read; the username pattern is compiled even before that. */
  lemma MediaListChecksArgumentsFirst(e: Engine, users: seq<User>, medias: seq<Media>, args: Args)
    ensures StringArg(args, "username").None? && e.compiles("") ==>
              MediaListQuery(e, users, medias, args) == Err(UsernameNotFound)
    ensures StringArg(args, "username").Some? && e.compiles(StringArg(args, "username").value) &&
            StringArg(args, "password").None? ==>
              MediaListQuery(e, users, medias, args) == Err(PasswordNotFound)
  {
  }

  /** A username that does not compile panics, even when the password is missing. */
  lemma MediaListBadUsernamePanics(e: Engine, users: seq<User>, medias: seq<Media>, args: Args, username: string)
    requires StringArg(args, "username") == Some(username) && !e.compiles(username)
    ensures MediaListQuery(e, users, medias, args) == Panic(BadPattern(username))
  {
  }

  /** "password mismatch" comes exactly from the first entry whose username the username pattern matches rejecting the password pattern. */
  lemma MediaListMismatch(e: Engine, users: seq<User>, medias: seq<Media>, args: Args, username: string, password: string)
    requires StringArg(args, "username") == Some(username) && StringArg(args, "password") == Some(password)
    requires e.compiles(username)
    ensures MediaListQuery(e, users, medias, args) == Err(PasswordMismatch) <==>
              exists k :: FirstMatched(e, users, username, k) && e.compiles(password) && !e.matches(password, users[k].Password)
  {
    match FirstIndex(users, (u: User) => e.matches(username, u.Username))
    case None =>
    case Some(k) =>
      assert FirstMatched(e, users, username, k);
  }

  /**
   * Past the check, `mediaList` answers with exactly the records whose name
   * matches `(.*)username(.*)`, in store order; none is an empty list, not an error.
   */
  lemma MediaListResult(e: Engine, users: seq<User>, medias: seq<Media>, args: Args, username: string, password: string)
    requires StringArg(args, "username") == Some(username) && StringArg(args, "password") == Some(password)
    requires e.compiles(username) && e.compiles(Anywhere(username))
    requires MediaListAdmits(e, users, username, password)
    ensures var r := MediaListQuery(e, users, medias, args);
            r.OkList? && IsSubsequence(r.list, medias) &&
            (forall m :: m in r.list <==> m in medias && e.matches(Anywhere(username), m.Name)) &&
            (forall m :: multiset(r.list)[m] == if e.matches(Anywhere(username), m.Name) then multiset(medias)[m] else 0) &&
            ((forall k :: 0 <= k < |medias| ==> !e.matches(Anywhere(username), medias[k].Name)) ==> r.list == [])
  {
    MediaListAdmitted(e, users, medias, args, username, password);
    var r := NamesMatching(e, Anywhere(username), medias);
    NamesMatchingIsFilter(e, Anywhere(username), medias);
    if r != [] {
      assert r[0] in r;
    }
  }

  lemma MediaListAdmitted(e: Engine, users: seq<User>, medias: seq<Media>, args: Args, username: string, password: string)
    requires StringArg(args, "username") == Some(username) && StringArg(args, "password") == Some(password)
    requires e.compiles(username) && e.compiles(Anywhere(username))
    requires MediaListAdmits(e, users, username, password)
    ensures MediaListQuery(e, users, medias, args) == OkList(NamesMatching(e, Anywhere(username), medias))
  {
    match FirstIndex(users, (u: User) => e.matches(username, u.Username))
    case None =>
    case Some(k) =>
      assert FirstMatched(e, users, username, k);
  }

  /** The password `.*` opens every account matched by the username pattern. */
  lemma MediaListWildcardPassword(e: Engine, users: seq<User>, medias: seq<Media>, args: Args)
    requires WildcardMatchesAll(e)
    requires StringArg(args, "username").Some? && StringArg(args, "password") == Some(".*")
    ensures MediaListQuery(e, users, medias, args) == MediaListQuery(e, [], medias, args)
  {
  }

  // ----- The seed data under RE2's treatment of literal patterns -----

  function Credentials(username: string, password: string): Args
  {
    map["username" := StringValue(username), "password" := StringValue(password)]
  }

  /** What RE2 says about the literal patterns of the seed examples, a few facts at a time. */
  lemma SeedPasswordPatterns(e: Engine)
    requires FindsLiterals(e)
    ensures e.compiles("123") && e.compiles("999") && e.matches("123", "123") && !e.matches("999", "123")
  {
    assert IsLiteral("123") && IsLiteral("999");
    LiteralPresent(e, "123", "123", 0);
    LiteralAbsent(e, "999", "123", '9');
  }
  lemma SeedUsernamePatterns(e: Engine)
    requires FindsLiterals(e)
    ensures e.compiles("hawk") && e.compiles(Anywhere("hawk"))
    ensures !e.matches("hawk", "media_admin") && e.matches("hawk", "hawk")
  {
    assert IsLiteral("hawk");
    LiteralAbsent(e, "hawk", "media_admin", 'w');
    LiteralPresent(e, "hawk", "hawk", 0);
  }
  lemma SeedNamePatternsHead(e: Engine)
    requires FindsLiterals(e)
    ensures !e.matches(Anywhere("hawk"), "media_flag") && e.matches(Anywhere("hawk"), "media_sunset_hawk")
    ensures !e.matches(Anywhere("hawk"), "media_admin_canyon")
  {
    assert IsLiteral("hawk");
    LiteralAbsent(e, "hawk", "media_flag", 'w');
    LiteralPresent(e, "hawk", "media_sunset_hawk", 13);
    LiteralAbsent(e, "hawk", "media_admin_canyon", 'w');
  }
  lemma SeedNamePatternsTail(e: Engine)
    requires FindsLiterals(e)
    ensures !e.matches(Anywhere("hawk"), "media_admin_not_flag")
    ensures !e.matches(Anywhere("hawk"), "hello_media_admin") && e.matches(Anywhere("hawk"), "hawk's workout")
  {
    assert IsLiteral("hawk");
    LiteralAbsent(e, "hawk", "media_admin_not_flag", 'w');
    LiteralAbsent(e, "hawk", "hello_media_admin", 'w');
    LiteralPresent(e, "hawk", "hawk's workout", 0);
  }
  /** The literal-pattern facts the seed examples rest on. */
  ghost predicate SeedPatterns(e: Engine)
  {
    e.compiles("123") && e.compiles("999") && e.matches("123", "123") && !e.matches("999", "123") &&
    e.compiles("hawk") && e.compiles(Anywhere("hawk")) &&
    !e.matches("hawk", "media_admin") && e.matches("hawk", "hawk") &&
    !e.matches(Anywhere("hawk"), "media_flag") && e.matches(Anywhere("hawk"), "media_sunset_hawk") &&
    !e.matches(Anywhere("hawk"), "media_admin_canyon") &&
    !e.matches(Anywhere("hawk"), "media_admin_not_flag") &&
    !e.matches(Anywhere("hawk"), "hello_media_admin") && e.matches(Anywhere("hawk"), "hawk's workout")
  }

  /** RE2's treatment of literals gives every fact the seed examples use. */
  lemma SeedPatternFacts(e: Engine)
    requires FindsLiterals(e)
    ensures SeedPatterns(e)
  { SeedPasswordPatterns(e); SeedUsernamePatterns(e); SeedNamePatternsHead(e); SeedNamePatternsTail(e); }

  /** The argument bag of a call with just a username and a password. */
  lemma CredentialsArgs(username: string, password: string)
    ensures StringArg(Credentials(username, password), "username") == Some(username)
    ensures StringArg(Credentials(username, password), "password") == Some(password)
    ensures IntArg(Credentials(username, password), "id") == None
  {
    assert "id" != "username" && "id" != "password" by {
      assert "id"[1] != "username"[1] && "id"[0] != "password"[0];
    }
  }

  /** `hawk`/`123` passes the check of `media`; without an id the answer is nil. */
  lemma SeedMediaAccepts(e: Engine)
    requires SeedPatterns(e)
    ensures MediaQuery(e, SeedUsers, SeedMedias, Credentials("hawk", "123")) == Nil
  {
    FirstIndexAt(SeedUsers, (u: User) => u.Username == "hawk", 1);
    assert MediaGate(e, SeedUsers, "hawk", "123") == Pass;
    CredentialsArgs("hawk", "123");
  }

  /** `hawk`/`123` with id 2: the record of id 2 comes back. */
  lemma SeedMediaFindsTwo(e: Engine)
    requires SeedPatterns(e)
    ensures MediaQuery(e, SeedUsers, SeedMedias, Credentials("hawk", "123")["id" := IntValue(2)]) == Ok(SeedMedias[1])
  {
    FirstIndexAt(SeedUsers, (u: User) => u.Username == "hawk", 1);
    assert MediaGate(e, SeedUsers, "hawk", "123") == Pass;
    FirstIndexAt(SeedMedias, (m: Media) => m.ID == 2, 1);
    assert Lookup(SeedMedias, Some(2)) == Ok(SeedMedias[1]);
    CredentialsArgs("hawk", "123");
    var args := Credentials("hawk", "123")["id" := IntValue(2)];
    assert IntArg(args, "id") == Some(2);
    assert StringArg(args, "username") == Some("hawk") && StringArg(args, "password") == Some("123");
  }

  /** `hawk`/`999` is a password mismatch. */
  lemma SeedMediaRejects(e: Engine)
    requires SeedPatterns(e)
    ensures MediaQuery(e, SeedUsers, SeedMedias, Credentials("hawk", "999")) == Err(PasswordMismatch)
  {
    FirstIndexAt(SeedUsers, (u: User) => u.Username == "hawk", 1);
    assert MediaGate(e, SeedUsers, "hawk", "999") == Stop(Err(PasswordMismatch));
    CredentialsArgs("hawk", "999");
  }

  /** A username nobody has passes the check of `media`, whatever the password. */
  lemma SeedMediaUnknownUser(e: Engine, password: string)
    ensures MediaQuery(e, SeedUsers, SeedMedias, Credentials("nobody", password)) == Nil
  {
    MediaUnknownUserPasses(e, SeedUsers, SeedMedias, Credentials("nobody", password), "nobody");
  }

  /** One more record at the end of the store adds it to the filtered list exactly when its name matches. */
  lemma NamesMatchingStep(e: Engine, pattern: string, medias: seq<Media>, k: nat)
    requires k < |medias|
    ensures NamesMatching(e, pattern, medias[..k + 1]) ==
            NamesMatching(e, pattern, medias[..k]) + (if e.matches(pattern, medias[k].Name) then [medias[k]] else [])
  {
    assert medias[..k + 1][..k] == medias[..k];
  }

  /** A six-record store in which only the second and the sixth names match filters to those two. */
  lemma NamesMatchingSecondAndSixth(e: Engine, pattern: string, s: seq<Media>)
    requires |s| == 6
    requires !e.matches(pattern, s[0].Name) && e.matches(pattern, s[1].Name) && !e.matches(pattern, s[2].Name)
    requires !e.matches(pattern, s[3].Name) && !e.matches(pattern, s[4].Name) && e.matches(pattern, s[5].Name)
    ensures NamesMatching(e, pattern, s) == [s[1], s[5]]
  {
    assert s[..0] == [];
    NamesMatchingStep(e, pattern, s, 0);
    NamesMatchingStep(e, pattern, s, 1);
    NamesMatchingStep(e, pattern, s, 2);
    NamesMatchingStep(e, pattern, s, 3);
    NamesMatchingStep(e, pattern, s, 4);
    NamesMatchingStep(e, pattern, s, 5);
    assert s[..6] == s;
  }

  /** `mediaList(username: "hawk", password: "123")` on the seed: the two records whose name contains "hawk". */
  lemma SeedHawkList(e: Engine)
    requires SeedPatterns(e)
    ensures MediaListQuery(e, SeedUsers, SeedMedias, Credentials("hawk", "123")) == OkList([SeedMedias[1], SeedMedias[5]])
  {
    FirstIndexAt(SeedUsers, (u: User) => e.matches("hawk", u.Username), 1);
    NamesMatchingSecondAndSixth(e, Anywhere("hawk"), SeedMedias);
  }
}
