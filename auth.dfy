/** The registration route: trade the GitHub authorization code for the
    GitHub profile, find the local user by GitHub id or create it, and issue
    the session token whose subject is the local user id. */
module Auth {
  import opened Schema

  datatype User = User(id: string, githubId: int, login: string, name: string, avatarUrl: string)

  /** The GitHub profile fields the route keeps once the response passed the schema. */
  datatype Profile = Profile(githubId: int, login: string, name: string, avatarUrl: string)

  /** What the signed session token carries: its subject and two display claims.
      Expiry and the signature itself are outside this model. */
  datatype TokenPayload = TokenPayload(sub: string, name: string, avatarUrl: string)

  /** Why registration stopped: the request body has no string `code`, one of
      the two GitHub calls failed, or the profile did not have the expected shape. */
  datatype AuthFailure = InvalidBody | GithubUnavailable | InvalidProfile

  datatype Step<T> = Done(value: T) | Stopped(failure: AuthFailure)

  /** The user table, keyed by its unique GitHub id. */
  type Users = map<int, User>

  /** What the lookup answers, and the table after it. */
  datatype Found = Found(user: User, users: Users)

  /** What the route answers, and the table it leaves. */
  datatype Registration = Registration(result: Step<TokenPayload>, users: Users)

  /** Each user is stored under its own GitHub id, and local ids are distinct,
      so a token subject names one user. */
  ghost predicate ValidUsers(users: Users) {
    && (forall g :: g in users ==> users[g].githubId == g)
    && (forall g, h :: g in users && h in users && users[g].id == users[h].id ==> g == h)
  }

  /** The id the store generates for a new user is not in use. */
  predicate IsFreshId(users: Users, id: string) {
    forall g :: g in users ==> users[g].id != id
  }

  /** The profile schema: a numeric `id`, string `login` and `name`, and a
      string `avatar_url` that parses as a URL (`isUrl` stands for that parse). */
  function ValidateProfile(data: Json, isUrl: string -> bool): (r: Option<Profile>)
    ensures r.Some? <==>
      && NumberField(data, "id").Some?
      && StringField(data, "login").Some?
      && StringField(data, "name").Some?
      && StringField(data, "avatar_url").Some?
      && isUrl(StringField(data, "avatar_url").value)
    ensures r.Some? ==>
      && r.value.githubId == data.fields["id"].n
      && data.fields["login"] == JString(r.value.login)
      && data.fields["name"] == JString(r.value.name)
      && data.fields["avatar_url"] == JString(r.value.avatarUrl)
  {
    match (NumberField(data, "id"), StringField(data, "login"), StringField(data, "name"), StringField(data, "avatar_url"))
    case (Some(id), Some(login), Some(name), Some(avatarUrl)) =>
      if isUrl(avatarUrl) then Some(Profile(id, login, name, avatarUrl)) else None
    case _ => None
  }

  /** Everything before the user table is consulted: the body must hold a
      string `code`; `fetchProfile` stands for the two GitHub calls made with
      it (None when either fails); the response must pass the profile schema. */
  function ResolveProfile(body: Json, fetchProfile: string -> Option<Json>, isUrl: string -> bool): (r: Step<Profile>)
    ensures StringField(body, "code").None? ==> r == Stopped(InvalidBody)
    ensures StringField(body, "code").Some? ==>
      var code := StringField(body, "code").value;
      && (fetchProfile(code).None? ==> r == Stopped(GithubUnavailable))
      && (fetchProfile(code).Some? ==>
            var checked := ValidateProfile(fetchProfile(code).value, isUrl);
            && (checked.None? ==> r == Stopped(InvalidProfile))
            && (checked.Some? ==> r == Done(checked.value)))
  {
    match StringField(body, "code")
    case None => Stopped(InvalidBody)
    case Some(code) =>
      match fetchProfile(code)
      case None => Stopped(GithubUnavailable)
      case Some(data) =>
        match ValidateProfile(data, isUrl)
        case None => Stopped(InvalidProfile)
        case Some(profile) => Done(profile)
  }

  /** Find the user by GitHub id; create it from the profile only when absent.
      A user that exists is returned as stored, never refreshed from the profile. */
  function FindOrCreate(users: Users, p: Profile, freshId: string): (f: Found)
    requires ValidUsers(users) && IsFreshId(users, freshId)
    ensures ValidUsers(f.users)
    ensures p.githubId in f.users && f.users[p.githubId] == f.user
    ensures p.githubId in users ==> f.user == users[p.githubId] && f.users == users
    ensures p.githubId !in users ==>
      && f.user == User(freshId, p.githubId, p.login, p.name, p.avatarUrl)
      && f.users.Keys == users.Keys + {p.githubId}
    ensures forall g :: g in users ==> g in f.users && f.users[g] == users[g]
    ensures |f.users| <= |users| + 1
  {
    if p.githubId in users then
      Found(users[p.githubId], users)
    else
      var user := User(freshId, p.githubId, p.login, p.name, p.avatarUrl);
      assert users[p.githubId := user].Keys == users.Keys + {p.githubId};
      Found(user, users[p.githubId := user])
  }

  /** The token payload is built from the stored user record. */
  function TokenFor(user: User): (t: TokenPayload)
    ensures t.sub == user.id && t.name == user.name && t.avatarUrl == user.avatarUrl
  {
    TokenPayload(user.id, user.name, user.avatarUrl)
  }

  /** `POST /register` as a whole. */
  function RegisterOutcome(users: Users, body: Json, fetchProfile: string -> Option<Json>,
                           isUrl: string -> bool, freshId: string): (r: Registration)
    requires ValidUsers(users) && IsFreshId(users, freshId)
    ensures ValidUsers(r.users)
    ensures r.result.Stopped? <==> ResolveProfile(body, fetchProfile, isUrl).Stopped?
    ensures r.result.Stopped? ==>
      r.result.failure == ResolveProfile(body, fetchProfile, isUrl).failure && r.users == users
    ensures r.result.Done? ==>
      var p := ResolveProfile(body, fetchProfile, isUrl).value;
      && p.githubId in r.users
      && r.result.value == TokenFor(r.users[p.githubId])
      && (p.githubId in users ==> r.users == users)
    ensures |r.users| <= |users| + 1
  {
    match ResolveProfile(body, fetchProfile, isUrl)
    case Stopped(failure) => Registration(Stopped(failure), users)
    case Done(profile) =>
      var found := FindOrCreate(users, profile, freshId);
      Registration(Done(TokenFor(found.user)), found.users)
  }

  /** Two registrations whose profiles carry the same GitHub id give the same
      subject, the second leaves the table as the first left it, and the table
      grows by at most one user over both. */
  lemma RegisterTwiceSameSubject(users: Users, body1: Json, body2: Json,
                                 fetch1: string -> Option<Json>, fetch2: string -> Option<Json>,
                                 isUrl: string -> bool, p: Profile, q: Profile, id1: string, id2: string)
    requires ValidUsers(users) && IsFreshId(users, id1) && IsFreshId(users, id2) && id1 != id2
    requires ResolveProfile(body1, fetch1, isUrl) == Done(p)
    requires ResolveProfile(body2, fetch2, isUrl) == Done(q)
    requires p.githubId == q.githubId
    ensures var first := RegisterOutcome(users, body1, fetch1, isUrl, id1);
      && IsFreshId(first.users, id2)
      && var second := RegisterOutcome(first.users, body2, fetch2, isUrl, id2);
      && second.result.Done? && first.result.Done?
      && second.result.value.sub == first.result.value.sub
      && second.users == first.users
      && |second.users| <= |users| + 1
  {
    var first := RegisterOutcome(users, body1, fetch1, isUrl, id1);
    forall g | g in first.users
      ensures first.users[g].id != id2
    {
      if g !in users {
        assert first.users[g].id == id1;
      }
    }
  }

  /** A returning user's token carries the name and avatar stored at the first
      registration, whatever the fresh profile says. */
  lemma ReturningUserClaimsAreStored(users: Users, body: Json, fetchProfile: string -> Option<Json>,
                                     isUrl: string -> bool, freshId: string)
    requires ValidUsers(users) && IsFreshId(users, freshId)
    requires ResolveProfile(body, fetchProfile, isUrl).Done?
    requires ResolveProfile(body, fetchProfile, isUrl).value.githubId in users
    ensures var stored := users[ResolveProfile(body, fetchProfile, isUrl).value.githubId];
      RegisterOutcome(users, body, fetchProfile, isUrl, freshId).result
        == Done(TokenPayload(stored.id, stored.name, stored.avatarUrl))
  {
  }

  /** A first registration creates exactly one user, copied from the profile,
      and the token's subject is its new local id. */
  lemma FirstRegistrationCreatesUser(users: Users, body: Json, fetchProfile: string -> Option<Json>,
                                     isUrl: string -> bool, freshId: string)
    requires ValidUsers(users) && IsFreshId(users, freshId)
    requires ResolveProfile(body, fetchProfile, isUrl).Done?
    requires ResolveProfile(body, fetchProfile, isUrl).value.githubId !in users
    ensures var p := ResolveProfile(body, fetchProfile, isUrl).value;
      var r := RegisterOutcome(users, body, fetchProfile, isUrl, freshId);
      && r.users == users[p.githubId := User(freshId, p.githubId, p.login, p.name, p.avatarUrl)]
      && |r.users| == |users| + 1
      && r.result == Done(TokenPayload(freshId, p.name, p.avatarUrl))
  {
    var p := ResolveProfile(body, fetchProfile, isUrl).value;
    assert users[p.githubId := User(freshId, p.githubId, p.login, p.name, p.avatarUrl)].Keys == users.Keys + {p.githubId};
  }

  class UserTable {
    var users: Users

    ghost predicate Valid()
      reads this
    {
      ValidUsers(users)
    }

    constructor ()
      ensures Valid() && users == map[]
    {
      users := map[];
    }

    /** `POST /register`; the store supplies the id of a new user. */
    method Register(body: Json, fetchProfile: string -> Option<Json>, isUrl: string -> bool, freshId: string)
      returns (r: Step<TokenPayload>)
      requires Valid() && IsFreshId(users, freshId)
      modifies this
      ensures Valid()
      ensures Registration(r, users) == RegisterOutcome(old(users), body, fetchProfile, isUrl, freshId)
    {
      var code := StringField(body, "code");
      if code.None? {
        return Stopped(InvalidBody);
      }
      var data := fetchProfile(code.value);
      if data.None? {
        return Stopped(GithubUnavailable);
      }
      var checked := ValidateProfile(data.value, isUrl);
      if checked.None? {
        return Stopped(InvalidProfile);
      }
      var info := checked.value;
      var user: User;
      if info.githubId in users {
        user := users[info.githubId];
      } else {
        user := User(freshId, info.githubId, info.login, info.name, info.avatarUrl);
        users := users[info.githubId := user];
      }
      return Done(TokenPayload(user.id, user.name, user.avatarUrl));
    }
  }
}
