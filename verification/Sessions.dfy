/**
 Users and sessions: six maps kept in step by logins, session creation, validation, deletion and cleanup.
 Tokens are hashed by a parameter; fresh identifiers and tokens, and the clock, come in with each operation.
 */
module Sessions {
  import opened Wrappers
  import opened Ledger

  datatype User = User(
    id: Id, email: string, name: string, avatarUrl: string, oauthProvider: string, oauthProviderId: string,
    createdAt: Time, updatedAt: Time, lastLoginAt: Time)

  const ZERO_USER := User(NIL_ID, "", "", "", "", "", ZERO_TIME, ZERO_TIME, ZERO_TIME)

  datatype Session = Session(
    id: Id, userId: Id, expiresAt: Time, createdAt: Time, userAgent: string, ipAddress: string)

  /** A Google account; the email is trimmed and in lower case. */
  datatype Claims = Claims(sub: string, email: string, name: string, picture: string)

  datatype Db = Db(
    usersById: map<Id, User>, usersByOauth: map<string, Id>, usersByEmail: map<string, Id>,
    sessionsById: map<Id, Session>, sessionHashes: map<string, Id>, sessionHashById: map<Id, string>)

  const EMPTY_DB := Db(map[], map[], map[], map[], map[], map[])

  function OauthKey(provider: string, providerId: string): string {
    provider + "\0" + providerId
  }

  // ---- Users ----

  /** A Go map read: the zero value for a missing key. */
  function UserOf(db: Db, id: Id): User {
    if id in db.usersById then db.usersById[id] else ZERO_USER
  }

  function FindUserByOauth(db: Db, provider: string, providerId: string): Option<User> {
    var key := OauthKey(provider, providerId);
    if key in db.usersByOauth then Some(UserOf(db, db.usersByOauth[key])) else None
  }

  function FindUserByEmail(db: Db, email: string): Option<User> {
    if email in db.usersByEmail then Some(UserOf(db, db.usersByEmail[email])) else None
  }

  function CreateUser(db: Db, user: User): Db {
    db.(usersById := db.usersById[user.id := user],
        usersByEmail := db.usersByEmail[user.email := user.id],
        usersByOauth := db.usersByOauth[OauthKey(user.oauthProvider, user.oauthProviderId) := user.id])
  }

  function UpdateUserLogin(db: Db, id: Id, email: string, name: string, avatarUrl: string, now: Time): Db {
    if id !in db.usersById then db
    else
      var user := db.usersById[id];
      db.(usersByEmail := (db.usersByEmail - {user.email})[email := id],
          usersById := db.usersById[id := user.(
            email := email, name := name, avatarUrl := avatarUrl, lastLoginAt := now, updatedAt := now)])
  }

  /** The account a login belongs to: the one with its Google ID, else the one with its email. */
  function Existing(db: Db, claims: Claims): Option<User> {
    var bySub := FindUserByOauth(db, "google", claims.sub);
    if bySub.Some? then bySub else FindUserByEmail(db, claims.email)
  }

  function NewUser(claims: Claims, id: Id, now: Time): User {
    User(id, claims.email, claims.name, claims.picture, "google", claims.sub, now, now, now)
  }

  /** CreateOrUpdateUser: the users after a login, and the user returned. */
  function Login(db: Db, claims: Claims, newId: Id, now: Time): (Db, User) {
    match Existing(db, claims)
    case Some(user) =>
      (UpdateUserLogin(db, user.id, claims.email, claims.name, claims.picture, now),
       user.(email := claims.email, name := claims.name, avatarUrl := claims.picture, lastLoginAt := now))
    case None =>
      var user := NewUser(claims, newId, now);
      (CreateUser(db, user), user)
  }

  // ---- Sessions ----

  function CreateSession(db: Db, session: Session, hash: string): Db {
    db.(sessionsById := db.sessionsById[session.id := session],
        sessionHashes := db.sessionHashes[hash := session.id],
        sessionHashById := db.sessionHashById[session.id := hash])
  }

  function SessionOf(db: Db, id: Id): Session {
    if id in db.sessionsById then db.sessionsById[id] else Session(NIL_ID, NIL_ID, ZERO_TIME, ZERO_TIME, "", "")
  }

  function FindSession(db: Db, hash: string): Option<(Session, User)> {
    if hash !in db.sessionHashes then None
    else
      var session := SessionOf(db, db.sessionHashes[hash]);
      Some((session, UserOf(db, session.userId)))
  }

  function DeleteSession(db: Db, id: Id): Db {
    db.(sessionHashes := if id in db.sessionHashById then db.sessionHashes - {db.sessionHashById[id]}
                         else db.sessionHashes,
        sessionHashById := db.sessionHashById - {id},
        sessionsById := db.sessionsById - {id})
  }

  function Expired(db: Db, now: Time): set<Id> {
    set id | id in db.sessionsById && now > db.sessionsById[id].expiresAt
  }

  /** The hashes of the given sessions. */
  function HashesOf(db: Db, ids: set<Id>): set<string> {
    set id | id in ids && id in db.sessionHashById :: db.sessionHashById[id]
  }

  function DeleteSessions(db: Db, ids: set<Id>): Db {
    db.(sessionHashes := db.sessionHashes - HashesOf(db, ids),
        sessionHashById := db.sessionHashById - ids,
        sessionsById := db.sessionsById - ids)
  }

  // ---- The service ----

  /** The allowlist; None admits every user. */
  type Allowed = Option<string -> bool>

  predicate Admits(allowed: Allowed, email: string) {
    allowed.None? || allowed.value(email)
  }

  /** ValidateSession by the token's hash: the session may be deleted as a side effect. */
  function Validate(db: Db, hash: string, allowed: Allowed, now: Time): (Db, Option<User>) {
    match FindSession(db, hash)
    case None => (db, None)
    case Some((session, user)) =>
      if now > session.expiresAt || !Admits(allowed, user.email) then (DeleteSession(db, session.id), None)
      else (db, Some(user))
  }

  function DeleteByHash(db: Db, hash: string): Db {
    match FindSession(db, hash)
    case None => db
    case Some((session, _)) => DeleteSession(db, session.id)
  }

  // ---- The invariant ----

  /** Every session has one hash and every hash one session: the two maps are inverses over the live sessions. */
  ghost predicate SessionsOk(db: Db) {
    && (forall id :: id in db.sessionsById <==> id in db.sessionHashById)
    && (forall id :: id in db.sessionsById ==> db.sessionsById[id].id == id)
    && (forall id :: id in db.sessionHashById ==>
          db.sessionHashById[id] in db.sessionHashes && db.sessionHashes[db.sessionHashById[id]] == id)
    && (forall hash :: hash in db.sessionHashes ==>
          db.sessionHashes[hash] in db.sessionHashById && db.sessionHashById[db.sessionHashes[hash]] == hash)
  }

  /** Both indexes point to users that have the key they are found by. */
  ghost predicate UsersOk(db: Db) {
    && (forall id :: id in db.usersById ==> db.usersById[id].id == id)
    && (forall email :: email in db.usersByEmail ==>
          db.usersByEmail[email] in db.usersById && db.usersById[db.usersByEmail[email]].email == email)
    && (forall key :: key in db.usersByOauth ==>
          db.usersByOauth[key] in db.usersById
          && OauthKey(db.usersById[db.usersByOauth[key]].oauthProvider,
                      db.usersById[db.usersByOauth[key]].oauthProviderId) == key)
  }

  ghost predicate Inv(db: Db) {
    SessionsOk(db) && UsersOk(db)
  }

  // ---- Operations and runs ----

  datatype Op =
    | LogIn(claims: Claims, newId: Id, now: Time)
    | Open(session: Session, hash: string)
    | Check(hash: string, now: Time)
    | Close(hash: string)
    | CleanUp(now: Time)

  /** uuid.New and the random tokens repeat nothing in use. */
  predicate Fresh(db: Db, op: Op) {
    match op
    case LogIn(_, newId, _) => newId !in db.usersById
    case Open(session, hash) => session.id !in db.sessionsById && hash !in db.sessionHashes
    case _ => true
  }

  function Step(db: Db, op: Op, allowed: Allowed): Db {
    match op
    case LogIn(claims, newId, now) => Login(db, claims, newId, now).0
    case Open(session, hash) => CreateSession(db, session, hash)
    case Check(hash, now) => Validate(db, hash, allowed, now).0
    case Close(hash) => DeleteByHash(db, hash)
    case CleanUp(now) => DeleteSessions(db, Expired(db, now))
  }

  lemma UpdateKeepsUsers(db: Db, id: Id, email: string, name: string, avatarUrl: string, now: Time)
    requires UsersOk(db)
    ensures UsersOk(UpdateUserLogin(db, id, email, name, avatarUrl, now))
  {
  }

  lemma CreationKeepsUsers(db: Db, user: User)
    requires UsersOk(db) && user.id !in db.usersById
    ensures UsersOk(CreateUser(db, user))
  {
  }

  lemma LoginKeepsUsers(db: Db, claims: Claims, newId: Id, now: Time)
    requires UsersOk(db) && newId !in db.usersById
    ensures UsersOk(Login(db, claims, newId, now).0)
  {
    match Existing(db, claims)
    case Some(user) => UpdateKeepsUsers(db, user.id, claims.email, claims.name, claims.picture, now);
    case None => CreationKeepsUsers(db, NewUser(claims, newId, now));
  }

  lemma OpeningKeepsSessions(db: Db, session: Session, hash: string)
    requires SessionsOk(db) && session.id !in db.sessionsById && hash !in db.sessionHashes
    ensures SessionsOk(CreateSession(db, session, hash))
  {
  }

  lemma DeletingKeepsSessions(db: Db, id: Id)
    requires SessionsOk(db)
    ensures SessionsOk(DeleteSession(db, id))
  {
  }

  lemma CleaningKeepsSessions(db: Db, ids: set<Id>)
    requires SessionsOk(db)
    ensures SessionsOk(DeleteSessions(db, ids))
  {
  }

  lemma StepKeepsInv(db: Db, op: Op, allowed: Allowed)
    requires Inv(db) && Fresh(db, op)
    ensures Inv(Step(db, op, allowed))
  {
    match op
    case LogIn(claims, newId, now) => LoginKeepsUsers(db, claims, newId, now);
    case Open(session, hash) => OpeningKeepsSessions(db, session, hash);
    case Check(hash, now) =>
      if hash in db.sessionHashes {
        DeletingKeepsSessions(db, SessionOf(db, db.sessionHashes[hash]).id);
      }
    case Close(hash) =>
      if hash in db.sessionHashes {
        DeletingKeepsSessions(db, SessionOf(db, db.sessionHashes[hash]).id);
      }
    case CleanUp(now) => CleaningKeepsSessions(db, Expired(db, now));
  }

  ghost predicate IsRun(db: Db, ops: seq<Op>, allowed: Allowed)
    decreases |ops|
  {
    ops == [] || (Fresh(db, ops[0]) && IsRun(Step(db, ops[0], allowed), ops[1..], allowed))
  }

  function After(db: Db, ops: seq<Op>, allowed: Allowed): Db
    decreases |ops|
  {
    if ops == [] then db else After(Step(db, ops[0], allowed), ops[1..], allowed)
  }

  /** After any sequence of logins, session creations, validations, deletions and cleanups. */
  lemma {:induction false} RunKeepsInv(db: Db, ops: seq<Op>, allowed: Allowed)
    requires Inv(db) && IsRun(db, ops, allowed)
    ensures Inv(After(db, ops, allowed))
    decreases |ops|
  {
    if ops != [] {
      StepKeepsInv(db, ops[0], allowed);
      RunKeepsInv(Step(db, ops[0], allowed), ops[1..], allowed);
    }
  }

  // ---- One token's history ----

  datatype Event = Quiet | Opened(session: Session) | Ended

  /** The session a token stands for. */
  function Held(db: Db, hash: string): Option<Session> {
    if hash in db.sessionHashes then Some(SessionOf(db, db.sessionHashes[hash])) else None
  }

  function EventOf(db: Db, op: Op, hash: string, allowed: Allowed): Event {
    var held := Held(db, hash);
    match op
    case Open(session, h) => if h == hash then Opened(session) else Quiet
    case Close(h) => if h == hash then Ended else Quiet
    case CleanUp(now) => if held.Some? && now > held.value.expiresAt then Ended else Quiet
    case Check(h, now) =>
      if h == hash && held.Some?
        && (now > held.value.expiresAt || !Admits(allowed, UserOf(db, held.value.userId).email))
      then Ended else Quiet
    case LogIn(_, _, _) => Quiet
  }

  function Next(held: Option<Session>, event: Event): Option<Session> {
    match event
    case Quiet => held
    case Opened(session) => Some(session)
    case Ended => None
  }

  lemma DeletionEndsOne(db: Db, id: Id, hash: string)
    requires SessionsOk(db) && id in db.sessionsById
    ensures Held(DeleteSession(db, id), hash) == if hash == db.sessionHashById[id] then None else Held(db, hash)
  {
  }

  lemma CleanupEndsTheExpired(db: Db, now: Time, hash: string)
    requires SessionsOk(db)
    ensures var held := Held(db, hash);
            Held(DeleteSessions(db, Expired(db, now)), hash)
            == if held.Some? && now > held.value.expiresAt then None else held
  {
    var ids := Expired(db, now);
    if hash in db.sessionHashes {
      var id := db.sessionHashes[hash];
      assert hash in HashesOf(db, ids) <==> id in ids;
    }
  }

  lemma OpeningIsHeard(db: Db, session: Session, h: string, hash: string, allowed: Allowed)
    requires Inv(db) && Fresh(db, Open(session, h))
    ensures Held(Step(db, Open(session, h), allowed), hash) == if h == hash then Some(session) else Held(db, hash)
  {
  }

  lemma CheckIsAnEvent(db: Db, h: string, now: Time, hash: string, allowed: Allowed)
    requires Inv(db)
    ensures Held(Step(db, Check(h, now), allowed), hash)
            == Next(Held(db, hash), EventOf(db, Check(h, now), hash, allowed))
  {
    if h in db.sessionHashes {
      DeletionEndsOne(db, db.sessionHashes[h], hash);
    }
  }

  lemma StepIsAnEvent(db: Db, op: Op, hash: string, allowed: Allowed)
    requires Inv(db) && Fresh(db, op)
    ensures Held(Step(db, op, allowed), hash) == Next(Held(db, hash), EventOf(db, op, hash, allowed))
  {
    match op
    case CleanUp(now) => CleanupEndsTheExpired(db, now, hash);
    case Check(h, now) => CheckIsAnEvent(db, h, now, hash, allowed);
    case Close(h) =>
      if h in db.sessionHashes {
        DeletionEndsOne(db, db.sessionHashes[h], hash);
      }
    case Open(session, h) => OpeningIsHeard(db, session, h, hash, allowed);
    case LogIn(_, _, _) =>
  }

  function Events(db: Db, ops: seq<Op>, hash: string, allowed: Allowed): seq<Event>
    decreases |ops|
  {
    if ops == [] then []
    else [EventOf(db, ops[0], hash, allowed)] + Events(Step(db, ops[0], allowed), ops[1..], hash, allowed)
  }

  /** What a token stands for after some events, from a token that stood for held. */
  function Outcome(held: Option<Session>, events: seq<Event>): Option<Session> {
    if events == [] then held
    else match events[|events| - 1]
      case Quiet => Outcome(held, events[..|events| - 1])
      case Opened(session) => Some(session)
      case Ended => None
  }

  lemma {:induction false} OutcomeFromNext(held: Option<Session>, event: Event, events: seq<Event>)
    ensures Outcome(held, [event] + events) == Outcome(Next(held, event), events)
  {
    var all := [event] + events;
    if events == [] {
      assert all[..0] == [];
    } else {
      var n := |events| - 1;
      assert all[..|all| - 1] == [event] + events[..n];
      OutcomeFromNext(held, event, events[..n]);
    }
  }

  lemma {:induction false} HeldAfter(db: Db, ops: seq<Op>, hash: string, allowed: Allowed)
    requires Inv(db) && IsRun(db, ops, allowed)
    ensures Held(After(db, ops, allowed), hash) == Outcome(Held(db, hash), Events(db, ops, hash, allowed))
    decreases |ops|
  {
    if ops != [] {
      StepKeepsInv(db, ops[0], allowed);
      StepIsAnEvent(db, ops[0], hash, allowed);
      HeldAfter(Step(db, ops[0], allowed), ops[1..], hash, allowed);
      OutcomeFromNext(Held(db, hash), EventOf(db, ops[0], hash, allowed),
        Events(Step(db, ops[0], allowed), ops[1..], hash, allowed));
    }
  }

  /**
   A token is good exactly when its session was opened and nothing ended it since, it has not expired, and
   its user's current email is allowed; the user is the current one, or nobody for an unknown user ID.
   */
  lemma ValidIff(ops: seq<Op>, hash: string, allowed: Allowed, now: Time)
    requires IsRun(EMPTY_DB, ops, allowed)
    ensures var db := After(EMPTY_DB, ops, allowed);
            var held := Outcome(None, Events(EMPTY_DB, ops, hash, allowed));
            Validate(db, hash, allowed, now).1
            == if held.Some? && now <= held.value.expiresAt && Admits(allowed, UserOf(db, held.value.userId).email)
               then Some(UserOf(db, held.value.userId)) else None
  {
    HeldAfter(EMPTY_DB, ops, hash, allowed);
  }

  /** It was opened at this event and only quiet ones follow. */
  ghost predicate OpenSince(events: seq<Event>, session: Session, i: nat) {
    i < |events| && events[i] == Opened(session) && forall j :: i < j < |events| ==> events[j].Quiet?
  }

  /** The session a token stands for was opened for it, and no later event ended or replaced it. */
  lemma {:induction false} HeldWasOpened(events: seq<Event>, session: Session)
    ensures Outcome(None, events) == Some(session) <==> exists i: nat :: OpenSince(events, session, i)
  {
    if events != [] {
      var n := |events| - 1;
      var before := events[..n];
      assert forall j :: 0 <= j < n ==> before[j] == events[j];
      HeldWasOpened(before, session);
      if events[n].Quiet? {
        if i: nat :| OpenSince(before, session, i) {
          assert OpenSince(events, session, i);
        }
        if i: nat :| OpenSince(events, session, i) {
          assert OpenSince(before, session, i);
        }
      } else if events[n] == Opened(session) {
        assert OpenSince(events, session, n);
      }
    }
  }

  /** What becomes of the sessions themselves: opened ones are held, closed ones and those cleaned up are not. */
  lemma SessionsComeAndGo(db: Db, op: Op, hash: string, allowed: Allowed)
    requires Inv(db) && Fresh(db, op)
    ensures var before, after := Held(db, hash), Held(Step(db, op, allowed), hash);
            match op
            case Open(session, h) => after == if h == hash then Some(session) else before
            case Close(h) => after == if h == hash then None else before
            case CleanUp(now) => after == if before.Some? && before.value.expiresAt < now then None else before
            case Check(h, now) =>
              after == if h == hash && before.Some?
                          && (before.value.expiresAt < now
                              || (allowed.Some? && !allowed.value(UserOf(db, before.value.userId).email)))
                       then None else before
            case LogIn(_, _, _) => after == before
  {
    StepIsAnEvent(db, op, hash, allowed);
  }

  // ---- Logins ----

  /** The account with the Google ID; without one, the account with the email; without either, a new one. */
  function AccountOf(db: Db, claims: Claims, newId: Id): Id {
    var key := OauthKey("google", claims.sub);
    if key in db.usersByOauth then db.usersByOauth[key]
    else if claims.email in db.usersByEmail then db.usersByEmail[claims.email]
    else newId
  }

  /** The user as the Google account has them, seen just now. */
  predicate IsUpToDate(user: User, claims: Claims, now: Time) {
    && user.email == claims.email && user.name == claims.name && user.avatarUrl == claims.picture
    && user.lastLoginAt == now
  }

  /**
   Whose account a login is: by Google ID before email. The account takes the email, name and picture of the
   Google account; one that was there keeps its creation time and the Google ID it was created with.
   */
  lemma LoginIsOf(db: Db, claims: Claims, newId: Id, now: Time)
    requires UsersOk(db)
    ensures var (db', user) := Login(db, claims, newId, now);
            var id := AccountOf(db, claims, newId);
            && user.id == id && id in db'.usersById && db'.usersById[id].id == id
            && IsUpToDate(user, claims, now) && IsUpToDate(db'.usersById[id], claims, now)
            && db'.usersById[id].updatedAt == now
            && (if OauthKey("google", claims.sub) in db.usersByOauth || claims.email in db.usersByEmail
                then && db'.usersById[id].createdAt == db.usersById[id].createdAt
                     && db'.usersById[id].oauthProvider == db.usersById[id].oauthProvider
                     && db'.usersById[id].oauthProviderId == db.usersById[id].oauthProviderId
                else && db'.usersById[id] == user && user.createdAt == now
                     && user.oauthProvider == "google" && user.oauthProviderId == claims.sub)
  {
  }

  /** Accounts of one provider are told apart. */
  lemma KeysDiffer(provider: string, a: string, b: string)
    requires a != b
    ensures OauthKey(provider, a) != OauthKey(provider, b)
  {
    var ka, kb := OauthKey(provider, a), OauthKey(provider, b);
    assert ka[|provider| + 1..] == a && kb[|provider| + 1..] == b;
  }

  /** Ann's Google account takes Bob's email: she still gets her own account. */
  lemma GoogleIdComesFirst(name: string, picture: string, now: Time)
    ensures var ann := Login(EMPTY_DB, Claims("a", "ann", name, picture), 1, now).0;
            var both := Login(ann, Claims("b", "bob", name, picture), 2, now).0;
            Login(both, Claims("a", "bob", name, picture), 3, now).1.id == 1
  {
    assert OauthKey("google", "a")[|"google"| + 1] == 'a' && OauthKey("google", "b")[|"google"| + 1] == 'b';
    var ann := Login(EMPTY_DB, Claims("a", "ann", name, picture), 1, now).0;
    assert "ann"[0] != "bob"[0] && FindUserByEmail(ann, "bob").None?;
    var both := Login(ann, Claims("b", "bob", name, picture), 2, now).0;
    assert both.usersByOauth[OauthKey("google", "a")] == 1;
  }

  /** The user a login returns is stored under the current email, and found by it. */
  lemma LoginIsFound(db: Db, claims: Claims, newId: Id, now: Time)
    requires UsersOk(db)
    ensures var (db', user) := Login(db, claims, newId, now);
            && user.id in db'.usersById && db'.usersById[user.id].email == user.email == claims.email
            && FindUserByEmail(db', claims.email) == Some(db'.usersById[user.id])
  {
  }

  /** A login is found again by its Google ID exactly when that ID was known or the user is new. */
  lemma LoginIsLinkedIff(db: Db, claims: Claims, newId: Id, now: Time)
    requires UsersOk(db)
    ensures FindUserByOauth(Login(db, claims, newId, now).0, "google", claims.sub).Some?
       <==> FindUserByOauth(db, "google", claims.sub).Some? || FindUserByEmail(db, claims.email).None?
  {
  }

  /** A second Google account under the first one's email is let in, and its ID still finds nobody. */
  lemma SecondAccountIsNotLinked(email: string, name: string, picture: string, now: Time)
    ensures var first := Login(EMPTY_DB, Claims("a", email, name, picture), 1, now).0;
            var (second, user) := Login(first, Claims("b", email, name, picture), 2, now);
            && user.id == 1 && FindUserByEmail(second, email).Some?
            && FindUserByOauth(second, "google", "b").None?
  {
    var claims := Claims("a", email, name, picture);
    assert Existing(EMPTY_DB, claims).None?;
    var first := Login(EMPTY_DB, claims, 1, now).0;
    assert OauthKey("google", "a")[|"google"| + 1] == 'a' && OauthKey("google", "b")[|"google"| + 1] == 'b';
    assert FindUserByOauth(first, "google", "b").None?;
  }

  /** A login changes no one else's account, and leaves every session as it is. */
  lemma LoginTouchesOneUser(db: Db, claims: Claims, newId: Id, now: Time, other: Id)
    requires UsersOk(db) && other != Login(db, claims, newId, now).1.id
    ensures UserOf(Login(db, claims, newId, now).0, other) == UserOf(db, other)
    ensures forall hash :: Held(Login(db, claims, newId, now).0, hash) == Held(db, hash)
  {
  }
}
