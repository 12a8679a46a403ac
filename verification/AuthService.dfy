/** The in-memory repository's map updates and the service over it, against the functions of Sessions. */
module AuthService {
  import opened Wrappers
  import opened Ledger
  import S = Sessions
  import opened Sessions

  class MemoryRepository {
    var usersById: map<Id, User>
    var usersByOauth: map<string, Id>
    var usersByEmail: map<string, Id>
    var sessionsById: map<Id, Session>
    var sessionHashes: map<string, Id>
    var sessionHashById: map<Id, string>

    ghost function Snapshot(): Db
      reads this
    {
      Db(usersById, usersByOauth, usersByEmail, sessionsById, sessionHashes, sessionHashById)
    }

    constructor ()
      ensures Snapshot() == EMPTY_DB
    {
      usersById, usersByOauth, usersByEmail := map[], map[], map[];
      sessionsById, sessionHashes, sessionHashById := map[], map[], map[];
    }

    method FindUserByOauth(provider: string, providerId: string) returns (user: Option<User>)
      ensures user == S.FindUserByOauth(Snapshot(), provider, providerId)
    {
      var key := OauthKey(provider, providerId);
      if key !in usersByOauth {
        return None;
      }
      var id := usersByOauth[key];
      user := Some(if id in usersById then usersById[id] else ZERO_USER);
    }

    method FindUserByEmail(email: string) returns (user: Option<User>)
      ensures user == S.FindUserByEmail(Snapshot(), email)
    {
      if email !in usersByEmail {
        return None;
      }
      var id := usersByEmail[email];
      user := Some(if id in usersById then usersById[id] else ZERO_USER);
    }

    method CreateUser(user: User)
      modifies this
      ensures Snapshot() == S.CreateUser(old(Snapshot()), user)
    {
      usersById := usersById[user.id := user];
      usersByEmail := usersByEmail[user.email := user.id];
      usersByOauth := usersByOauth[OauthKey(user.oauthProvider, user.oauthProviderId) := user.id];
    }

    method UpdateUserLogin(id: Id, email: string, name: string, avatarUrl: string, now: Time)
      modifies this
      ensures Snapshot() == S.UpdateUserLogin(old(Snapshot()), id, email, name, avatarUrl, now)
    {
      if id !in usersById {
        return;
      }
      var user := usersById[id];
      usersByEmail := usersByEmail - {user.email};
      usersByEmail := usersByEmail[email := id];
      user := user.(email := email, name := name, avatarUrl := avatarUrl, lastLoginAt := now, updatedAt := now);
      usersById := usersById[id := user];
    }

    method CreateSession(session: Session, hash: string)
      modifies this
      ensures Snapshot() == S.CreateSession(old(Snapshot()), session, hash)
    {
      sessionsById := sessionsById[session.id := session];
      sessionHashes := sessionHashes[hash := session.id];
      sessionHashById := sessionHashById[session.id := hash];
    }

    method FindSessionByTokenHash(hash: string) returns (found: Option<(Session, User)>)
      ensures found == S.FindSession(Snapshot(), hash)
    {
      if hash !in sessionHashes {
        return None;
      }
      var session := SessionAt(sessionHashes[hash]);
      found := Some((session, if session.userId in usersById then usersById[session.userId] else ZERO_USER));
    }

    method SessionAt(id: Id) returns (session: Session)
      ensures session == S.SessionOf(Snapshot(), id)
    {
      session := if id in sessionsById then sessionsById[id] else Session(NIL_ID, NIL_ID, ZERO_TIME, ZERO_TIME, "", "");
    }

    method DeleteSession(id: Id)
      modifies this`sessionsById, this`sessionHashes, this`sessionHashById
      ensures Snapshot() == S.DeleteSession(old(Snapshot()), id)
    {
      if id in sessionHashById {
        sessionHashes := sessionHashes - {sessionHashById[id]};
        sessionHashById := sessionHashById - {id};
      }
      sessionsById := sessionsById - {id};
    }

    /** One entry of the range: deletes the session if it has expired. */
    method DeleteIfExpired(id: Id, now: Time, ghost before: Db, ghost gone: set<Id>) returns (expired: bool)
      requires id in before.sessionsById && id !in gone && Snapshot() == S.DeleteSessions(before, gone)
      modifies this`sessionsById, this`sessionHashes, this`sessionHashById
      ensures expired <==> now > before.sessionsById[id].expiresAt
      ensures Snapshot() == S.DeleteSessions(before, if expired then gone + {id} else gone)
    {
      expired := now > sessionsById[id].expiresAt;
      if expired {
        OneMoreGone(before, gone, id);
        DeleteSession(id);
      }
    }

    /** Deletes from the map it ranges over, in whatever order. */
    method DeleteExpiredSessions(now: Time) returns (deleted: nat)
      modifies this`sessionsById, this`sessionHashes, this`sessionHashById
      ensures Snapshot() == S.DeleteSessions(old(Snapshot()), S.Expired(old(Snapshot()), now))
      ensures deleted == |S.Expired(old(Snapshot()), now)|
    {
      ghost var before := Snapshot();
      ghost var gone: set<Id> := {};
      var left := sessionsById.Keys;
      deleted := 0;
      NothingGone(before);
      while left != {}
        invariant left <= before.sessionsById.Keys && left !! gone
        invariant forall id :: id in gone ==> IsExpired(before, id, now)
        invariant forall id :: IsExpired(before, id, now) ==> id in gone || id in left
        invariant Snapshot() == S.DeleteSessions(before, gone)
        invariant deleted == |gone|
        decreases |left|
      {
        var id :| id in left;
        var expired := DeleteIfExpired(id, now, before, gone);
        if expired {
          gone := gone + {id};
          deleted := deleted + 1;
        }
        left := left - {id};
      }
      GoneIsExpired(before, gone, now);
    }
  }

  ghost predicate IsExpired(db: Db, id: Id, now: Time) {
    id in db.sessionsById && now > db.sessionsById[id].expiresAt
  }

  lemma NothingGone(db: Db)
    ensures S.DeleteSessions(db, {}) == db
  {
    assert S.HashesOf(db, {}) == {};
  }

  lemma GoneIsExpired(db: Db, gone: set<Id>, now: Time)
    requires forall id :: id in gone <==> IsExpired(db, id, now)
    ensures gone == S.Expired(db, now)
  {
  }

  lemma OneMoreGone(db: Db, gone: set<Id>, id: Id)
    ensures S.DeleteSession(S.DeleteSessions(db, gone), id) == S.DeleteSessions(db, gone + {id})
  {
    var more := gone + {id};
    if id in gone || id !in db.sessionHashById {
      assert S.HashesOf(db, more) == S.HashesOf(db, gone);
    } else {
      assert S.HashesOf(db, more) == S.HashesOf(db, gone) + {db.sessionHashById[id]};
    }
    var a, b := S.DeleteSession(S.DeleteSessions(db, gone), id), S.DeleteSessions(db, more);
    assert a.sessionHashes == b.sessionHashes;
    assert a.sessionHashById == b.sessionHashById;
    assert a.sessionsById == b.sessionsById;
  }

  class Service {
    const repo: MemoryRepository
    const sessionTtl: int
    const allowed: Allowed

    constructor (repo: MemoryRepository, sessionTtl: int, allowed: Allowed)
      ensures this.repo == repo && this.allowed == allowed
      ensures this.sessionTtl == if sessionTtl <= 0 then 7776000 else sessionTtl
    {
      this.repo, this.allowed := repo, allowed;
      this.sessionTtl := if sessionTtl <= 0 then DEFAULT_TTL else sessionTtl;
    }

    method CreateOrUpdateUser(claims: Claims, newId: Id, now: Time) returns (user: User)
      modifies repo
      ensures (repo.Snapshot(), user) == S.Login(old(repo.Snapshot()), claims, newId, now)
      ensures S.UsersOk(old(repo.Snapshot())) ==>
        user.id == S.AccountOf(old(repo.Snapshot()), claims, newId) && S.IsUpToDate(user, claims, now)
    {
      if S.UsersOk(repo.Snapshot()) {
        S.LoginIsOf(repo.Snapshot(), claims, newId, now);
      }
      var existing := repo.FindUserByOauth("google", claims.sub);
      if existing.None? {
        existing := repo.FindUserByEmail(claims.email);
      }
      if existing.Some? {
        user := existing.value;
        repo.UpdateUserLogin(user.id, claims.email, claims.name, claims.picture, now);
        user := user.(email := claims.email, name := claims.name, avatarUrl := claims.picture, lastLoginAt := now);
        return;
      }
      user := User(newId, claims.email, claims.name, claims.picture, "google", claims.sub, now, now, now);
      repo.CreateUser(user);
    }

    /** A session that lasts sessionTtl from now, under the hash of its token. */
    method CreateSession(
      userId: Id, userAgent: string, ipAddress: string, token: string, hash: string -> string, sessionId: Id,
      now: Time)
      modifies repo
      ensures repo.Snapshot()
           == S.CreateSession(old(repo.Snapshot()),
                              Session(sessionId, userId, now + sessionTtl, now,
                                      Truncated(userAgent, 512), Truncated(ipAddress, 45)),
                              hash(token))
    {
      var session := Session(
        sessionId, userId, now + sessionTtl, now, Truncated(userAgent, 512), Truncated(ipAddress, 45));
      repo.CreateSession(session, hash(token));
    }

    method ValidateSession(token: string, hash: string -> string, now: Time) returns (user: Option<User>)
      modifies repo
      ensures (repo.Snapshot(), user)
           == if token == "" then (old(repo.Snapshot()), None)
              else S.Validate(old(repo.Snapshot()), hash(token), allowed, now)
    {
      if token == "" {
        return None;
      }
      var found := repo.FindSessionByTokenHash(hash(token));
      if found.None? {
        return None;
      }
      var session, owner := found.value.0, found.value.1;
      if now > session.expiresAt {
        repo.DeleteSession(session.id);
        return None;
      }
      if allowed.Some? && !allowed.value(owner.email) {
        repo.DeleteSession(session.id);
        return None;
      }
      user := Some(owner);
    }

    method DeleteSession(token: string, hash: string -> string)
      modifies repo
      ensures repo.Snapshot()
              == if token == "" then old(repo.Snapshot()) else S.DeleteByHash(old(repo.Snapshot()), hash(token))
    {
      if token == "" {
        return;
      }
      var found := repo.FindSessionByTokenHash(hash(token));
      if found.None? {
        return;
      }
      repo.DeleteSession(found.value.0.id);
    }

    method CleanupExpiredSessions(now: Time) returns (deleted: nat)
      modifies repo
      ensures repo.Snapshot() == S.DeleteSessions(old(repo.Snapshot()), S.Expired(old(repo.Snapshot()), now))
      ensures deleted == |S.Expired(old(repo.Snapshot()), now)|
    {
      deleted := repo.DeleteExpiredSessions(now);
    }
  }

  const DEFAULT_TTL := 90 * 24 * 3600

  function Truncated(value: string, maxLen: nat): (kept: string)
    ensures kept <= value && |kept| <= maxLen && (|kept| < maxLen ==> kept == value)
  {
    if |value| <= maxLen then value else value[..maxLen]
  }
}
