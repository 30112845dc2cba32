/** The credential and session lifecycle of auth.c over the `users`,
    `auth_tokens` and `sessions` tables. Each table is a sequence of rows in
    insertion order; AUTOINCREMENT ids therefore grow along it. The clock is the
    parameter `now` (seconds; the stored DATETIME texts compare as these
    numbers do), and the random bytes behind every token and code are inputs. */
module Auth {
  import opened Common
  import Encoders
  import AuthCodes

  const TokenBytes: nat := 32
  const TokenExpirySecs: int := 900
  const SessionBytes: nat := 32
  const SessionExpirySecs: int := 2592000
  /** The longest email accepted, the path limit of section 4.5.3.1.3 of RFC 5321. */
  const MaxEmailLen: nat := 254

  /** An `auth_tokens` row: one emailed credential, usable as a link token or
      as a short code. `userId` is NULL until the email has a user. */
  datatype TokenRow = TokenRow(
    id: int,
    userId: Option<int>,
    email: string,
    token: string,
    shortCode: Option<string>,
    expiresAt: int,
    used: bool,
    attempts: nat)

  datatype UserRow = UserRow(id: int, email: string, displayName: Option<string>)

  datatype SessionRow = SessionRow(userId: int, token: string, expiresAt: int)

  /** The `User` struct filled by a session lookup. */
  datatype User = User(id: int, email: string, displayName: string)

  // ---------------------------------------------------------------------------
  // Queries

  /** The link lookup: this token, not used, not expired. */
  predicate LinkUsable(r: TokenRow, token: string, now: int) {
    r.token == token && !r.used && r.expiresAt > now
  }

  /** The code lookup: this email, not used, not expired, with a short code. */
  predicate CodeUsable(r: TokenRow, email: string, now: int) {
    r.email == email && !r.used && r.expiresAt > now && r.shortCode.Some?
  }

  /** The row the link lookup returns, if any. */
  function FindLink(rows: seq<TokenRow>, token: string, now: int): (r: Option<nat>)
    ensures r.Some? ==> r.value < |rows| && LinkUsable(rows[r.value], token, now)
    ensures r.None? ==> forall i :: 0 <= i < |rows| ==> !LinkUsable(rows[i], token, now)
  {
    if rows == [] then None
    else if LinkUsable(rows[0], token, now) then Some(0)
    else
      var r := FindLink(rows[1..], token, now);
      if r.Some? then Some(r.value + 1) else None
  }

  /** `ORDER BY id DESC LIMIT 1`: the last usable code row for the email. */
  function NewestCode(rows: seq<TokenRow>, email: string, now: int): (r: Option<nat>)
    ensures r.Some? ==> r.value < |rows| && CodeUsable(rows[r.value], email, now)
    ensures r.Some? ==> forall j :: r.value < j < |rows| ==> !CodeUsable(rows[j], email, now)
    ensures r.None? ==> forall i :: 0 <= i < |rows| ==> !CodeUsable(rows[i], email, now)
    decreases |rows|
  {
    if rows == [] then None
    else if CodeUsable(rows[|rows| - 1], email, now) then Some(|rows| - 1)
    else NewestCode(rows[..|rows| - 1], email, now)
  }

  /** `SELECT id FROM users WHERE email = ?`. */
  function UserByEmail(users: seq<UserRow>, email: string): (r: Option<nat>)
    ensures r.Some? ==> r.value < |users| && users[r.value].email == email
    ensures r.None? ==> forall i :: 0 <= i < |users| ==> users[i].email != email
  {
    if users == [] then None
    else if users[0].email == email then Some(0)
    else
      var r := UserByEmail(users[1..], email);
      if r.Some? then Some(r.value + 1) else None
  }

  /** `SELECT ... FROM users WHERE id = ?`. */
  function UserById(users: seq<UserRow>, id: int): (r: Option<nat>)
    ensures r.Some? ==> r.value < |users| && users[r.value].id == id
    ensures r.None? ==> forall i :: 0 <= i < |users| ==> users[i].id != id
  {
    if users == [] then None
    else if users[0].id == id then Some(0)
    else
      var r := UserById(users[1..], id);
      if r.Some? then Some(r.value + 1) else None
  }

  /** A live session with this token. */
  function FindSession(sessions: seq<SessionRow>, token: string, now: int): (r: Option<nat>)
    ensures r.Some? ==> r.value < |sessions| && sessions[r.value].token == token && sessions[r.value].expiresAt > now
    ensures r.None? ==> forall i :: 0 <= i < |sessions| ==> sessions[i].token != token || sessions[i].expiresAt <= now
  {
    if sessions == [] then None
    else if sessions[0].token == token && sessions[0].expiresAt > now then Some(0)
    else
      var r := FindSession(sessions[1..], token, now);
      if r.Some? then Some(r.value + 1) else None
  }

  predicate HasToken(rows: seq<TokenRow>, token: string) {
    exists i :: 0 <= i < |rows| && rows[i].token == token
  }

  predicate HasSession(sessions: seq<SessionRow>, token: string) {
    exists i :: 0 <= i < |sessions| && sessions[i].token == token
  }

  // ---------------------------------------------------------------------------
  // Table invariants

  /** An earlier credential row has a smaller id and a different token. */
  predicate TokenBefore(a: TokenRow, b: TokenRow) {
    a.id < b.id && a.token != b.token
  }

  /** An earlier user has a smaller id and a different email. */
  predicate UserBefore(a: UserRow, b: UserRow) {
    a.id < b.id && a.email != b.email
  }

  predicate SessionBefore(a: SessionRow, b: SessionRow) {
    a.token != b.token
  }

  /** Ids grow along the table and none exceeds the counter; tokens are
      UNIQUE; stored codes are C strings. */
  ghost predicate TokensValid(rows: seq<TokenRow>, lastId: int) {
    Pairwise(rows, TokenBefore) &&
    forall x :: x in rows ==> TokenFits(x, lastId)
  }

  /** A stored credential: its id is taken, its email passed the length check
      and its code is a C string. */
  predicate TokenFits(x: TokenRow, lastId: int) {
    0 < x.id <= lastId && |x.email| <= MaxEmailLen && (x.shortCode.Some? ==> NulFree(x.shortCode.value))
  }

  /** Ids grow along the table; emails are UNIQUE. */
  ghost predicate UsersValid(users: seq<UserRow>, lastId: int) {
    Pairwise(users, UserBefore) && forall u :: u in users ==> 0 < u.id <= lastId
  }

  /** Session tokens are UNIQUE. */
  ghost predicate SessionsValid(sessions: seq<SessionRow>) {
    Pairwise(sessions, SessionBefore)
  }

  /** The newest usable code row has the largest id among the usable rows. */
  lemma NewestCodeHasLargestId(rows: seq<TokenRow>, lastId: int, email: string, now: int)
    requires TokensValid(rows, lastId) && NewestCode(rows, email, now).Some?
    ensures forall j :: 0 <= j < |rows| && CodeUsable(rows[j], email, now) ==>
      rows[j].id <= rows[NewestCode(rows, email, now).value].id
  {
    var n := NewestCode(rows, email, now).value;
    forall j | 0 <= j < |rows| && CodeUsable(rows[j], email, now)
      ensures rows[j].id <= rows[n].id
    {
      if j < n {
        assert TokenBefore(rows[j], rows[n]);
      }
    }
  }

  /** Rewriting a credential's flags keeps the table valid. */
  lemma UpdateTokenKeepsValid(rows: seq<TokenRow>, lastId: int, i: nat, r: TokenRow)
    requires TokensValid(rows, lastId) && i < |rows|
    requires r.id == rows[i].id && r.token == rows[i].token && r.email == rows[i].email && r.shortCode == rows[i].shortCode
    ensures TokensValid(rows[i := r], lastId)
  {
    var t := rows[i := r];
    forall a, b | 0 <= a < b < |t| ensures TokenBefore(t[a], t[b]) {
      assert TokenBefore(rows[a], rows[b]);
    }
    forall x | x in t ensures TokenFits(x, lastId) {
      var k :| 0 <= k < |t| && t[k] == x;
      assert rows[k] in rows;
    }
  }

  /** Appending a row with a new token and the next id keeps the table valid. */
  lemma AppendTokenKeepsValid(rows: seq<TokenRow>, lastId: int, r: TokenRow)
    requires TokensValid(rows, lastId) && lastId >= 0 && !HasToken(rows, r.token) && r.id == lastId + 1
    requires TokenFits(r, lastId + 1)
    ensures TokensValid(rows + [r], lastId + 1)
  {
    var t := rows + [r];
    forall a, b | 0 <= a < b < |t| ensures TokenBefore(t[a], t[b]) {
      assert t[a] == rows[a] && rows[a] in rows;
      if b < |rows| {
        assert t[b] == rows[b];
      }
    }
  }

  lemma AppendUserKeepsValid(users: seq<UserRow>, lastId: int, u: UserRow)
    requires UsersValid(users, lastId) && lastId >= 0 && UserByEmail(users, u.email).None? && u.id == lastId + 1
    ensures UsersValid(users + [u], lastId + 1)
  {
    var t := users + [u];
    forall a, b | 0 <= a < b < |t| ensures UserBefore(t[a], t[b]) {
      assert t[a] == users[a] && users[a] in users;
      if b < |users| {
        assert t[b] == users[b];
      }
    }
  }

  lemma AppendSessionKeepsValid(sessions: seq<SessionRow>, s: SessionRow)
    requires SessionsValid(sessions) && !HasSession(sessions, s.token)
    ensures SessionsValid(sessions + [s])
  {
    var t := sessions + [s];
    forall a, b | 0 <= a < b < |t| ensures SessionBefore(t[a], t[b]) {
      assert t[a] == sessions[a];
      if b < |sessions| {
        assert t[b] == sessions[b];
      }
    }
  }

  // ---------------------------------------------------------------------------
  // Single use, deletion and the sweep

  /** Once a credential is marked used, its token is never accepted again, at
      any later time. */
  lemma UsedLinkIsDead(rows: seq<TokenRow>, lastId: int, i: nat, later: int)
    requires TokensValid(rows, lastId) && i < |rows|
    ensures FindLink(rows[i := rows[i].(used := true)], rows[i].token, later).None?
  {
    var rows' := rows[i := rows[i].(used := true)];
    forall j | 0 <= j < |rows'|
      ensures !LinkUsable(rows'[j], rows[i].token, later)
    {
      if j < i {
        assert TokenBefore(rows[j], rows[i]);
      } else if j > i {
        assert TokenBefore(rows[i], rows[j]);
      }
    }
  }

  /** `DELETE FROM sessions WHERE token = ?`. */
  function WithoutSession(sessions: seq<SessionRow>, token: string): (r: seq<SessionRow>)
    ensures forall s :: s in r <==> s in sessions && s.token != token
  {
    Filter(sessions, (s: SessionRow) => s.token != token)
  }

  /** After logout no lookup finds the token, at any time. */
  lemma LogoutEndsSession(sessions: seq<SessionRow>, token: string, later: int)
    ensures FindSession(WithoutSession(sessions, token), token, later).None?
  {
    var r := WithoutSession(sessions, token);
    forall i | 0 <= i < |r| ensures r[i].token != token {
      assert r[i] in r;
    }
  }

  /** The credential sweep: `DELETE ... WHERE expires_at < now`. */
  function UnexpiredTokens(rows: seq<TokenRow>, now: int): (r: seq<TokenRow>)
    ensures forall x :: x in r <==> x in rows && x.expiresAt >= now
  {
    Filter(rows, (x: TokenRow) => x.expiresAt >= now)
  }

  /** The session sweep. */
  function UnexpiredSessions(sessions: seq<SessionRow>, now: int): (r: seq<SessionRow>)
    ensures forall s :: s in r <==> s in sessions && s.expiresAt >= now
  {
    Filter(sessions, (s: SessionRow) => s.expiresAt >= now)
  }

  /** The sweep never removes a credential a lookup at the same instant could
      accept, and a credential expiring exactly now is kept, though no lookup
      accepts it. */
  lemma SweepKeepsLiveCredentials(rows: seq<TokenRow>, now: int, token: string)
    ensures FindLink(UnexpiredTokens(rows, now), token, now).Some? <==> FindLink(rows, token, now).Some?
    ensures forall x :: x in rows && x.expiresAt == now ==> x in UnexpiredTokens(rows, now) && !LinkUsable(x, token, now)
  {
    var r := UnexpiredTokens(rows, now);
    if FindLink(rows, token, now).Some? {
      var i := FindLink(rows, token, now).value;
      assert rows[i] in r;
      var k :| 0 <= k < |r| && r[k] == rows[i];
    }
    if FindLink(r, token, now).Some? {
      var i := FindLink(r, token, now).value;
      assert r[i] in rows;
      var k :| 0 <= k < |rows| && rows[k] == r[i];
    }
  }

  /** The same for sessions. */
  lemma SweepKeepsLiveSessions(sessions: seq<SessionRow>, now: int, token: string)
    ensures FindSession(UnexpiredSessions(sessions, now), token, now).Some? <==> FindSession(sessions, token, now).Some?
  {
    var r := UnexpiredSessions(sessions, now);
    if FindSession(sessions, token, now).Some? {
      var i := FindSession(sessions, token, now).value;
      assert sessions[i] in r;
      var k :| 0 <= k < |r| && r[k] == sessions[i];
    }
    if FindSession(r, token, now).Some? {
      var i := FindSession(r, token, now).value;
      assert r[i] in sessions;
      var k :| 0 <= k < |sessions| && sessions[k] == r[i];
    }
  }

  /** The deletions keep the table invariants. */
  lemma DeletionsKeepValid(rows: seq<TokenRow>, lastId: int, sessions: seq<SessionRow>, now: int, token: string)
    requires TokensValid(rows, lastId) && SessionsValid(sessions)
    ensures TokensValid(UnexpiredTokens(rows, now), lastId)
    ensures SessionsValid(UnexpiredSessions(sessions, now)) && SessionsValid(WithoutSession(sessions, token))
  {
    FilterPairwise(rows, (x: TokenRow) => x.expiresAt >= now, TokenBefore);
    FilterPairwise(sessions, (s: SessionRow) => s.expiresAt >= now, SessionBefore);
    FilterPairwise(sessions, (s: SessionRow) => s.token != token, SessionBefore);
  }

  // ---------------------------------------------------------------------------
  // Ownership: which user a credential and a session belong to

  /** The id of the user registered under this email, if any. */
  function EmailOwner(users: seq<UserRow>, email: string): (r: Option<int>)
    ensures r.Some? <==> UserByEmail(users, email).Some?
    ensures r.Some? ==> exists i :: 0 <= i < |users| && users[i].email == email && users[i].id == r.value
  {
    var i := UserByEmail(users, email);
    if i.Some? then Some(users[i.value].id) else None
  }

  /** A credential that names a user names the user of its email. */
  ghost predicate Owned(rows: seq<TokenRow>, users: seq<UserRow>) {
    forall x :: x in rows && x.userId.Some? ==> EmailOwner(users, x.email) == x.userId
  }

  /** Every session refers to a user (the foreign key on `sessions.user_id`). */
  ghost predicate Linked(sessions: seq<SessionRow>, users: seq<UserRow>) {
    forall s :: s in sessions ==> UserById(users, s.userId).Some?
  }

  /** The email lookup over a table with one more row. */
  lemma {:induction false} UserByEmailAppend(users: seq<UserRow>, u: UserRow, email: string)
    ensures UserByEmail(users + [u], email) ==
      if UserByEmail(users, email).Some? then UserByEmail(users, email)
      else if u.email == email then Some(|users|) else None
  {
    if users != [] {
      assert (users + [u])[1..] == users[1..] + [u];
      UserByEmailAppend(users[1..], u, email);
    }
  }

  /** The id lookup over a table with one more row. */
  lemma {:induction false} UserByIdAppend(users: seq<UserRow>, u: UserRow, id: int)
    ensures UserById(users + [u], id) ==
      if UserById(users, id).Some? then UserById(users, id)
      else if u.id == id then Some(|users|) else None
  {
    if users != [] {
      assert (users + [u])[1..] == users[1..] + [u];
      UserByIdAppend(users[1..], u, id);
    }
  }

  /** Registering a new email leaves every existing owner and every session's
      user in place, and makes the new user the owner of its email. */
  lemma AppendUserKeepsOwners(rows: seq<TokenRow>, users: seq<UserRow>, sessions: seq<SessionRow>, u: UserRow)
    requires Owned(rows, users) && Linked(sessions, users) && UserByEmail(users, u.email).None?
    ensures Owned(rows, users + [u]) && Linked(sessions, users + [u])
    ensures EmailOwner(users + [u], u.email) == Some(u.id) && UserById(users + [u], u.id).Some?
  {
    forall x | x in rows && x.userId.Some? ensures EmailOwner(users + [u], x.email) == x.userId {
      UserByEmailAppend(users, u, x.email);
    }
    forall t | t in sessions ensures UserById(users + [u], t.userId).Some? {
      UserByIdAppend(users, u, t.userId);
    }
    UserByEmailAppend(users, u, u.email);
    UserByIdAppend(users, u, u.id);
  }

  /** A credential row just written is what the link lookup and the code
      lookup find, for the whole of its lifetime. */
  lemma FreshCredentialUsable(rows: seq<TokenRow>, lastId: int, r: TokenRow, later: int)
    requires TokensValid(rows, lastId) && !HasToken(rows, r.token)
    requires !r.used && r.shortCode.Some? && later < r.expiresAt
    ensures FindLink(rows + [r], r.token, later) == Some(|rows|)
    ensures NewestCode(rows + [r], r.email, later) == Some(|rows|)
  {
    FindLinkAppend(rows, r, later);
  }

  lemma {:induction false} FindLinkAppend(rows: seq<TokenRow>, r: TokenRow, later: int)
    requires !HasToken(rows, r.token) && LinkUsable(r, r.token, later)
    ensures FindLink(rows + [r], r.token, later) == Some(|rows|)
  {
    if rows != [] {
      assert (rows + [r])[1..] == rows[1..] + [r];
      assert rows[0].token != r.token;
      assert !HasToken(rows[1..], r.token) by {
        forall i | 0 <= i < |rows| - 1 ensures rows[1..][i].token != r.token {
          assert rows[1..][i] == rows[i + 1];
        }
      }
      FindLinkAppend(rows[1..], r, later);
    }
  }

  /** A session row just written is found by its token until it expires. */
  lemma {:induction false} FreshSessionFound(sessions: seq<SessionRow>, s: SessionRow, later: int)
    requires !HasSession(sessions, s.token) && later < s.expiresAt
    ensures FindSession(sessions + [s], s.token, later) == Some(|sessions|)
  {
    if sessions != [] {
      assert (sessions + [s])[1..] == sessions[1..] + [s];
      assert sessions[0].token != s.token;
      assert !HasSession(sessions[1..], s.token) by {
        forall i | 0 <= i < |sessions| - 1 ensures sessions[1..][i].token != s.token {
          assert sessions[1..][i] == sessions[i + 1];
        }
      }
      FreshSessionFound(sessions[1..], s, later);
    }
  }

  /** A registered user's id is positive, so it is never the 0 that stands
      for a NULL `user_id`. */
  lemma OwnerIdPositive(users: seq<UserRow>, lastId: int, email: string)
    requires UsersValid(users, lastId) && EmailOwner(users, email).Some?
    ensures EmailOwner(users, email).value > 0
  {
    var i :| 0 <= i < |users| && users[i].email == email && users[i].id == EmailOwner(users, email).value;
    assert users[i] in users;
  }

  /** Appending a credential whose user, if named, owns its email. */
  lemma AppendTokenKeepsOwned(rows: seq<TokenRow>, users: seq<UserRow>, r: TokenRow)
    requires Owned(rows, users) && r.userId == EmailOwner(users, r.email)
    ensures Owned(rows + [r], users)
  {
    forall x | x in rows + [r] && x.userId.Some? ensures EmailOwner(users, x.email) == x.userId {
      if x != r {
        assert x in rows;
      }
    }
  }

  // ---------------------------------------------------------------------------
  // The store

  /** A 32-byte token written as hex into a 65-byte buffer, as the text up to
      its terminator. */
  method TokenText(bytes: seq<byte>) returns (h: string)
    requires |bytes| == 32
    ensures h == Encoders.Hex(bytes) && |h| == 64
  {
    var buf := new char[65];
    var rc := Encoders.GenerateTokenHex(buf, bytes);
    h := buf[..64];
  }

  /** A short code written into a buffer of `codeLen + 1` bytes. */
  method CodeText(bytes: seq<byte>, codeLen: nat) returns (c: string)
    requires |bytes| == codeLen && codeLen > 0
    ensures c == AuthCodes.ShortCode(bytes) && NulFree(c)
  {
    var buf := new char[codeLen + 1];
    var rc := AuthCodes.GenerateShortCode(buf, codeLen, bytes);
    c := buf[..codeLen];
  }

  /** The three tables with their AUTOINCREMENT counters. `codeLen` and
      `maxCodeAttempts` are the build-time code length and attempt limit. */
  class AuthStore {
    const codeLen: nat
    const maxCodeAttempts: nat
    var tokens: seq<TokenRow>
    var users: seq<UserRow>
    var sessions: seq<SessionRow>
    var lastTokenId: int
    var lastUserId: int

    ghost predicate Valid()
      reads this
    {
      codeLen > 0 && lastTokenId >= 0 && lastUserId >= 0 &&
      TokensValid(tokens, lastTokenId) && UsersValid(users, lastUserId) && SessionsValid(sessions) &&
      Owned(tokens, users) && Linked(sessions, users)
    }

    constructor(codeLen: nat, maxCodeAttempts: nat)
      requires codeLen > 0
      ensures Valid() && this.codeLen == codeLen && this.maxCodeAttempts == maxCodeAttempts
      ensures tokens == [] && users == [] && sessions == [] && lastTokenId == 0 && lastUserId == 0
    {
      this.codeLen := codeLen;
      this.maxCodeAttempts := maxCodeAttempts;
      tokens := [];
      users := [];
      sessions := [];
      lastTokenId := 0;
      lastUserId := 0;
    }

    /** Emails a new credential: a 64-digit hex link token and a short code,
        both valid for 15 minutes, under the email's user if it has one. */
    method CreateMagicLink(email: Option<string>, tokenBytes: seq<byte>, codeBytes: seq<byte>, now: int)
      returns (rc: int, token: string, code: string)
      requires Valid() && |tokenBytes| == TokenBytes && |codeBytes| == codeLen
      modifies this
      ensures Valid() && users == old(users) && sessions == old(sessions) && lastUserId == old(lastUserId)
      ensures rc == 0 || rc == -1
      ensures rc == 0 <==> email.Some? && 0 < |email.value| <= MaxEmailLen && !HasToken(old(tokens), Encoders.Hex(tokenBytes))
      ensures rc == -1 ==> tokens == old(tokens) && lastTokenId == old(lastTokenId)
      ensures rc == 0 ==> token == Encoders.Hex(tokenBytes) && code == AuthCodes.ShortCode(codeBytes)
      ensures rc == 0 ==> lastTokenId == old(lastTokenId) + 1
      ensures rc == 0 ==>
        tokens == old(tokens) + [TokenRow(lastTokenId, EmailOwner(users, email.value), email.value, token, Some(code), now + TokenExpirySecs, false, 0)]
    {
      token, code := [], [];
      if email.None? || |email.value| == 0 || |email.value| > MaxEmailLen {
        return -1, token, code;
      }
      token := TokenText(tokenBytes);
      code := CodeText(codeBytes, codeLen);
      if HasToken(tokens, token) {
        return -1, token, code;
      }
      var r := TokenRow(lastTokenId + 1, EmailOwner(users, email.value), email.value, token, Some(code), now + TokenExpirySecs, false, 0);
      AppendTokenKeepsValid(tokens, lastTokenId, r);
      AppendTokenKeepsOwned(tokens, users, r);
      tokens := tokens + [r];
      lastTokenId := lastTokenId + 1;
      rc := 0;
    }

    /** `INSERT INTO users (email) VALUES (?)`, refused when the email is
        taken. */
    method InsertUser(email: string) returns (rc: int, uid: int)
      requires Valid()
      modifies this
      ensures Valid() && tokens == old(tokens) && sessions == old(sessions) && lastTokenId == old(lastTokenId)
      ensures rc == 0 || rc == -1
      ensures rc == -1 <==> UserByEmail(old(users), email).Some?
      ensures rc == -1 ==> users == old(users) && lastUserId == old(lastUserId)
      ensures rc == 0 ==> uid == old(lastUserId) + 1 && lastUserId == uid && users == old(users) + [UserRow(uid, email, None)]
      ensures rc == 0 ==> EmailOwner(users, email) == Some(uid)
    {
      if UserByEmail(users, email).Some? {
        return -1, 0;
      }
      var u := UserRow(lastUserId + 1, email, None);
      AppendUserKeepsValid(users, lastUserId, u);
      AppendUserKeepsOwners(tokens, users, sessions, u);
      users := users + [u];
      lastUserId := lastUserId + 1;
      rc, uid := 0, lastUserId;
    }

    /** `UPDATE auth_tokens SET ... WHERE id = ?` on row `i`: only its flags
        and attempt count change. */
    method UpdateToken(i: nat, r: TokenRow)
      requires Valid() && i < |tokens|
      requires r == tokens[i].(used := r.used, attempts := r.attempts)
      modifies this
      ensures Valid() && tokens == old(tokens)[i := r]
      ensures users == old(users) && sessions == old(sessions)
      ensures lastTokenId == old(lastTokenId) && lastUserId == old(lastUserId)
    {
      UpdateTokenKeepsValid(tokens, lastTokenId, i, r);
      assert Owned(tokens[i := r], users) by {
        forall x | x in tokens[i := r] && x.userId.Some? ensures EmailOwner(users, x.email) == x.userId {
          var k :| 0 <= k < |tokens| && tokens[i := r][k] == x;
          assert tokens[k] in tokens;
        }
      }
      tokens := tokens[i := r];
    }

    /** Opens a 30-day session for `uid` under the hex of `sessionBytes`,
        refused when the token is taken. */
    method OpenSession(uid: int, sessionBytes: seq<byte>, now: int) returns (rc: int, session: string)
      requires Valid() && |sessionBytes| == SessionBytes && UserById(users, uid).Some?
      modifies this
      ensures Valid() && tokens == old(tokens) && users == old(users)
      ensures lastTokenId == old(lastTokenId) && lastUserId == old(lastUserId)
      ensures session == Encoders.Hex(sessionBytes)
      ensures rc == 0 || rc == -1
      ensures rc == -1 <==> HasSession(old(sessions), session)
      ensures rc == -1 ==> sessions == old(sessions)
      ensures rc == 0 ==> sessions == old(sessions) + [SessionRow(uid, session, now + SessionExpirySecs)]
    {
      session := TokenText(sessionBytes);
      if HasSession(sessions, session) {
        return -1, session;
      }
      var t := SessionRow(uid, session, now + SessionExpirySecs);
      AppendSessionKeepsValid(sessions, t);
      sessions := sessions + [t];
      rc := 0;
    }

    /** The "new user registration" step of both sign-ins: a credential whose
        `user_id` is NULL (`known` is None) registers its email, which fails
        when that email has meanwhile been registered; otherwise its user is
        the credential's. */
    method Register(known: Option<int>, email: string) returns (rc: int, uid: int)
      requires Valid() && (known.Some? ==> EmailOwner(users, email) == known)
      modifies this
      ensures Valid() && tokens == old(tokens) && sessions == old(sessions) && lastTokenId == old(lastTokenId)
      ensures rc == 0 || rc == -1
      ensures rc == -1 <==> known.None? && UserByEmail(old(users), email).Some?
      ensures rc == -1 || known.Some? ==> users == old(users) && lastUserId == old(lastUserId)
      ensures rc == 0 && known.None? ==>
        users == old(users) + [UserRow(old(lastUserId) + 1, email, None)] && lastUserId == old(lastUserId) + 1
      ensures rc == 0 ==>
        uid == (if known.Some? then known.value else old(lastUserId) + 1) &&
        EmailOwner(users, email) == Some(uid) && UserById(users, uid).Some?
    {
      uid := if known.Some? then known.value else 0;
      if known.Some? {
        OwnerIdPositive(users, lastUserId, email);
      }
      if uid == 0 {
        rc, uid := InsertUser(email);
        if rc != 0 {
          return;
        }
      }
      rc := 0;
    }

    /** Signs in with a link token. A credential that names no user registers
        its email first, and fails, leaving the credential unused, when that
        email has meanwhile been registered. */
    method ValidateMagicLink(token: Option<string>, sessionBytes: seq<byte>, now: int)
      returns (rc: int, session: string, userId: int)
      requires Valid() && |sessionBytes| == SessionBytes
      modifies this
      ensures Valid() && lastTokenId == old(lastTokenId)
      ensures rc == 0 || rc == -1
      ensures token.None? || FindLink(old(tokens), token.value, now).None? ==>
        rc == -1 && tokens == old(tokens) && users == old(users) && sessions == old(sessions)
      ensures token.Some? && FindLink(old(tokens), token.value, now).Some? ==>
        var i := FindLink(old(tokens), token.value, now).value;
        var row := old(tokens)[i];
        var taken := row.userId.None? && UserByEmail(old(users), row.email).Some?;
        (taken ==>
          rc == -1 && tokens == old(tokens) && users == old(users) && sessions == old(sessions)) &&
        (!taken ==> tokens == old(tokens)[i := row.(used := true)]) &&
        (row.userId.Some? ==> users == old(users)) &&
        (row.userId.None? && !taken ==>
          users == old(users) + [UserRow(old(lastUserId) + 1, row.email, None)] && lastUserId == old(lastUserId) + 1) &&
        (!taken ==> (rc == 0 <==> !HasSession(old(sessions), Encoders.Hex(sessionBytes)))) &&
        (rc == 0 ==>
          userId == (if row.userId.Some? then row.userId.value else old(lastUserId) + 1) &&
          EmailOwner(users, row.email) == Some(userId) && session == Encoders.Hex(sessionBytes) &&
          sessions == old(sessions) + [SessionRow(userId, session, now + SessionExpirySecs)])
      ensures rc == -1 ==> sessions == old(sessions)
      ensures users == old(users) ==> lastUserId == old(lastUserId)
      ensures rc == 0 ==> token.Some? && forall later :: FindLink(tokens, token.value, later).None?
    {
      session, userId := [], 0;
      if token.None? {
        return -1, session, userId;
      }
      var found := FindLink(tokens, token.value, now);
      if found.None? {
        return -1, session, userId;
      }
      var i := found.value;
      assert tokens[i] in tokens;
      var row := tokens[i];
      var email := Truncate(row.email, 255);
      assert email == row.email;
      var urc, uid := Register(row.userId, email);
      if urc != 0 {
        return -1, session, userId;
      }
      UpdateToken(i, row.(used := true));
      UsedLinkIsDead(old(tokens), lastTokenId, i, now);
      assert forall later :: FindLink(tokens, token.value, later).None? by {
        forall later ensures FindLink(tokens, token.value, later).None? {
          UsedLinkIsDead(old(tokens), lastTokenId, i, later);
        }
      }
      rc, session := OpenSession(uid, sessionBytes, now);
      userId := uid;
    }
  
    /** The end of a code sign-in once the code matched: the credential in row
        `n` is burnt first, then its email is registered if it has no user,
        then the session is opened. */
    method RedeemCode(n: nat, email: string, sessionBytes: seq<byte>, now: int)
      returns (rc: int, session: string, userId: int)
      requires Valid() && |sessionBytes| == SessionBytes && n < |tokens| && tokens[n].email == email
      modifies this
      ensures Valid() && lastTokenId == old(lastTokenId)
      ensures rc == 0 || rc == -1
      ensures var row := old(tokens)[n];
        var taken := row.userId.None? && UserByEmail(old(users), email).Some?;
        tokens == old(tokens)[n := row.(used := true)] &&
        (taken ==> rc == -1 && users == old(users) && sessions == old(sessions)) &&
        (row.userId.Some? ==> users == old(users)) &&
        (row.userId.None? && !taken ==>
          users == old(users) + [UserRow(old(lastUserId) + 1, email, None)] && lastUserId == old(lastUserId) + 1) &&
        (!taken ==> (rc == 0 <==> !HasSession(old(sessions), Encoders.Hex(sessionBytes)))) &&
        (rc == 0 ==>
          userId == (if row.userId.Some? then row.userId.value else old(lastUserId) + 1) &&
          EmailOwner(users, email) == Some(userId) && session == Encoders.Hex(sessionBytes) &&
          sessions == old(sessions) + [SessionRow(userId, session, now + SessionExpirySecs)])
      ensures rc == -1 ==> sessions == old(sessions)
      ensures users == old(users) ==> lastUserId == old(lastUserId)
    {
      session, userId := [], 0;
      assert tokens[n] in tokens;
      var row := tokens[n];
      UpdateToken(n, row.(used := true));
      var urc, uid := Register(row.userId, email);
      if urc != 0 {
        return -1, session, userId;
      }
      rc, session := OpenSession(uid, sessionBytes, now);
      userId := uid;
    }

    /** What a code sign-in does with the newest live code row `n` for the
        email: a row whose attempts have reached the limit is burnt, a wrong
        code costs one attempt, and a right one is redeemed. */
    method AttemptCode(n: nat, email: string, code: string, sessionBytes: seq<byte>, now: int)
      returns (rc: int, session: string, userId: int)
      requires Valid() && |sessionBytes| == SessionBytes && NulFree(code)
      requires n < |tokens| && CodeUsable(tokens[n], email, now)
      modifies this
      ensures Valid() && lastTokenId == old(lastTokenId)
      ensures rc == 0 || rc == -1
      ensures var row := old(tokens)[n];
        var matched := row.attempts < maxCodeAttempts && AuthCodes.CodeMatches(code, row.shortCode.value, codeLen);
        var taken := row.userId.None? && UserByEmail(old(users), email).Some?;
        (row.attempts >= maxCodeAttempts ==>
          rc == -1 && tokens == old(tokens)[n := row.(used := true)] && users == old(users) && sessions == old(sessions)) &&
        (row.attempts < maxCodeAttempts && !matched ==>
          rc == -1 && tokens == old(tokens)[n := row.(attempts := row.attempts + 1)] && users == old(users) && sessions == old(sessions)) &&
        (matched ==> tokens == old(tokens)[n := row.(used := true)]) &&
        (matched && taken ==> rc == -1 && users == old(users) && sessions == old(sessions)) &&
        (matched && row.userId.Some? ==> users == old(users)) &&
        (matched && row.userId.None? && !taken ==>
          users == old(users) + [UserRow(old(lastUserId) + 1, email, None)] && lastUserId == old(lastUserId) + 1) &&
        (matched && !taken ==> (rc == 0 <==> !HasSession(old(sessions), Encoders.Hex(sessionBytes)))) &&
        (rc == 0 ==>
          matched && userId == (if row.userId.Some? then row.userId.value else old(lastUserId) + 1) &&
          EmailOwner(users, email) == Some(userId) && session == Encoders.Hex(sessionBytes) &&
          sessions == old(sessions) + [SessionRow(userId, session, now + SessionExpirySecs)])
      ensures rc == -1 ==> sessions == old(sessions)
      ensures users == old(users) ==> lastUserId == old(lastUserId)
    {
      session, userId := [], 0;
      assert tokens[n] in tokens;
      var row := tokens[n];
      if row.attempts >= maxCodeAttempts {
        UpdateToken(n, row.(used := true));
        return -1, session, userId;
      }
      var matched := AuthCodes.CodesMatch(code, row.shortCode.value, codeLen);
      if !matched {
        UpdateToken(n, row.(attempts := row.attempts + 1));
        return -1, session, userId;
      }
      rc, session, userId := RedeemCode(n, email, sessionBytes, now);
    }

    /** Signs in with the emailed short code, compared case-insensitively
        against the newest live code for the email (`AttemptCode`). A missing
        email or code, or no live code row, fails with nothing changed. */
    method ValidateCode(email: Option<string>, code: Option<string>, sessionBytes: seq<byte>, now: int)
      returns (rc: int, session: string, userId: int)
      requires Valid() && |sessionBytes| == SessionBytes
      requires code.Some? ==> NulFree(code.value)
      modifies this
      ensures Valid() && lastTokenId == old(lastTokenId)
      ensures rc == 0 || rc == -1
      ensures email.None? || code.None? || NewestCode(old(tokens), email.value, now).None? ==>
        rc == -1 && tokens == old(tokens) && users == old(users) && sessions == old(sessions)
      ensures email.Some? && code.Some? && NewestCode(old(tokens), email.value, now).Some? ==>
        var n := NewestCode(old(tokens), email.value, now).value;
        var row := old(tokens)[n];
        var matched := row.attempts < maxCodeAttempts && AuthCodes.CodeMatches(code.value, row.shortCode.value, codeLen);
        var taken := row.userId.None? && UserByEmail(old(users), email.value).Some?;
        (row.attempts >= maxCodeAttempts ==>
          rc == -1 && tokens == old(tokens)[n := row.(used := true)] && users == old(users) && sessions == old(sessions)) &&
        (row.attempts < maxCodeAttempts && !matched ==>
          rc == -1 && tokens == old(tokens)[n := row.(attempts := row.attempts + 1)] && users == old(users) && sessions == old(sessions)) &&
        (matched ==> tokens == old(tokens)[n := row.(used := true)]) &&
        (matched && taken ==> rc == -1 && users == old(users) && sessions == old(sessions)) &&
        (matched && row.userId.Some? ==> users == old(users)) &&
        (matched && row.userId.None? && !taken ==>
          users == old(users) + [UserRow(old(lastUserId) + 1, email.value, None)] && lastUserId == old(lastUserId) + 1) &&
        (matched && !taken ==> (rc == 0 <==> !HasSession(old(sessions), Encoders.Hex(sessionBytes)))) &&
        (rc == 0 ==>
          matched && userId == (if row.userId.Some? then row.userId.value else old(lastUserId) + 1) &&
          EmailOwner(users, email.value) == Some(userId) && session == Encoders.Hex(sessionBytes) &&
          sessions == old(sessions) + [SessionRow(userId, session, now + SessionExpirySecs)])
      ensures rc == -1 ==> sessions == old(sessions)
      ensures users == old(users) ==> lastUserId == old(lastUserId)
    {
      session, userId := [], 0;
      if email.None? || code.None? {
        return -1, session, userId;
      }
      var found := NewestCode(tokens, email.value, now);
      if found.None? {
        return -1, session, userId;
      }
      rc, session, userId := AttemptCode(found.value, email.value, code.value, sessionBytes, now);
    }

    /** The user behind a live session; the email and display name are cut to
        the 255 characters the `User` struct holds. */
    method UserFromSession(token: Option<string>, now: int) returns (rc: int, user: User)
      requires Valid()
      ensures rc == 0 || rc == -1
      ensures rc == 0 <==> token.Some? && FindSession(sessions, token.value, now).Some?
      ensures rc == -1 ==> user == User(0, [], [])
      ensures rc == 0 ==>
        var s := sessions[FindSession(sessions, token.value, now).value];
        UserById(users, s.userId).Some? &&
        var u := users[UserById(users, s.userId).value];
        user == User(u.id, Truncate(u.email, 255), if u.displayName.Some? then Truncate(u.displayName.value, 255) else [])
    {
      user := User(0, [], []);
      if token.None? {
        return -1, user;
      }
      var found := FindSession(sessions, token.value, now);
      if found.None? {
        return -1, user;
      }
      assert sessions[found.value] in sessions;
      var k := UserById(users, sessions[found.value].userId);
      if k.None? {
        return -1, user;
      }
      var u := users[k.value];
      var name := if u.displayName.Some? then Truncate(u.displayName.value, 255) else [];
      user := User(u.id, Truncate(u.email, 255), name);
      rc := 0;
    }

    /** `DELETE FROM sessions WHERE token = ?`. */
    method Logout(token: Option<string>) returns (rc: int)
      requires Valid()
      modifies this
      ensures Valid() && tokens == old(tokens) && users == old(users)
      ensures lastTokenId == old(lastTokenId) && lastUserId == old(lastUserId)
      ensures rc == 0 || rc == -1
      ensures rc == -1 <==> token.None?
      ensures rc == -1 ==> sessions == old(sessions)
      ensures rc == 0 ==> sessions == WithoutSession(old(sessions), token.value)
    {
      if token.None? {
        return -1;
      }
      DeletionsKeepValid(tokens, lastTokenId, sessions, 0, token.value);
      sessions := WithoutSession(sessions, token.value);
      rc := 0;
    }

    /** Deletes the credentials and sessions that expired strictly before
        `now`. */
    method CleanupExpired(now: int)
      requires Valid()
      modifies this
      ensures Valid() && users == old(users)
      ensures lastTokenId == old(lastTokenId) && lastUserId == old(lastUserId)
      ensures tokens == UnexpiredTokens(old(tokens), now) && sessions == UnexpiredSessions(old(sessions), now)
    {
      DeletionsKeepValid(tokens, lastTokenId, sessions, now, []);
      tokens := UnexpiredTokens(tokens, now);
      sessions := UnexpiredSessions(sessions, now);
    }
  }

  /** A table that holds neither of two tokens still lacks both after one
      more row carrying the first of them, used or not. */
  lemma TokenStillFree(rows: seq<TokenRow>, r: TokenRow, other: string)
    requires !HasToken(rows, other) && r.token != other
    ensures !HasToken(rows + [r], other) && !HasToken((rows + [r])[|rows| := r.(used := true)], other)
  {
    var t := (rows + [r])[|rows| := r.(used := true)];
    forall k | 0 <= k < |t| ensures t[k].token != other {
      if k < |rows| {
        assert t[k] == rows[k];
      }
    }
  }

  lemma SessionStillFree(sessions: seq<SessionRow>, s: SessionRow, other: string)
    requires !HasSession(sessions, other) && s.token != other
    ensures !HasSession(sessions + [s], other)
  {
    forall k | 0 <= k < |sessions| + 1 ensures (sessions + [s])[k].token != other {
      if k < |sessions| {
        assert (sessions + [s])[k] == sessions[k];
      }
    }
  }

  /** Two link logins for one email, each with a fresh credential and a
      fresh session token: all four calls succeed, the second login finds the
      user the first one registered or found, so both return the same id, and
      the two sessions differ. */
  method RepeatedLinkLogin(s: AuthStore, email: string,
                           tokenBytes1: seq<byte>, codeBytes1: seq<byte>, sessionBytes1: seq<byte>,
                           tokenBytes2: seq<byte>, codeBytes2: seq<byte>, sessionBytes2: seq<byte>, now: int)
    returns (ok: bool, id1: int, id2: int, session1: string, session2: string)
    requires s.Valid() && 0 < |email| <= MaxEmailLen
    requires |tokenBytes1| == TokenBytes && |tokenBytes2| == TokenBytes
    requires |codeBytes1| == s.codeLen && |codeBytes2| == s.codeLen
    requires |sessionBytes1| == SessionBytes && |sessionBytes2| == SessionBytes
    requires !HasToken(s.tokens, Encoders.Hex(tokenBytes1)) && !HasToken(s.tokens, Encoders.Hex(tokenBytes2))
    requires Encoders.Hex(tokenBytes1) != Encoders.Hex(tokenBytes2)
    requires !HasSession(s.sessions, Encoders.Hex(sessionBytes1)) && !HasSession(s.sessions, Encoders.Hex(sessionBytes2))
    requires Encoders.Hex(sessionBytes1) != Encoders.Hex(sessionBytes2)
    modifies s
    ensures s.Valid() && ok
    ensures id1 == id2 && EmailOwner(s.users, email) == Some(id1)
    ensures session1 != session2
  {
    var t0, last0 := s.tokens, s.lastTokenId;
    var rc1, token1, _ := s.CreateMagicLink(Some(email), tokenBytes1, codeBytes1, now);
    FreshCredentialUsable(t0, last0, s.tokens[|t0|], now);
    var rc2;
    rc2, session1, id1 := s.ValidateMagicLink(Some(token1), sessionBytes1, now);
    TokenStillFree(t0, s.tokens[|t0|].(used := false), Encoders.Hex(tokenBytes2));
    SessionStillFree(old(s.sessions), s.sessions[|s.sessions| - 1], Encoders.Hex(sessionBytes2));
    var t1, last1 := s.tokens, s.lastTokenId;
    var rc3, token2, _ := s.CreateMagicLink(Some(email), tokenBytes2, codeBytes2, now);
    FreshCredentialUsable(t1, last1, s.tokens[|t1|], now);
    var rc4;
    rc4, session2, id2 := s.ValidateMagicLink(Some(token2), sessionBytes2, now);
    ok := rc1 == 0 && rc2 == 0 && rc3 == 0 && rc4 == 0;
  }
}
