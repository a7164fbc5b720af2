/**
 The auth-worker's tables and its internal endpoints as transitions of them: refresh tokens,
 sessions and revoked access tokens. Each endpoint is one atomic step.
 */
module TokenTables {

  import opened Options

  datatype Row = Row(id: string, user: string, session: string, hash: string, expiresAt: int, usedAt: Option<int>)

  datatype SessionRow = SessionRow(user: string, expiresAt: int)

  /** Sessions by id, refresh tokens in the order of insertion, revocations by token id. */
  datatype Tables = Tables(sessions: map<string, SessionRow>, tokens: seq<Row>, revocations: map<string, int>)

  /** Whom a validated refresh token belongs to. */
  datatype Owner = Owner(user: string, session: string)

  // ---------- Transitions ----------

  predicate Live(row: Row, hash: string, now: int) {
    row.hash == hash && row.expiresAt > now && row.usedAt == None
  }

  /** The first row the query for a token returns, |tokens| if there is none. */
  function FirstLive(tokens: seq<Row>, hash: string, now: int): (i: nat)
    ensures i <= |tokens|
    ensures i < |tokens| ==> Live(tokens[i], hash, now)
    ensures forall j :: 0 <= j < i ==> !Live(tokens[j], hash, now)
  {
    if tokens == [] || Live(tokens[0], hash, now) then 0 else 1 + FirstLive(tokens[1..], hash, now)
  }

  function MarkUsed(tokens: seq<Row>, id: string, now: int): (r: seq<Row>)
    ensures |r| == |tokens|
    ensures forall i :: 0 <= i < |r| ==> r[i] == if tokens[i].id == id then tokens[i].(usedAt := Some(now)) else tokens[i]
  {
    seq(|tokens|, i requires 0 <= i < |tokens| =>
      if tokens[i].id == id then tokens[i].(usedAt := Some(now)) else tokens[i])
  }

  /** The statements of the validation endpoint: a select, and an update of the row it found. */
  function MarkRow(t: Tables, id: string, now: int): Tables {
    t.(tokens := MarkUsed(t.tokens, id, now))
  }

  function OwnerOf(t: Tables, hash: string, now: int): Option<Owner> {
    var i := FirstLive(t.tokens, hash, now);
    if i == |t.tokens| then None else Some(Owner(t.tokens[i].user, t.tokens[i].session))
  }

  function Validated(t: Tables, hash: string, now: int): Tables {
    var i := FirstLive(t.tokens, hash, now);
    if i == |t.tokens| then t else MarkRow(t, t.tokens[i].id, now)
  }

  predicate HasId(tokens: seq<Row>, id: string) {
    exists i :: 0 <= i < |tokens| && tokens[i].id == id
  }

  /** A taken primary key makes the insertion fail. */
  function Created(t: Tables, id: string, owner: Owner, hash: string, expiresAt: int): Tables {
    if HasId(t.tokens, id) then t
    else t.(tokens := t.tokens + [Row(id, owner.user, owner.session, hash, expiresAt, None)])
  }

  function Without(tokens: seq<Row>, session: string): (r: seq<Row>)
    ensures |r| <= |tokens|
    ensures forall i :: 0 <= i < |r| ==> r[i] in tokens && r[i].session != session
    ensures forall row :: row in tokens && row.session != session ==> row in r
  {
    if tokens == [] then []
    else if tokens[0].session == session then Without(tokens[1..], session)
    else [tokens[0]] + Without(tokens[1..], session)
  }

  function AddRevocation(t: Tables, jti: string, now: int): Tables {
    if jti == "" || jti in t.revocations then t else t.(revocations := t.revocations[jti := now])
  }

  function DeleteSession(t: Tables, session: string): Tables {
    if session == "" then t else t.(sessions := t.sessions - {session})
  }

  function DeleteTokens(t: Tables, session: string): Tables {
    if session == "" then t else t.(tokens := Without(t.tokens, session))
  }

  /** Both parts of a revocation are optional, and an empty id counts as absent. */
  function Revoked(t: Tables, jti: string, session: string, now: int): Tables {
    DeleteTokens(DeleteSession(AddRevocation(t, jti, now), session), session)
  }

  /** The session a cookie names, if it is stored and has not expired. */
  function SessionOwner(t: Tables, session: string, now: int): Option<Owner> {
    if session in t.sessions && t.sessions[session].expiresAt > now then Some(Owner(t.sessions[session].user, session)) else None
  }

  predicate SessionRevoked(t: Tables, session: string, now: int) {
    !(session in t.sessions && t.sessions[session].expiresAt > now)
  }

  // ---------- The worker ----------

  class AuthWorker {
    var sessions: map<string, SessionRow>
    var tokens: seq<Row>
    var revocations: map<string, int>

    ghost function Contents(): Tables
      reads this
    {
      Tables(sessions, tokens, revocations)
    }

    constructor ()
      ensures Contents() == Tables(map[], [], map[])
    {
      sessions, tokens, revocations := map[], [], map[];
    }

    /** The response tells whether the session is gone or expired. */
    method IsSessionRevoked(session: string, now: int) returns (revoked: bool)
      ensures revoked == SessionRevoked(Contents(), session, now)
    {
      revoked := !(session in sessions && sessions[session].expiresAt > now);
    }

    /** The owner of a live session; absence is the endpoint's 404. */
    method GetSession(session: string, now: int) returns (owner: Option<Owner>)
      ensures owner == SessionOwner(Contents(), session, now)
      ensures owner == None <==> SessionRevoked(Contents(), session, now)
    {
      owner := None;
      if session in sessions && sessions[session].expiresAt > now {
        owner := Some(Owner(sessions[session].user, session));
      }
    }

    method CreateRefreshToken(id: string, owner: Owner, hash: string, expiresAt: int) returns (ok: bool)
      modifies this`tokens
      ensures Contents() == Created(old(Contents()), id, owner, hash, expiresAt)
      ensures ok == !HasId(old(tokens), id)
    {
      var taken := exists i :: 0 <= i < |tokens| && tokens[i].id == id;
      if taken {
        return false;
      }
      tokens := tokens + [Row(id, owner.user, owner.session, hash, expiresAt, None)];
      ok := true;
    }

    /** Finds a live token and marks it used; only its owner is returned. */
    method ValidateRefreshToken(hash: string, now: int) returns (owner: Option<Owner>)
      modifies this`tokens
      ensures Contents() == Validated(old(Contents()), hash, now)
      ensures owner == OwnerOf(old(Contents()), hash, now)
    {
      var i := FirstLive(tokens, hash, now);
      if i == |tokens| {
        return None;
      }
      var token := tokens[i];
      tokens := MarkUsed(tokens, token.id, now);
      owner := Some(Owner(token.user, token.session));
    }

    method RevokeToken(jti: string, session: string, now: int)
      modifies this
      ensures Contents() == Revoked(old(Contents()), jti, session, now)
    {
      if jti != "" {
        if jti !in revocations {
          revocations := revocations[jti := now];
        }
      }
      if session != "" {
        sessions := sessions - {session};
        tokens := Without(tokens, session);
      }
    }
  }

  // ---------- Core API ----------

  /** How a call to the auth-worker goes: it is answered, never arrives, or its answer is lost or unreadable. */
  datatype Transport = Answered | Unsent | AnswerLost | AnswerGarbled

  datatype RefreshResult =
    | Refreshed(hash: string)
    | ValidationFailed
    | InvalidRefreshToken
    | JsonError
    | MintFailed
    | CreateFailed

  /** What a refresh without interference does to the tables, and its reply. */
  function Refresh(t: Tables, hash: string, now: int, validate: Transport, minted: bool, create: Transport,
                   id: string, newHash: string, expiresAt: int): (Tables, RefreshResult)
  {
    var owner := OwnerOf(t, hash, now);
    var u := if validate == Unsent then t else Validated(t, hash, now);
    if validate == Unsent || validate == AnswerLost then (u, ValidationFailed)
    else if owner == None then (u, InvalidRefreshToken)
    else if validate == AnswerGarbled then (u, JsonError)
    else if !minted then (u, MintFailed)
    else if create == Unsent then (u, CreateFailed)
    else
      var stored := !HasId(u.tokens, id);
      (Created(u, id, owner.value, newHash, expiresAt), if stored && create != AnswerLost then Refreshed(newHash) else CreateFailed)
  }

  /**
   The refresh handler: validate, mint an access token, create the next refresh token. Of the answer
   to the creation only the status is read. A failure after the first step leaves the token used.
   */
  method RefreshToken(worker: AuthWorker, hash: string, now: int, validate: Transport, minted: bool, create: Transport,
                      id: string, newHash: string, expiresAt: int)
    returns (r: RefreshResult)
    modifies worker`tokens
    ensures (worker.Contents(), r) ==
            Refresh(old(worker.Contents()), hash, now, validate, minted, create, id, newHash, expiresAt)
  {
    if validate == Unsent {
      return ValidationFailed;
    }
    var owner := worker.ValidateRefreshToken(hash, now);
    if validate == AnswerLost {
      return ValidationFailed;
    }
    if owner == None {
      return InvalidRefreshToken;
    }
    if validate == AnswerGarbled {
      return JsonError;
    }
    if !minted {
      return MintFailed;
    }
    if create == Unsent {
      return CreateFailed;
    }
    var ok := worker.CreateRefreshToken(id, owner.value, newHash, expiresAt);
    r := if ok && create != AnswerLost then Refreshed(newHash) else CreateFailed;
  }

  /** Once its validation has arrived, a refresh spends its token whatever the outcome; if it has not, nothing happens. */
  lemma RefreshSpends(t: Tables, hash: string, now: int, validate: Transport, minted: bool, create: Transport,
                      id: string, newHash: string, expiresAt: int, later: int)
    requires forall i, j :: 0 <= i < j < |t.tokens| ==> t.tokens[i].hash != t.tokens[j].hash
    requires newHash != hash && later >= now
    ensures
      var u := Refresh(t, hash, now, validate, minted, create, id, newHash, expiresAt).0;
      if validate == Unsent then u == t else OwnerOf(u, hash, later) == None
  {
    var i := FirstLive(t.tokens, hash, now);
    var u := Validated(t, hash, now);
    forall j | 0 <= j < |t.tokens| ensures !Live(u.tokens[j], hash, later) {
      if i < |t.tokens| && j != i {
        assert t.tokens[j].hash != t.tokens[i].hash;
      }
    }
    var w := Refresh(t, hash, now, validate, minted, create, id, newHash, expiresAt).0;
    assert validate != Unsent ==> forall j :: 0 <= j < |w.tokens| ==> w.tokens[j] in u.tokens || w.tokens[j].hash == newHash;
  }

  /** A refresh that succeeds hands the session over: the new token, and nothing else, speaks for the owner until it expires. */
  lemma RefreshHandsOver(t: Tables, hash: string, now: int, create: Transport, id: string, newHash: string, expiresAt: int,
                         later: int)
    requires Refresh(t, hash, now, Answered, true, create, id, newHash, expiresAt).1 == Refreshed(newHash)
    requires forall i :: 0 <= i < |t.tokens| ==> t.tokens[i].hash != newHash
    ensures
      var u := Refresh(t, hash, now, Answered, true, create, id, newHash, expiresAt).0;
      && OwnerOf(u, newHash, later) == (if expiresAt > later then OwnerOf(t, hash, now) else None)
      && u.sessions == t.sessions && u.revocations == t.revocations && |u.tokens| == |t.tokens| + 1
  {
    var v := Validated(t, hash, now);
    var u := Created(v, id, OwnerOf(t, hash, now).value, newHash, expiresAt);
    var n := |v.tokens|;
    forall j | 0 <= j < n ensures !Live(u.tokens[j], newHash, later) {
      assert u.tokens[j] == v.tokens[j] && v.tokens[j].hash == t.tokens[j].hash;
    }
    assert Live(u.tokens[n], newHash, later) <==> expiresAt > later;
  }

  /** A revocation reaches its session and no other: that one stays revoked, every other token and session is kept. */
  lemma RevocationScope(t: Tables, jti: string, session: string, now: int, later: int, other: string)
    requires session != "" && other != session
    ensures var u := Revoked(t, jti, session, now);
      && SessionRevoked(u, session, later) && SessionOwner(u, session, later) == None
      && (SessionRevoked(u, other, later) <==> SessionRevoked(t, other, later))
      && forall row :: row in u.tokens <==> row in t.tokens && row.session != session
  {
  }

  /** A revocation records its access-token id, keeping the time of an id recorded before, and no other id. */
  lemma RevocationRecorded(t: Tables, jti: string, session: string, now: int)
    ensures var before, after := t.revocations, Revoked(t, jti, session, now).revocations;
      && (jti != "" ==> jti in after && after[jti] == if jti in before then before[jti] else now)
      && (forall k :: k in after <==> k in before || (k == jti && jti != ""))
      && (forall k :: k in before ==> k in after && after[k] == before[k])
      && (jti == "" ==> after == before)
  {
  }

  /** A session speaks for its user until it expires, and is reported as revoked from then on. */
  lemma SessionTerm(t: Tables, session: string, user: string, expiresAt: int, now: int)
    ensures var u := t.(sessions := t.sessions[session := SessionRow(user, expiresAt)]);
      && SessionOwner(u, session, now) == (if now < expiresAt then Some(Owner(user, session)) else None)
      && (SessionRevoked(u, session, now) <==> expiresAt <= now)
  {
  }

  /** Some row holds the token, has not been used and has not expired. */
  ghost predicate Redeemable(t: Tables, hash: string, now: int) {
    exists i :: 0 <= i < |t.tokens| && t.tokens[i].hash == hash && t.tokens[i].usedAt == None && now < t.tokens[i].expiresAt
  }

  lemma RedeemableIff(t: Tables, hash: string, now: int)
    ensures Redeemable(t, hash, now) <==> OwnerOf(t, hash, now) != None
  {
    var i := FirstLive(t.tokens, hash, now);
    if i < |t.tokens| {
      assert Live(t.tokens[i], hash, now);
    }
    if j :| 0 <= j < |t.tokens| && t.tokens[j].hash == hash && t.tokens[j].usedAt == None && now < t.tokens[j].expiresAt {
      assert Live(t.tokens[j], hash, now);
    }
  }

  /** Every reply of a refresh, and exactly when it is given. */
  lemma RefreshReplies(t: Tables, hash: string, now: int, validate: Transport, minted: bool, create: Transport,
                       id: string, newHash: string, expiresAt: int)
    ensures
      var reply := Refresh(t, hash, now, validate, minted, create, id, newHash, expiresAt).1;
      var valid, taken := Redeemable(t, hash, now), exists i :: 0 <= i < |t.tokens| && t.tokens[i].id == id;
      && (reply == ValidationFailed <==> validate == Unsent || validate == AnswerLost)
      && (reply == InvalidRefreshToken <==> (validate == Answered || validate == AnswerGarbled) && !valid)
      && (reply == JsonError <==> validate == AnswerGarbled && valid)
      && (reply == MintFailed <==> validate == Answered && valid && !minted)
      && (reply == CreateFailed <==>
           validate == Answered && valid && minted && (create == Unsent || create == AnswerLost || taken))
      && (reply == Refreshed(newHash) <==>
           validate == Answered && valid && minted && (create == Answered || create == AnswerGarbled) && !taken)
  {
    RedeemableIff(t, hash, now);
    SameIds(t, hash, now, id);
    hide OwnerOf, Validated, Created, Redeemable;
  }

  /** A validation marks the rows with the id of the first redeemable one as used now, and changes nothing else. */
  lemma ValidationMarks(t: Tables, hash: string, now: int) returns (i: nat)
    ensures var u := Validated(t, hash, now);
      && u.sessions == t.sessions && u.revocations == t.revocations && |u.tokens| == |t.tokens|
      && (if Redeemable(t, hash, now) then
            && i < |t.tokens| && t.tokens[i].hash == hash && t.tokens[i].usedAt == None && now < t.tokens[i].expiresAt
            && forall j :: 0 <= j < |t.tokens| ==>
                 u.tokens[j] == if t.tokens[j].id == t.tokens[i].id then t.tokens[j].(usedAt := Some(now)) else t.tokens[j]
          else u == t)
  {
    RedeemableIff(t, hash, now);
    i := FirstLive(t.tokens, hash, now);
    hide Redeemable;
  }

  lemma SameIds(t: Tables, hash: string, now: int, id: string)
    ensures HasId(Validated(t, hash, now).tokens, id) <==> exists i :: 0 <= i < |t.tokens| && t.tokens[i].id == id
  {
    var u := Validated(t, hash, now);
    assert |u.tokens| == |t.tokens| && forall i :: 0 <= i < |u.tokens| ==> u.tokens[i].id == t.tokens[i].id;
    if i :| 0 <= i < |t.tokens| && t.tokens[i].id == id {
      assert u.tokens[i].id == id;
    }
  }

  // ---------- The first token of a session ----------

  /**
   The revocation query of the mint handler: it looks at whether the call succeeded, not at what the
   answer says, and the endpoint answers every query with success.
   */
  predicate MintRefused(reply: Option<bool>) {
    reply != None
  }
}
