/**
 * The admin portal's distribution tokens: a token is handed out for one program and one
 * end user, can be redeemed for the program's sector data until it expires or is used,
 * and is marked used by the device once it has programmed the card. Time is a parameter
 * in microseconds (the resolution of Python's datetime); tokens and row ids are
 * parameters, a fresh one being one the database does not hold yet.
 */
module AdminPortal {
  import opened Common

  type Instant = int

  const MICROS_PER_HOUR: int := 60 * 60 * 1_000_000

  /** timedelta(hours=24). */
  const TOKEN_LIFETIME: int := 24 * MICROS_PER_HOUR

  /** The status column; 'expired' is listed as a value but nothing ever writes it. */
  datatype Status = Pending | Completed

  datatype ProgramDistribution = ProgramDistribution(
    programId: int,
    userId: int,
    token: string,
    status: Status,
    distributedAt: Instant,
    completedAt: Option<Instant>,
    expiresAt: Instant)

  datatype EndUser = EndUser(id: nat, username: string, email: string, isActive: bool)

  /** A program: its name and the sector data JSON text it serves. */
  datatype RFProgram = RFProgram(name: string, sectorData: string, isActive: bool)

  datatype Db = Db(users: seq<EndUser>, programs: map<int, RFProgram>, distributions: seq<ProgramDistribution>)

  function Tokens(ds: seq<ProgramDistribution>): set<string> {
    set d | d in ds :: d.token
  }

  /** The unique constraint on the token column. */
  predicate TokensUnique(ds: seq<ProgramDistribution>) {
    forall i, j :: 0 <= i < j < |ds| ==> ds[i].token != ds[j].token
  }

  /** filter_by(token=token).first(): the position of the first row with the token. */
  function FindToken(ds: seq<ProgramDistribution>, token: string): (r: Option<nat>)
    ensures r.None? <==> token !in Tokens(ds)
    ensures r.Some? ==> r.value < |ds| && ds[r.value].token == token
    ensures r.Some? ==> forall k :: 0 <= k < r.value ==> ds[k].token != token
  {
    if |ds| == 0 then None
    else if ds[0].token == token then Some(0)
    else
      match FindToken(ds[1..], token)
      case None =>
        assert forall d :: d in ds ==> d == ds[0] || d in ds[1..];
        None
      case Some(k) =>
        assert ds[1..][k] in ds;
        Some(k + 1)
  }

  /** With unique tokens, a row holding the token is the one the lookup finds. */
  lemma FindUnique(ds: seq<ProgramDistribution>, k: nat)
    requires TokensUnique(ds) && k < |ds|
    ensures FindToken(ds, ds[k].token) == Some(k)
  {
    assert ds[k] in ds;
  }

  /** distribute_program: a pending row for the token, expiring 24 hours from now. */
  function Distribute(db: Db, programId: int, userId: int, token: string, now: Instant): (r: (Db, string))
    requires token !in Tokens(db.distributions)
    ensures r.1 == token
    ensures r.0.users == db.users && r.0.programs == db.programs
    ensures |r.0.distributions| == |db.distributions| + 1
    ensures r.0.distributions[..|db.distributions|] == db.distributions
    ensures var d := r.0.distributions[|db.distributions|];
            && d.token == token && d.programId == programId && d.userId == userId
            && d.status == Pending && d.completedAt.None?
            && d.distributedAt == now && d.expiresAt == now + TOKEN_LIFETIME
    ensures TokensUnique(db.distributions) ==> TokensUnique(r.0.distributions)
  {
    var d := ProgramDistribution(programId, userId, token, Pending, now, None, now + TOKEN_LIFETIME);
    var ds := db.distributions + [d];
    assert ds[..|db.distributions|] == db.distributions;
    assert forall k :: 0 <= k < |db.distributions| ==> ds[k] in db.distributions;
    (db.(distributions := ds), token)
  }

  /** A JSON reply: success with the program's name and sector data, or an error code and message. */
  datatype ProgramReply =
    | ProgramData(programName: string, sectorData: string)
    | Failure(code: nat, message: string)

  const PROGRAM_NAME := "RF Access Programming"

  /**
   * get_program_data: the checks in order are an unknown token (404), a used token (400),
   * a token past its expiry (400, strictly later than `expiresAt`), and a missing program
   * (404); otherwise the program's sector data. The program's active flag is not looked at.
   */
  function GetProgramData(db: Db, token: string, now: Instant): (r: ProgramReply)
    ensures token !in Tokens(db.distributions) <==> r == Failure(404, "Invalid token")
    ensures r.ProgramData? ==> r.programName == PROGRAM_NAME
    ensures var f := FindToken(db.distributions, token);
            r.ProgramData? <==>
              && f.Some?
              && db.distributions[f.value].status == Pending
              && now <= db.distributions[f.value].expiresAt
              && db.distributions[f.value].programId in db.programs
    ensures r.ProgramData? ==>
              var d := db.distributions[FindToken(db.distributions, token).value];
              d.programId in db.programs && r.sectorData == db.programs[d.programId].sectorData
  {
    match FindToken(db.distributions, token)
    case None => Failure(404, "Invalid token")
    case Some(k) =>
      var d := db.distributions[k];
      if d.status == Completed then Failure(400, "Program already used")
      else if d.expiresAt < now then Failure(400, "Program expired")
      else if d.programId !in db.programs then Failure(404, "Program not found")
      else ProgramData(PROGRAM_NAME, db.programs[d.programId].sectorData)
  }

  /** mark_programming_complete: an unknown token is a 404 and changes nothing; otherwise the row becomes completed at `now`. */
  function MarkComplete(db: Db, token: string, now: Instant): (r: (Db, Option<ProgramReply>))
    ensures r.1.Some? <==> token !in Tokens(db.distributions)
    ensures r.1.Some? ==> r.1 == Some(Failure(404, "Invalid token")) && r.0 == db
    ensures r.0.users == db.users && r.0.programs == db.programs
    ensures |r.0.distributions| == |db.distributions|
    ensures Tokens(r.0.distributions) == Tokens(db.distributions)
    ensures forall k :: 0 <= k < |db.distributions| ==>
              if db.distributions[k].token == token && FindToken(db.distributions, token) == Some(k)
              then r.0.distributions[k] == db.distributions[k].(status := Completed, completedAt := Some(now))
              else r.0.distributions[k] == db.distributions[k]
  {
    match FindToken(db.distributions, token)
    case None => (db, Some(Failure(404, "Invalid token")))
    case Some(k) =>
      var d := db.distributions[k];
      var ds := db.distributions[k := d.(status := Completed, completedAt := Some(now))];
      assert Tokens(ds) == Tokens(db.distributions) by {
        forall t | t in Tokens(db.distributions) ensures t in Tokens(ds) {
          var e :| e in db.distributions && e.token == t;
          var j :| 0 <= j < |db.distributions| && db.distributions[j] == e;
          assert ds[j].token == t;
        }
      }
      (db.(distributions := ds), None)
  }

  /** Marking keeps the token column unique. */
  lemma MarkCompleteKeepsUnique(db: Db, token: string, now: Instant)
    requires TokensUnique(db.distributions)
    ensures TokensUnique(MarkComplete(db, token, now).0.distributions)
  {
    var ds := MarkComplete(db, token, now).0.distributions;
    forall i, j | 0 <= i < j < |ds| ensures ds[i].token != ds[j].token {
      assert ds[i].token == db.distributions[i].token;
      assert ds[j].token == db.distributions[j].token;
    }
  }

  /** The three states a known token can be in when it is presented at `now`. */
  datatype TokenState = Unknown | Live | Used | Expired

  function StateAt(db: Db, token: string, now: Instant): TokenState {
    match FindToken(db.distributions, token)
    case None => Unknown
    case Some(k) =>
      if db.distributions[k].status == Completed then Used
      else if db.distributions[k].expiresAt < now then Expired
      else Live
  }

  /** The reply to a redemption is decided by the token's state, with the program looked up only for a live token. */
  lemma ReplyFollowsState(db: Db, token: string, now: Instant)
    ensures StateAt(db, token, now) == Unknown <==> GetProgramData(db, token, now) == Failure(404, "Invalid token")
    ensures StateAt(db, token, now) == Used <==> GetProgramData(db, token, now) == Failure(400, "Program already used")
    ensures StateAt(db, token, now) == Expired <==> GetProgramData(db, token, now) == Failure(400, "Program expired")
    ensures StateAt(db, token, now) == Live <==>
              GetProgramData(db, token, now).ProgramData? || GetProgramData(db, token, now) == Failure(404, "Program not found")
  {
  }

  /**
   * A distributed token is live for its whole 24 hours, including the instant it expires,
   * and expired from the next instant on, unless it is used first.
   */
  lemma FreshTokenLifetime(db: Db, programId: int, userId: int, token: string, now: Instant, later: Instant)
    requires token !in Tokens(db.distributions) && now <= later
    ensures var db2 := Distribute(db, programId, userId, token, now).0;
            && (later <= now + TOKEN_LIFETIME ==> StateAt(db2, token, later) == Live)
            && (later > now + TOKEN_LIFETIME ==> StateAt(db2, token, later) == Expired)
            && (programId in db.programs && later <= now + TOKEN_LIFETIME ==>
                  GetProgramData(db2, token, later) == ProgramData(PROGRAM_NAME, db.programs[programId].sectorData))
  {
    var db2 := Distribute(db, programId, userId, token, now).0;
    var n := |db.distributions|;
    assert db2.distributions[n].token == token;
    assert FindToken(db2.distributions, token) == Some(n) by {
      var r := FindToken(db2.distributions, token);
      assert forall k :: 0 <= k < n ==> db2.distributions[k] == db.distributions[k];
      assert forall k :: 0 <= k < n ==> db.distributions[k] in db.distributions;
    }
  }

  /** The boundary instant itself: a token presented exactly at its expiry is still served. */
  lemma RedeemableAtExpiry(db: Db, token: string, now: Instant)
    requires FindToken(db.distributions, token).Some?
    requires var d := db.distributions[FindToken(db.distributions, token).value];
             d.status == Pending && d.expiresAt == now && d.programId in db.programs
    ensures GetProgramData(db, token, now).ProgramData?
    ensures GetProgramData(db, token, now + 1) == Failure(400, "Program expired")
  {
  }

  /** A used token is refused as used at every later time, however early it was used. */
  lemma UsedTokenNeverRedeems(db: Db, token: string, usedAt: Instant, now: Instant)
    requires token in Tokens(db.distributions)
    ensures GetProgramData(MarkComplete(db, token, usedAt).0, token, now) == Failure(400, "Program already used")
  {
    var k := FindToken(db.distributions, token).value;
    var db2 := MarkComplete(db, token, usedAt).0;
    assert FindToken(db2.distributions, token) == Some(k) by {
      assert forall j :: 0 <= j < k ==> db2.distributions[j].token == db.distributions[j].token;
      assert db2.distributions[k].token == token;
    }
  }

  /** Marking a token twice is marking it once, at the later time; a wrong time order is not checked. */
  lemma MarkCompleteIdempotent(db: Db, token: string, t1: Instant, t2: Instant)
    ensures MarkComplete(MarkComplete(db, token, t1).0, token, t2) == MarkComplete(db, token, t2)
  {
    var db1 := MarkComplete(db, token, t1).0;
    match FindToken(db.distributions, token)
    case None =>
    case Some(k) =>
      assert FindToken(db1.distributions, token) == Some(k) by {
        assert forall j :: 0 <= j < k ==> db1.distributions[j].token == db.distributions[j].token;
        assert db1.distributions[k].token == token;
      }
      assert db1.distributions[k := db1.distributions[k].(status := Completed, completedAt := Some(t2))]
          == db.distributions[k := db.distributions[k].(status := Completed, completedAt := Some(t2))];
  }

  /** Handing out a fresh token does not change the answer for any other token. */
  lemma OtherTokensUnaffected(db: Db, programId: int, userId: int, token: string, other: string, now: Instant, at: Instant)
    requires token !in Tokens(db.distributions) && other != token
    ensures GetProgramData(Distribute(db, programId, userId, token, now).0, other, at) == GetProgramData(db, other, at)
  {
    var ds := db.distributions;
    var ds2 := Distribute(db, programId, userId, token, now).0.distributions;
    assert FindToken(ds2, other) == FindToken(ds, other) by {
      assert ds2 == ds + [ds2[|ds|]];
      FindTokenAppend(ds, ds2[|ds|], other);
    }
  }

  /** Marking one token used, whether it is known or not, does not change the answer for any other token. */
  lemma MarkingLeavesOthers(db: Db, token: string, other: string, now: Instant, at: Instant)
    requires other != token
    ensures GetProgramData(MarkComplete(db, token, now).0, other, at) == GetProgramData(db, other, at)
  {
    var ds := db.distributions;
    var ds2 := MarkComplete(db, token, now).0.distributions;
    assert forall k :: 0 <= k < |ds| ==> ds2[k].token == ds[k].token;
    FindTokenSame(ds, ds2, other);
    match FindToken(ds, other)
    case None =>
    case Some(k) =>
      assert ds[k].token == other;
      assert ds2[k] == ds[k];
  }

  /** The lookup only reads the token column: sequences that agree on it agree on every lookup. */
  lemma {:induction false} FindTokenSame(ds: seq<ProgramDistribution>, ds2: seq<ProgramDistribution>, token: string)
    requires |ds| == |ds2| && forall k :: 0 <= k < |ds| ==> ds[k].token == ds2[k].token
    ensures FindToken(ds, token) == FindToken(ds2, token)
  {
    if |ds| > 0 {
      assert forall k :: 0 <= k < |ds| - 1 ==> ds[1..][k] == ds[k + 1] && ds2[1..][k] == ds2[k + 1];
      FindTokenSame(ds[1..], ds2[1..], token);
    }
  }

  lemma {:induction false} FindTokenAppend(ds: seq<ProgramDistribution>, d: ProgramDistribution, token: string)
    requires d.token != token
    ensures FindToken(ds + [d], token) == FindToken(ds, token)
  {
    if |ds| > 0 {
      assert (ds + [d])[1..] == ds[1..] + [d];
      FindTokenAppend(ds[1..], d, token);
    }
  }

  function Usernames(users: seq<EndUser>): set<string> {
    set u | u in users :: u.username
  }

  predicate UsernamesUnique(users: seq<EndUser>) {
    forall i, j :: 0 <= i < j < |users| ==> users[i].username != users[j].username
  }

  function UserIds(users: seq<EndUser>): set<nat> {
    set u | u in users :: u.id
  }

  /** The primary key on the user table. */
  predicate UserIdsUnique(users: seq<EndUser>) {
    forall i, j :: 0 <= i < j < |users| ==> users[i].id != users[j].id
  }

  datatype AddUserReply = UserAdded(userId: nat) | UserRejected(code: nat, message: string)

  /**
   * add_user: a name already taken is a 400 and stores nothing; otherwise an active user
   * with the next row id is stored and its id returned. The id is a parameter that the
   * database's autoincrement keeps fresh.
   */
  function AddUser(db: Db, username: string, email: string, newId: nat): (r: (Db, AddUserReply))
    requires newId !in UserIds(db.users)
    ensures username in Usernames(db.users) <==> r.1 == UserRejected(400, "Username already exists")
    ensures r.1.UserRejected? ==> r.0 == db
    ensures r.1.UserAdded? ==> && r.1.userId == newId
                               && r.0.users == db.users + [EndUser(newId, username, email, true)]
    ensures r.0.programs == db.programs && r.0.distributions == db.distributions
    ensures UsernamesUnique(db.users) ==> UsernamesUnique(r.0.users)
    ensures UserIdsUnique(db.users) ==> UserIdsUnique(r.0.users)
  {
    if username in Usernames(db.users) then (db, UserRejected(400, "Username already exists"))
    else
      var users := db.users + [EndUser(newId, username, email, true)];
      assert forall k :: 0 <= k < |db.users| ==> users[k] in db.users;
      (db.(users := users), UserAdded(newId))
  }

  /** Adding the same name twice: the second call is refused and leaves the first one's result. */
  lemma AddUserTwice(db: Db, username: string, email1: string, email2: string, id1: nat, id2: nat)
    requires username !in Usernames(db.users)
    requires id1 !in UserIds(db.users) && id2 !in UserIds(db.users) && id1 != id2
    ensures var first := AddUser(db, username, email1, id1);
            && first.1 == UserAdded(id1)
            && AddUser(first.0, username, email2, id2) == (first.0, UserRejected(400, "Username already exists"))
  {
    var first := AddUser(db, username, email1, id1);
    assert first.0.users[|db.users|] in first.0.users;
    assert id2 !in UserIds(first.0.users);
  }
}
