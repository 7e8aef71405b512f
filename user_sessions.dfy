/** The session guard (src/hooks/useUserSessions.ts): login and logout against
    the remote `user_sessions` table, with the rule that a person holds at most
    one active session. The remote table is an in-memory sequence of rows; each
    round trip to it is a `Call` parameter saying whether it completed or threw. */
module UserSessions {
  import opened Types

  const NotConfiguredMessage := "Database not configured. Please try again."
  const LoginFailedFallback := "Failed to login user"
  const LogoutFailedFallback := "Failed to logout user"

  function FullName(p: Person): string { p.firstName + " " + p.lastName }
  function AlreadyLoggedInMessage(p: Person): string { FullName(p) + " is already logged in." }
  function LoggedInMessage(p: Person): string { FullName(p) + " logged in successfully!" }
  function NotLoggedInMessage(p: Person): string { FullName(p) + " is not currently logged in." }
  function LoggedOutMessage(p: Person): string { FullName(p) + " logged out successfully!" }

  /** One row of `user_sessions`. */
  datatype SessionRow = SessionRow(
    id: nat,
    uniqueId: string,
    firstName: string,
    lastName: string,
    idNumber: string,
    affiliation: string,
    isActive: bool,
    loggedInAt: string,
    loggedOutAt: Option<string>)

  /** `{ success, message }`, what loginUser and logoutUser resolve to. */
  datatype SessionResult = SessionResult(success: bool, message: string)

  /** How one round trip to the remote store ends. */
  datatype Call = Completes | Throws(thrown: Thrown)

  /** A login or logout seen from outside: its result, the table afterwards and
      the hook's `error` field afterwards. */
  datatype Effect = Effect(result: SessionResult, rows: seq<SessionRow>, error: Option<string>)

  predicate ActiveFor(row: SessionRow, uniqueId: string) {
    row.isActive && row.uniqueId == uniqueId
  }

  /** How many rows an `.eq('unique_id', id).eq('is_active', true)` query selects. */
  function CountActive(rows: seq<SessionRow>, uniqueId: string): (n: nat)
    ensures n <= |rows|
    ensures n == 0 <==> forall i :: 0 <= i < |rows| ==> !ActiveFor(rows[i], uniqueId)
  {
    if |rows| == 0 then 0
    else (if ActiveFor(rows[0], uniqueId) then 1 else 0) + CountActive(rows[1..], uniqueId)
  }

  /** The position of the first active row of `uniqueId`, or |rows| when there is none. */
  function FirstActive(rows: seq<SessionRow>, uniqueId: string): (k: nat)
    ensures k <= |rows|
    ensures k < |rows| ==> ActiveFor(rows[k], uniqueId)
    ensures forall j :: 0 <= j < k ==> !ActiveFor(rows[j], uniqueId)
  {
    if |rows| == 0 then 0
    else if ActiveFor(rows[0], uniqueId) then 0
    else 1 + FirstActive(rows[1..], uniqueId)
  }

  /** `.single()` on that query: the row when exactly one matches. PostgREST
      answers zero rows, and also several, with error PGRST116. */
  function SingleActive(rows: seq<SessionRow>, uniqueId: string): (r: Option<nat>)
    ensures r.Some? ==> r.value < |rows| && ActiveFor(rows[r.value], uniqueId)
    ensures r.Some? <==> CountActive(rows, uniqueId) == 1
  {
    if CountActive(rows, uniqueId) == 1 then Some(FirstActive(rows, uniqueId)) else None
  }

  /** The guard's invariant: no two active rows share a unique_id. */
  ghost predicate AtMostOneActive(rows: seq<SessionRow>) {
    forall i, j :: 0 <= i < j < |rows| && rows[i].isActive && rows[j].isActive ==> rows[i].uniqueId != rows[j].uniqueId
  }

  /** Row ids are generated by the store; here a row's id is its position. */
  ghost predicate IdsArePositions(rows: seq<SessionRow>) {
    forall i :: 0 <= i < |rows| ==> rows[i].id == i
  }

  /** Under the invariant, the `.single()` query never sees two rows. */
  lemma {:induction false} AtMostOneCount(rows: seq<SessionRow>, uniqueId: string)
    ensures AtMostOneActive(rows) ==> CountActive(rows, uniqueId) <= 1
  {
    if |rows| > 0 && AtMostOneActive(rows) {
      assert AtMostOneActive(rows[1..]) by {
        forall i, j | 0 <= i < j < |rows| - 1 && rows[1..][i].isActive && rows[1..][j].isActive
          ensures rows[1..][i].uniqueId != rows[1..][j].uniqueId
        {
          assert rows[1..][i] == rows[i + 1] && rows[1..][j] == rows[j + 1];
        }
      }
      AtMostOneCount(rows[1..], uniqueId);
      if ActiveFor(rows[0], uniqueId) {
        forall i | 0 <= i < |rows| - 1 ensures !ActiveFor(rows[1..][i], uniqueId) {
          assert rows[1..][i] == rows[i + 1];
        }
      }
    }
  }

  /** `checkUserLoginStatus`: false when unconfigured and when the query throws;
      otherwise whether `.single()` found a row. */
  function CheckUserLoginStatus(configured: bool, rows: seq<SessionRow>, uniqueId: string, read: Call): (loggedIn: bool)
    ensures loggedIn ==> configured && read.Completes?
    ensures loggedIn ==> exists i :: 0 <= i < |rows| && ActiveFor(rows[i], uniqueId)
    ensures configured && read.Completes? && AtMostOneActive(rows) ==>
      (loggedIn <==> exists i :: 0 <= i < |rows| && ActiveFor(rows[i], uniqueId))
  {
    AtMostOneCount(rows, uniqueId);
    configured && read.Completes? && SingleActive(rows, uniqueId).Some?
  }

  /** The row loginUser inserts: the person's open session. */
  function NewSession(person: Person, id: nat, now: string): (row: SessionRow)
    ensures row.id == id && ActiveFor(row, person.uniqueId) && row.loggedOutAt == None
  {
    SessionRow(id, person.uniqueId, person.firstName, person.lastName, person.idNumber,
      person.affiliation, true, now, None)
  }

  /** `loginUser` on a table: re-check the status, refuse a second active
      session, otherwise insert one. */
  function Login(configured: bool, rows: seq<SessionRow>, error: Option<string>, person: Person,
                 now: string, read: Call, write: Call): (e: Effect)
    ensures |rows| <= |e.rows| <= |rows| + 1 && e.rows[..|rows|] == rows
    ensures e.result.success <==> |e.rows| == |rows| + 1
    ensures e.result.success ==> ActiveFor(e.rows[|rows|], person.uniqueId)
  {
    if !configured then
      Effect(SessionResult(false, NotConfiguredMessage), rows, error)
    else if CheckUserLoginStatus(configured, rows, person.uniqueId, read) then
      Effect(SessionResult(false, AlreadyLoggedInMessage(person)), rows, None)
    else match write
      case Throws(t) =>
        var m := ErrorMessage(t, LoginFailedFallback);
        Effect(SessionResult(false, m), rows, Some(m))
      case Completes =>
        Effect(SessionResult(true, LoggedInMessage(person)), rows + [NewSession(person, |rows|, now)], None)
  }

  /** A closed session: active for nobody, stamped with its logout time. */
  function Closed(row: SessionRow, now: string): (r: SessionRow)
    ensures r.id == row.id && r.uniqueId == row.uniqueId && r.loggedInAt == row.loggedInAt
    ensures !r.isActive && r.loggedOutAt == Some(now)
  {
    row.(isActive := false, loggedOutAt := Some(now))
  }

  /** `.update({ is_active: false, logged_out_at: now }).eq('id', id).eq('is_active', true)`. */
  function Deactivate(rows: seq<SessionRow>, id: nat, now: string): (r: seq<SessionRow>)
    ensures |r| == |rows|
    ensures forall i :: 0 <= i < |rows| ==> r[i].id == rows[i].id && r[i].uniqueId == rows[i].uniqueId
    ensures forall i :: 0 <= i < |rows| && (rows[i].id != id || !rows[i].isActive) ==> r[i] == rows[i]
    ensures forall i :: 0 <= i < |rows| && rows[i].id == id ==> !r[i].isActive
  {
    seq(|rows|, i requires 0 <= i < |rows| =>
      if rows[i].id == id && rows[i].isActive then Closed(rows[i], now) else rows[i])
  }

  /** `logoutUser` on a table: find the one active session, then close it. */
  function Logout(configured: bool, rows: seq<SessionRow>, error: Option<string>, person: Person,
                  now: string, read: Call, write: Call): (e: Effect)
    ensures |e.rows| == |rows|
    ensures forall i :: 0 <= i < |rows| ==> e.rows[i].id == rows[i].id && e.rows[i].uniqueId == rows[i].uniqueId
    ensures forall i :: 0 <= i < |rows| && !rows[i].isActive ==> e.rows[i] == rows[i]
    ensures !e.result.success ==> e.rows == rows
  {
    if !configured then
      Effect(SessionResult(false, NotConfiguredMessage), rows, error)
    else match read
      case Throws(t) =>
        var m := ErrorMessage(t, LogoutFailedFallback);
        Effect(SessionResult(false, m), rows, Some(m))
      case Completes =>
        match SingleActive(rows, person.uniqueId)
        case None =>
          Effect(SessionResult(false, NotLoggedInMessage(person)), rows, None)
        case Some(k) =>
          match write
          case Throws(t) =>
            var m := ErrorMessage(t, LogoutFailedFallback);
            Effect(SessionResult(false, m), rows, Some(m))
          case Completes =>
            Effect(SessionResult(true, LoggedOutMessage(person)), Deactivate(rows, rows[k].id, now), None)
  }

  /** Appending a row adds its own activity to the count. */
  lemma {:induction false} CountActiveSnoc(rows: seq<SessionRow>, row: SessionRow, uniqueId: string)
    ensures CountActive(rows + [row], uniqueId) == CountActive(rows, uniqueId) + (if ActiveFor(row, uniqueId) then 1 else 0)
  {
    if |rows| > 0 {
      assert (rows + [row])[1..] == rows[1..] + [row];
      CountActiveSnoc(rows[1..], row, uniqueId);
    }
  }

  /** Closing one active row of `uniqueId` takes one off its count. */
  lemma {:induction false} CountActiveClose(rows: seq<SessionRow>, k: nat, now: string, uniqueId: string)
    requires k < |rows| && ActiveFor(rows[k], uniqueId)
    ensures CountActive(rows[k := Closed(rows[k], now)], uniqueId) == CountActive(rows, uniqueId) - 1
  {
    var rows' := rows[k := Closed(rows[k], now)];
    if k > 0 {
      assert rows'[1..] == rows[1..][k - 1 := Closed(rows[k], now)];
      CountActiveClose(rows[1..], k - 1, now, uniqueId);
    } else {
      assert rows'[1..] == rows[1..];
    }
  }

  /** When unconfigured, the guard reports nobody as logged in, refuses login
      and logout with the same message and changes nothing. */
  lemma DegradedMode(rows: seq<SessionRow>, error: Option<string>, person: Person, now: string, read: Call, write: Call)
    ensures !CheckUserLoginStatus(false, rows, person.uniqueId, read)
    ensures Login(false, rows, error, person, now, read, write) == Effect(SessionResult(false, NotConfiguredMessage), rows, error)
    ensures Logout(false, rows, error, person, now, read, write) == Effect(SessionResult(false, NotConfiguredMessage), rows, error)
  {
  }

  /** A person with an active session cannot log in again; nothing is inserted. */
  lemma LoginRefusesActivePerson(rows: seq<SessionRow>, error: Option<string>, person: Person, now: string, write: Call)
    requires AtMostOneActive(rows)
    requires exists i :: 0 <= i < |rows| && ActiveFor(rows[i], person.uniqueId)
    ensures Login(true, rows, error, person, now, Completes, write) ==
      Effect(SessionResult(false, AlreadyLoggedInMessage(person)), rows, None)
  {
  }

  /** Login either leaves the table alone or succeeds by appending exactly one
      active row that copies the person's identity. */
  lemma LoginAppendsOneRow(configured: bool, rows: seq<SessionRow>, error: Option<string>, person: Person,
                           now: string, read: Call, write: Call)
    ensures var e := Login(configured, rows, error, person, now, read, write);
      e.result.success <==> configured && !CheckUserLoginStatus(configured, rows, person.uniqueId, read) && write.Completes?
    ensures var e := Login(configured, rows, error, person, now, read, write);
      if e.result.success then
        && e.result.message == LoggedInMessage(person)
        && |e.rows| == |rows| + 1 && e.rows[..|rows|] == rows
        && ActiveFor(e.rows[|rows|], person.uniqueId)
        && e.rows[|rows|].firstName == person.firstName && e.rows[|rows|].lastName == person.lastName
        && e.rows[|rows|].idNumber == person.idNumber && e.rows[|rows|].affiliation == person.affiliation
        && e.rows[|rows|].loggedInAt == now && e.rows[|rows|].loggedOutAt == None
      else e.rows == rows
  {
    var e := Login(configured, rows, error, person, now, read, write);
    if e.result.success {
      assert (rows + [NewSession(person, |rows|, now)])[..|rows|] == rows;
    }
  }

  /** Sequential logins keep at most one active session per person, provided
      the status read completes. */
  lemma LoginKeepsAtMostOne(configured: bool, rows: seq<SessionRow>, error: Option<string>, person: Person,
                            now: string, write: Call)
    requires AtMostOneActive(rows)
    ensures AtMostOneActive(Login(configured, rows, error, person, now, Completes, write).rows)
  {
    var e := Login(configured, rows, error, person, now, Completes, write);
    if e.result.success {
      var row := NewSession(person, |rows|, now);
      assert e.rows == rows + [row];
      // the status check saw no active row of this person
      assert forall i :: 0 <= i < |rows| ==> !ActiveFor(rows[i], person.uniqueId);
      forall i, j | 0 <= i < j < |e.rows| && e.rows[i].isActive && e.rows[j].isActive
        ensures e.rows[i].uniqueId != e.rows[j].uniqueId
      {
        if j == |rows| { assert e.rows[i] == rows[i]; }
        else { assert e.rows[i] == rows[i] && e.rows[j] == rows[j]; }
      }
    }
  }

  /** After a successful login the status check reports the person as logged
      in, and an immediate second login fails without inserting anything. */
  lemma SecondLoginFails(rows: seq<SessionRow>, error: Option<string>, person: Person,
                         now: string, write: Call, now': string, write': Call)
    requires AtMostOneActive(rows)
    requires Login(true, rows, error, person, now, Completes, write).result.success
    ensures var e := Login(true, rows, error, person, now, Completes, write);
      && CheckUserLoginStatus(true, e.rows, person.uniqueId, Completes)
      && Login(true, e.rows, e.error, person, now', Completes, write') ==
         Effect(SessionResult(false, AlreadyLoggedInMessage(person)), e.rows, None)
  {
    var e := Login(true, rows, error, person, now, Completes, write);
    var row := NewSession(person, |rows|, now);
    assert e.rows == rows + [row];
    CountActiveSnoc(rows, row, person.uniqueId);
    assert CountActive(rows, person.uniqueId) == 0;
  }

  /** The status check counts a failed read as "not logged in", and loginUser
      relies on it: when that read throws, a person who is already active gets
      a second active session. */
  lemma FailedReadAllowsSecondSession(person: Person, now: string, error: Option<string>, thrown: Thrown)
    ensures var rows := [NewSession(person, 0, now)];
      var e := Login(true, rows, error, person, now, Throws(thrown), Completes);
      AtMostOneActive(rows) && e.result.success && !AtMostOneActive(e.rows)
  {
    var rows := [NewSession(person, 0, now)];
    var e := Login(true, rows, error, person, now, Throws(thrown), Completes);
    assert e.rows == rows + [NewSession(person, 1, now)];
    assert e.rows[0].isActive && e.rows[1].isActive && e.rows[0].uniqueId == e.rows[1].uniqueId;
  }

  /** Logout without an active session fails and leaves the table unchanged. */
  lemma LogoutWithoutSession(rows: seq<SessionRow>, error: Option<string>, person: Person, now: string, write: Call)
    requires forall i :: 0 <= i < |rows| ==> !ActiveFor(rows[i], person.uniqueId)
    ensures Logout(true, rows, error, person, now, Completes, write) ==
      Effect(SessionResult(false, NotLoggedInMessage(person)), rows, None)
  {
  }

  /** The update of a logout touches only the row it selected. */
  lemma DeactivateOnlySelected(rows: seq<SessionRow>, k: nat, now: string)
    requires IdsArePositions(rows) && k < |rows| && rows[k].isActive
    ensures Deactivate(rows, rows[k].id, now) == rows[k := Closed(rows[k], now)]
  {
  }

  /** A successful logout closes exactly the person's active row, stamps its
      logout time, changes no other row, and leaves the person logged out. */
  lemma LogoutClosesActiveRow(configured: bool, rows: seq<SessionRow>, error: Option<string>, person: Person,
                              now: string, read: Call, write: Call)
    requires IdsArePositions(rows)
    ensures var e := Logout(configured, rows, error, person, now, read, write);
      e.result.success <==> configured && read.Completes? && write.Completes? && CountActive(rows, person.uniqueId) == 1
    ensures var e := Logout(configured, rows, error, person, now, read, write);
      if e.result.success then
        var k := FirstActive(rows, person.uniqueId);
        && k < |rows| && ActiveFor(rows[k], person.uniqueId)
        && e.result.message == LoggedOutMessage(person)
        && e.rows == rows[k := Closed(rows[k], now)]
        && !e.rows[k].isActive && e.rows[k].loggedOutAt == Some(now)
        && !CheckUserLoginStatus(true, e.rows, person.uniqueId, Completes)
      else e.rows == rows
  {
    var e := Logout(configured, rows, error, person, now, read, write);
    if e.result.success {
      var k := FirstActive(rows, person.uniqueId);
      DeactivateOnlySelected(rows, k, now);
      CountActiveClose(rows, k, now, person.uniqueId);
    }
  }

  /** Logout only ever closes sessions, so it keeps the invariant. */
  lemma LogoutKeepsAtMostOne(configured: bool, rows: seq<SessionRow>, error: Option<string>, person: Person,
                             now: string, read: Call, write: Call)
    requires AtMostOneActive(rows)
    ensures AtMostOneActive(Logout(configured, rows, error, person, now, read, write).rows)
  {
    var e := Logout(configured, rows, error, person, now, read, write);
    forall i, j | 0 <= i < j < |e.rows| && e.rows[i].isActive && e.rows[j].isActive
      ensures e.rows[i].uniqueId != e.rows[j].uniqueId
    {
      assert e.rows[i].isActive ==> rows[i].isActive && e.rows[i].uniqueId == rows[i].uniqueId;
      assert e.rows[j].isActive ==> rows[j].isActive && e.rows[j].uniqueId == rows[j].uniqueId;
    }
  }

  /** Both operations keep row ids equal to positions. */
  lemma OperationsKeepIds(configured: bool, rows: seq<SessionRow>, error: Option<string>, person: Person,
                          now: string, read: Call, write: Call)
    requires IdsArePositions(rows)
    ensures IdsArePositions(Login(configured, rows, error, person, now, read, write).rows)
    ensures IdsArePositions(Logout(configured, rows, error, person, now, read, write).rows)
  {
  }

  /** A configured call records a store failure in `error` and returns it as
      its message, leaving the table as it was; a call whose round trips all
      complete records none. */
  lemma ErrorsAreRecorded(rows: seq<SessionRow>, error: Option<string>, person: Person,
                          now: string, read: Call, write: Call)
    ensures var e := Login(true, rows, error, person, now, read, write);
      (e.error.Some? ==> !e.result.success && e.error.value == e.result.message)
      && (write.Completes? ==> e.error == None)
      && (write.Throws? && !e.result.success && e.error.Some? ==> e.result.message == ErrorMessage(write.thrown, LoginFailedFallback))
    ensures !CheckUserLoginStatus(true, rows, person.uniqueId, read) && write.Throws? ==>
      var m := ErrorMessage(write.thrown, LoginFailedFallback);
      Login(true, rows, error, person, now, read, write) == Effect(SessionResult(false, m), rows, Some(m))
    ensures var e := Logout(true, rows, error, person, now, read, write);
      (e.error.Some? ==> !e.result.success && e.error.value == e.result.message)
      && (read.Completes? && write.Completes? ==> e.error == None)
      && (read.Throws? ==> e.error == Some(ErrorMessage(read.thrown, LogoutFailedFallback)))
    ensures read.Throws? ==>
      var m := ErrorMessage(read.thrown, LogoutFailedFallback);
      Logout(true, rows, error, person, now, read, write) == Effect(SessionResult(false, m), rows, Some(m))
    ensures read.Completes? && CountActive(rows, person.uniqueId) == 1 && write.Throws? ==>
      var m := ErrorMessage(write.thrown, LogoutFailedFallback);
      Logout(true, rows, error, person, now, read, write) == Effect(SessionResult(false, m), rows, Some(m))
  {
  }

  /** The remote `user_sessions` table, shared by every hook instance, and
      whether the store client could be configured at start-up. */
  class SessionStore {
    const configured: bool
    var rows: seq<SessionRow>

    ghost predicate Valid()
      reads this
    {
      IdsArePositions(rows)
    }

    constructor(configured: bool, rows: seq<SessionRow>)
      requires IdsArePositions(rows)
      ensures Valid() && this.configured == configured && this.rows == rows
    {
      this.configured := configured;
      this.rows := rows;
    }
  }

  /** One `useUserSessions()` hook instance: its `loading` and `error` state
      over the shared store. */
  class UserSessions {
    const store: SessionStore
    var loading: bool
    var error: Option<string>

    constructor(store: SessionStore)
      ensures this.store == store && !loading && error == None
    {
      this.store := store;
      loading := false;
      error := None;
    }

    method LoginUser(person: Person, now: string, read: Call, write: Call) returns (result: SessionResult)
      requires store.Valid()
      modifies this, store
      ensures store.Valid()
      ensures var e := Login(store.configured, old(store.rows), old(error), person, now, read, write);
        result == e.result && store.rows == e.rows && error == e.error
      ensures loading == (old(loading) && !store.configured)
    {
      if !store.configured {
        return SessionResult(false, NotConfiguredMessage);
      }
      loading := true;
      error := None;
      OperationsKeepIds(true, store.rows, old(error), person, now, read, write);
      var isLoggedIn := CheckUserLoginStatus(store.configured, store.rows, person.uniqueId, read);
      if isLoggedIn {
        result := SessionResult(false, AlreadyLoggedInMessage(person));
      } else if write.Throws? {
        var message := ErrorMessage(write.thrown, LoginFailedFallback);
        error := Some(message);
        result := SessionResult(false, message);
      } else {
        store.rows := store.rows + [NewSession(person, |store.rows|, now)];
        result := SessionResult(true, LoggedInMessage(person));
      }
      loading := false;
    }

    method LogoutUser(person: Person, now: string, read: Call, write: Call) returns (result: SessionResult)
      requires store.Valid()
      modifies this, store
      ensures store.Valid()
      ensures var e := Logout(store.configured, old(store.rows), old(error), person, now, read, write);
        result == e.result && store.rows == e.rows && error == e.error
      ensures loading == (old(loading) && !store.configured)
    {
      if !store.configured {
        return SessionResult(false, NotConfiguredMessage);
      }
      loading := true;
      error := None;
      OperationsKeepIds(true, store.rows, old(error), person, now, read, write);
      if read.Throws? {
        var message := ErrorMessage(read.thrown, LogoutFailedFallback);
        error := Some(message);
        result := SessionResult(false, message);
      } else {
        var current := SingleActive(store.rows, person.uniqueId);
        if current.None? {
          result := SessionResult(false, NotLoggedInMessage(person));
        } else if write.Throws? {
          var message := ErrorMessage(write.thrown, LogoutFailedFallback);
          error := Some(message);
          result := SessionResult(false, message);
        } else {
          store.rows := Deactivate(store.rows, store.rows[current.value].id, now);
          result := SessionResult(true, LoggedOutMessage(person));
        }
      }
      loading := false;
    }
  }
}
