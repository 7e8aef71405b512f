/** The verified screen (project/src/components/VerifiedPerson.tsx): the
    person's login status as this screen believes it, and the last message
    from a login or logout. */
module VerifiedPerson {
  import opened Types
  import opened UserSessions

  datatype MessageType = Success | Error

  /** `{ text, type }`, the banner below the person's details. */
  datatype Message = Message(text: string, kind: MessageType)

  /** The banner a session result shows. */
  function MessageFor(r: SessionResult): (m: Message)
    ensures m.text == r.message
    ensures m.kind == Success <==> r.success
  {
    Message(r.message, if r.success then Success else Error)
  }

  class VerifiedPerson {
    const person: Person
    const sessions: UserSessions
    var isLoggedIn: bool
    var message: Option<Message>
    /** The status effect's `mounted` flag, cleared by its clean-up. */
    var mounted: bool

    constructor(person: Person, sessions: UserSessions)
      ensures this.person == person && this.sessions == sessions
      ensures !isLoggedIn && message == None && mounted
    {
      this.person := person;
      this.sessions := sessions;
      isLoggedIn := false;
      message := None;
      mounted := true;
    }

    /** The initial status check, settling with the read `read`. It is skipped
        when the store is unconfigured, and its answer is dropped when the
        screen has been left meanwhile. */
    method CheckStatus(read: Call)
      modifies this
      ensures message == old(message) && mounted == old(mounted)
      ensures isLoggedIn == if sessions.store.configured && mounted
        then CheckUserLoginStatus(true, sessions.store.rows, person.uniqueId, read)
        else old(isLoggedIn)
    {
      if !sessions.store.configured {
        return;
      }
      var status := CheckUserLoginStatus(sessions.store.configured, sessions.store.rows, person.uniqueId, read);
      if mounted {
        isLoggedIn := status;
      }
    }

    /** The status effect's clean-up, run when the screen is left. */
    method Unmount()
      modifies this
      ensures !mounted && isLoggedIn == old(isLoggedIn) && message == old(message)
    {
      mounted := false;
    }

    /** The login button: ignored while a call is in flight; otherwise the
        banner shows the result and a success marks the person logged in. */
    method HandleLogin(now: string, read: Call, write: Call)
      requires sessions.store.Valid()
      modifies this, sessions, sessions.store
      ensures sessions.store.Valid() && mounted == old(mounted)
      ensures old(sessions.loading) ==>
        && isLoggedIn == old(isLoggedIn) && message == old(message)
        && sessions.store.rows == old(sessions.store.rows) && sessions.error == old(sessions.error)
        && sessions.loading
      ensures !old(sessions.loading) ==>
        var e := Login(sessions.store.configured, old(sessions.store.rows), old(sessions.error), person, now, read, write);
        && message == Some(MessageFor(e.result))
        && isLoggedIn == (old(isLoggedIn) || e.result.success)
        && sessions.store.rows == e.rows && sessions.error == e.error && !sessions.loading
    {
      if sessions.loading {
        return;
      }
      var result := sessions.LoginUser(person, now, read, write);
      message := Some(MessageFor(result));
      if result.success {
        isLoggedIn := true;
      }
    }

    /** The logout button: ignored while a call is in flight; otherwise the
        banner shows the result and a success marks the person logged out. */
    method HandleLogout(now: string, read: Call, write: Call)
      requires sessions.store.Valid()
      modifies this, sessions, sessions.store
      ensures sessions.store.Valid() && mounted == old(mounted)
      ensures old(sessions.loading) ==>
        && isLoggedIn == old(isLoggedIn) && message == old(message)
        && sessions.store.rows == old(sessions.store.rows) && sessions.error == old(sessions.error)
        && sessions.loading
      ensures !old(sessions.loading) ==>
        var e := Logout(sessions.store.configured, old(sessions.store.rows), old(sessions.error), person, now, read, write);
        && message == Some(MessageFor(e.result))
        && isLoggedIn == (old(isLoggedIn) && !e.result.success)
        && sessions.store.rows == e.rows && sessions.error == e.error && !sessions.loading
    {
      if sessions.loading {
        return;
      }
      var result := sessions.LogoutUser(person, now, read, write);
      message := Some(MessageFor(result));
      if result.success {
        isLoggedIn := false;
      }
    }
  }
}
