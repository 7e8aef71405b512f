/** One visit at the kiosk, start to finish: first over the definitions the
    app and the session guard are specified by, then through the kiosk's own
    objects. */
module Scenario {
  import opened Types
  import opened Text
  import opened CsvData
  import opened UserSessions
  import CsvParser
  import App
  import VerifiedPerson

  function Ana(): Person {
    Person("Ana", "Lee", "", "", "", "Q123", "")
  }

  lemma AnaName()
    ensures FullName(Ana()) == "Ana Lee"
  {
  }

  lemma AnaLoggedInMessage()
    ensures LoggedInMessage(Ana()) == "Ana Lee logged in successfully!"
  {
    AnaName();
  }

  lemma AnaAlreadyLoggedInMessage()
    ensures AlreadyLoggedInMessage(Ana()) == "Ana Lee is already logged in."
  {
    AnaName();
  }

  lemma AnaLoggedOutMessage()
    ensures LoggedOutMessage(Ana()) == "Ana Lee logged out successfully!"
  {
    AnaName();
  }

  lemma AnaNotLoggedInMessage()
    ensures NotLoggedInMessage(Ana()) == "Ana Lee is not currently logged in."
  {
    AnaName();
  }

  /** Scanning "Q123" against a roster holding Ana Lee finds her. */
  lemma AnaIsFound()
    ensures FindPersonByUniqueId([Ana()], Trim("Q123")) == Some(Ana())
  {
    assert "Q123" == [] + "Q123" + [];
    TrimUnique("Q123", [], "Q123", []);
  }

  lemma AnaLogsInOnce(t1: string, t2: string)
    ensures var e1 := Login(true, [], None, Ana(), t1, Completes, Completes);
      var e2 := Login(true, e1.rows, e1.error, Ana(), t2, Completes, Completes);
      && e1.result == SessionResult(true, "Ana Lee logged in successfully!")
      && e2.result == SessionResult(false, "Ana Lee is already logged in.")
      && e2.rows == [NewSession(Ana(), 0, t1)] && e2.error == None
  {
    AnaLoggedInMessage();
    AnaAlreadyLoggedInMessage();
    SecondLoginFails([], None, Ana(), t1, Completes, t2, Completes);
    assert Login(true, [], None, Ana(), t1, Completes, Completes).rows == [NewSession(Ana(), 0, t1)];
  }

  lemma AnaLogsOutOnce(t1: string, t3: string, t4: string)
    ensures var e3 := Logout(true, [NewSession(Ana(), 0, t1)], None, Ana(), t3, Completes, Completes);
      var e4 := Logout(true, e3.rows, e3.error, Ana(), t4, Completes, Completes);
      && e3.result == SessionResult(true, "Ana Lee logged out successfully!")
      && e4.result == SessionResult(false, "Ana Lee is not currently logged in.")
  {
    var rows := [NewSession(Ana(), 0, t1)];
    AnaLoggedOutMessage();
    AnaNotLoggedInMessage();
    assert CountActive(rows, Ana().uniqueId) == 1;
    LogoutClosesActiveRow(true, rows, None, Ana(), t3, Completes, Completes);
    var e3 := Logout(true, rows, None, Ana(), t3, Completes, Completes);
    assert e3.rows == [Closed(rows[0], t3)];
    LogoutWithoutSession(e3.rows, e3.error, Ana(), t4, Completes);
  }

  /** Ana Lee is on the roster as Q123. Scanning "Q123" finds her; she logs in,
      a second login is refused, she logs out, and a second logout is refused. */
  lemma AnaLeeVisit(t1: string, t2: string, t3: string, t4: string)
    ensures FindPersonByUniqueId([Ana()], Trim("Q123")) == Some(Ana())
    ensures var e1 := Login(true, [], None, Ana(), t1, Completes, Completes);
      var e2 := Login(true, e1.rows, e1.error, Ana(), t2, Completes, Completes);
      var e3 := Logout(true, e2.rows, e2.error, Ana(), t3, Completes, Completes);
      var e4 := Logout(true, e3.rows, e3.error, Ana(), t4, Completes, Completes);
      && e1.result == SessionResult(true, "Ana Lee logged in successfully!")
      && e2.result == SessionResult(false, "Ana Lee is already logged in.")
      && e3.result == SessionResult(true, "Ana Lee logged out successfully!")
      && e4.result == SessionResult(false, "Ana Lee is not currently logged in.")
  {
    AnaIsFound();
    AnaLogsInOnce(t1, t2);
    AnaLogsOutOnce(t1, t3, t4);
  }

  /** A roster file with any one-line header and a line for Ana Lee parses
      to Ana Lee alone. */
  lemma AnaOnTheRoster(header: string)
    requires |header| > 0 && IsTrimmed(header) && '\n' !in header
    ensures CsvParser.ParseCsv(CsvParser.EncodeCsv(header, [Ana()])) == [Ana()]
  {
    assert CsvParser.Representable(Ana()) by {
      forall f | f in Fields(Ana()) ensures CsvParser.CleanValue(f) && '\n' !in f {
        assert f in ["Ana", "Lee", "", "Q123"];
      }
    }
    CsvParser.CsvRoundTrip(header, [Ana()]);
  }

  /** A roster file holding Ana Lee under the header line `header` is loaded,
      and " Q123" followed by a line feed is scanned: the kiosk shows Ana Lee
      as verified. */
  method ScanAna(header: string) returns (scanned: App.Screen, person: Person)
    requires |header| > 0 && IsTrimmed(header) && '\n' !in header
    ensures scanned == App.VerifiedScreen(Ana()) && person == Ana()
  {
    var roster := new CsvData();
    AnaOnTheRoster(header);
    roster.LoadCsvData(Response(true, CsvParser.EncodeCsv(header, [Ana()])));
    assert roster.people == [Ana()] && roster.error == None && !roster.loading;
    var kiosk := new App.App(roster);
    kiosk.HandleStartScanning();
    var raw := " " + "Q123" + "\n";
    App.ScanTrimsPadding(" ", "Q123", "\n");
    AnaIsFound();
    assert FindPersonByUniqueId(roster.people, Trim(raw)) == Some(Ana());
    kiosk.HandleScanResult(raw);
    assert kiosk.state == App.Verified && kiosk.scannedPerson == Some(Ana());
    scanned := kiosk.CurrentScreen();
    person := kiosk.scannedPerson.value;
  }

  /** The verified screen's login button pressed twice for Ana Lee against
      an empty, configured session table. `banners` are the two banner texts,
      `loggedIn` what the screen believes after each press, and `rows` the
      table afterwards. */
  method PressLoginTwice(person: Person, t1: string, t2: string)
    returns (banners: seq<string>, loggedIn: seq<bool>, rows: seq<SessionRow>)
    requires person == Ana()
    ensures banners == ["Ana Lee logged in successfully!", "Ana Lee is already logged in."]
    ensures loggedIn == [true, true]
    ensures rows == [NewSession(Ana(), 0, t1)]
  {
    var store := new SessionStore(true, []);
    var sessions := new UserSessions(store);
    var screen := new VerifiedPerson.VerifiedPerson(person, sessions);
    screen.CheckStatus(Completes);
    AnaLogsInOnce(t1, t2);
    var e1 := Login(true, [], None, Ana(), t1, Completes, Completes);
    screen.HandleLogin(t1, Completes, Completes);
    assert store.rows == e1.rows && sessions.error == e1.error;
    banners, loggedIn := [screen.message.value.text], [screen.isLoggedIn];
    screen.HandleLogin(t2, Completes, Completes);
    banners, loggedIn := banners + [screen.message.value.text], loggedIn + [screen.isLoggedIn];
    rows := store.rows;
  }

  /** Ana Lee scanned again later, with the table `PressLoginTwice` left:
      the verified screen's status check finds her logged in, and its logout
      button pressed twice shows the two banners. `loggedIn` is what the
      screen believes after the check and after each press. */
  method PressLogoutTwice(person: Person, rows: seq<SessionRow>, t1: string, t3: string, t4: string)
    returns (banners: seq<string>, loggedIn: seq<bool>)
    requires person == Ana() && rows == [NewSession(Ana(), 0, t1)]
    ensures banners == ["Ana Lee logged out successfully!", "Ana Lee is not currently logged in."]
    ensures loggedIn == [true, false, false]
  {
    var before := rows;
    var store := new SessionStore(true, before);
    var sessions := new UserSessions(store);
    var screen := new VerifiedPerson.VerifiedPerson(person, sessions);
    assert CountActive(before, Ana().uniqueId) == 1;
    screen.CheckStatus(Completes);
    loggedIn := [screen.isLoggedIn];
    AnaLogsOutOnce(t1, t3, t4);
    var e3 := Logout(true, before, None, Ana(), t3, Completes, Completes);
    screen.HandleLogout(t3, Completes, Completes);
    assert store.rows == e3.rows && sessions.error == e3.error;
    banners, loggedIn := [screen.message.value.text], loggedIn + [screen.isLoggedIn];
    screen.HandleLogout(t4, Completes, Completes);
    banners, loggedIn := banners + [screen.message.value.text], loggedIn + [screen.isLoggedIn];
  }

  /** The whole day through the kiosk's own objects, for a roster file whose
      header line is `header`: Ana Lee is scanned and logs in (twice), then is
      scanned again and logs out (twice). `loggedIn` is what the screens
      believe after each press, and after the second screen's status check. */
  method KioskVisit(header: string, t1: string, t2: string, t3: string, t4: string)
    returns (scanned: App.Screen, banners: seq<string>, loggedIn: seq<bool>)
    requires |header| > 0 && IsTrimmed(header) && '\n' !in header
    ensures scanned == App.VerifiedScreen(Ana())
    ensures banners == ["Ana Lee logged in successfully!", "Ana Lee is already logged in.",
                        "Ana Lee logged out successfully!", "Ana Lee is not currently logged in."]
    ensures loggedIn == [true, true, true, false, false]
  {
    var person, rows, banners2, loggedIn2;
    scanned, person := ScanAna(header);
    banners, loggedIn, rows := PressLoginTwice(person, t1, t2);
    var scannedAgain, personAgain := ScanAna(header);
    banners2, loggedIn2 := PressLogoutTwice(personAgain, rows, t1, t3, t4);
    banners, loggedIn := banners + banners2, loggedIn + loggedIn2;
  }
}
