/** The kiosk state machine (src/App.tsx): idle, scanning, verified or
    not-verified, with the scanned person and the scanned text as payload. */
module App {
  import opened Types
  import opened Text
  import opened CsvData

  datatype AppState = Idle | Scanning | Verified | NotVerified

  /** What the kiosk shows. `Empty` is the layout with no panel in it. */
  datatype Screen =
    | LoadingScreen
    | ErrorScreen(message: string)
    | ScanButton
    | Scanner
    | VerifiedScreen(person: Person)
    | NotVerifiedScreen(scannedId: string)
    | Empty

  class App {
    const roster: CsvData
    var state: AppState
    var scannedPerson: Option<Person>
    var scannedId: string

    constructor(roster: CsvData)
      ensures this.roster == roster
      ensures state == Idle && scannedPerson == None && scannedId == ""
    {
      this.roster := roster;
      state := Idle;
      scannedPerson := None;
      scannedId := "";
    }

    /** What the screens rely on: a person is held exactly in the verified
        state, and it is the person whose identifier was scanned; before a
        scan nothing has been scanned. */
    ghost predicate Consistent()
      reads this
    {
      && (state == Verified <==> scannedPerson.Some?)
      && (state == Verified ==> scannedPerson.value.uniqueId == scannedId)
      && (state == Idle || state == Scanning ==> scannedId == "")
    }

    /** The scan button of the idle screen. */
    method HandleStartScanning()
      modifies this
      ensures state == Scanning && scannedPerson == old(scannedPerson) && scannedId == old(scannedId)
      ensures old(state) == Idle && old(Consistent()) ==> Consistent()
    {
      state := Scanning;
    }

    /** The scanner's callback with the decoded text. */
    method HandleScanResult(result: string)
      modifies this
      ensures scannedId == Trim(result)
      ensures var found := FindPersonByUniqueId(roster.people, Trim(result));
        && (found.Some? ==> state == Verified && scannedPerson == found)
        && (found.None? ==> state == NotVerified && scannedPerson == old(scannedPerson))
      ensures old(state) == Scanning && old(Consistent()) ==> Consistent()
    {
      var person := FindPersonByUniqueId(roster.people, Trim(result));
      scannedId := Trim(result);
      if person.Some? {
        scannedPerson := person;
        state := Verified;
      } else {
        state := NotVerified;
      }
    }

    /** "Scan Another" and "Try Again": back to a fresh idle kiosk. */
    method HandleContinueScanning()
      modifies this
      ensures state == Idle && scannedPerson == None && scannedId == ""
      ensures Consistent()
    {
      scannedPerson := None;
      scannedId := "";
      state := Idle;
    }

    /** `if (error)`: an empty error text is falsy and shows no error. */
    predicate ShowsError()
      reads roster
    {
      roster.error.Some? && roster.error.value != ""
    }

    /** The screen rendered for the current state. */
    function CurrentScreen(): (s: Screen)
      reads this, roster
      ensures roster.loading ==> s == LoadingScreen
      ensures !roster.loading && ShowsError() ==> s == ErrorScreen(roster.error.value)
      ensures s.VerifiedScreen? <==> !roster.loading && !ShowsError() && state == Verified && scannedPerson.Some?
      ensures s.VerifiedScreen? ==> s.person == scannedPerson.value
      ensures s.NotVerifiedScreen? ==> state == NotVerified && s.scannedId == scannedId
      ensures Consistent() ==> s != Empty
      ensures Consistent() && s.VerifiedScreen? ==> s.person.uniqueId == scannedId
    {
      if roster.loading then LoadingScreen
      else if ShowsError() then ErrorScreen(roster.error.value)
      else match state
        case Idle => ScanButton
        case Scanning => Scanner
        case Verified => if scannedPerson.Some? then VerifiedScreen(scannedPerson.value) else Empty
        case NotVerified => NotVerifiedScreen(scannedId)
    }
  }

  /** Of a scan whose text is a roster identifier with blanks around it: the
      kiosk trims the blanks, so a trimmed identifier is matched verbatim. */
  lemma ScanTrimsPadding(before: string, id: string, after: string)
    requires AllWhitespace(before) && AllWhitespace(after) && IsTrimmed(id)
    ensures Trim(before + id + after) == id
  {
    TrimUnique(before + id + after, before, id, after);
  }
}
