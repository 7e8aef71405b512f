# QR identity-check kiosk: a Dafny model

The kiosk scans a QR code, looks the decoded text up in a roster of people loaded
from a CSV file, and shows a "verified" or "not verified" screen. From the verified
screen the person can log in or log out. Each login or logout is recorded in a remote
`user_sessions` table. A guard tries to keep at most one active session per person.

The model covers the five pieces of logic under the user interface:

- `types.dfy`, module `Types`: the `Person` record, `Option`, and what a `catch` block receives (`Thrown`, `ErrorMessage`).
- `text.dfy`, module `Text`: JavaScript's `trim`, `split` with one separator character, and `join`. For `trim` the whitespace set is ECMAScript's WhiteSpace plus LineTerminator code points.
- `csv_parser.dfy`, module `CsvParser`: `parseCSV`, written as pure functions. It is proved against an encoder, so parsing an encoded roster gives the people back.
- `csv_data.dfy`, module `CsvData`: `findPersonByUniqueId`, plus the roster hook's `people`/`loading`/`error` state as a class. The fetch is a parameter (`FetchOutcome`).
- `user_sessions.dfy`, module `UserSessions`: the session guard.
  - The remote table is a `SessionStore` object with a `configured` flag and a `rows` sequence.
  - Every round trip to the store is a `Call` parameter, either `Completes` or `Throws(...)`.
  - What `loginUser` and `logoutUser` do to the table is specified by the pure functions `Login` and `Logout`. The hook's methods are proved equal to them.
- `verified_person.dfy`, module `VerifiedPerson`: the verified screen's `isLoggedIn`, `message` and `mounted` state, driven by the guard's results.
- `app.dfy`, module `App`: the kiosk state machine `idle | scanning | verified | not-verified`, its three handlers, and which screen it renders.
- `scenario.dfy`, module `Scenario`: a whole visit, from scan through login, refused login, logout and refused logout. It is stated once over the specification functions and once through the kiosk's objects (`KioskVisit`).

Points where the model follows the code closely:

- `.single()` finds a row only when **exactly one** active row matches. With zero rows, and also with several, PostgREST answers with error PGRST116. The code reads that error as "no session".
- Under the invariant "at most one active row per `unique_id`" this is the same as "an active row exists" (`CheckUserLoginStatus`, `AtMostOneCount`).
- `checkUserLoginStatus` returns `false` when its query throws, and `loginUser` relies on that answer. If the status read fails for a person who is already active and the insert then succeeds, that person has two active sessions (`FailedReadAllowsSecondSession`). So the invariant holds across sequential calls only when the status read completes (`LoginKeepsAtMostOne`). `logoutUser` always keeps it (`LogoutKeepsAtMostOne`).
- `trim` runs over the whole file before it is split into lines, so a blank first line disappears. The first person's line then counts as the header and is dropped (`BlankHeaderDropsFirstLine`). The round trip therefore needs a non-empty header.
- After a scan, `scannedId` holds the **trimmed** scan text, so the not-verified screen shows the trimmed text rather than the raw scan.
- The error screen appears only for a non-empty error text. The code tests `if (error)`, and an empty string is falsy.
- Row ids are generated by the store. In the model, a row's id is its position in the table (`SessionStore.Valid`). This makes ids unique, so the logout update `eq('id', …).eq('is_active', true)` changes exactly the selected row (`DeactivateOnlySelected`).

## Model

| member | source | states |
|---|---|---|
| `Text.IsWhitespace` | src/utils/csvParser.ts:4 | the characters `trim` removes: ECMAScript WhiteSpace (tab, vertical tab, form feed, space, no-break space, byte order mark and the Unicode space separators) and LineTerminator (line feed, carriage return, line and paragraph separators) |
| `Text.LeadingWhitespace` | src/utils/csvParser.ts:4 | the length of the longest all-whitespace prefix: every character before it is whitespace and the next one is not |
| `Text.TrailingWhitespace` | src/utils/csvParser.ts:4 | the same for the longest all-whitespace suffix |
| `Text.Trim` | src/utils/csvParser.ts:4 | the result of `trim` neither starts nor ends with whitespace |
| `Text.TrimIsPadding` | src/utils/csvParser.ts:4 | the input is the result with whitespace added on both sides, so `trim` removes only whitespace and only at the ends |
| `Text.TrimUnique` | src/utils/csvParser.ts:4 | for any split of the input into whitespace, a trimmed core and whitespace, `trim` returns that core |
| `Text.TrimIdempotent` | src/utils/csvParser.ts:8 | trimming twice is the same as trimming once |
| `Text.TrimEmptyIff` | src/utils/csvParser.ts:4 | `trim` returns the empty string exactly when the input is all whitespace |
| `Text.TrimKeepsOut` | src/utils/csvParser.ts:8 | `trim` adds no character; a comma-free value stays comma-free |
| `Text.OccurrencesZero` | src/utils/csvParser.ts:4 | a character occurs zero times exactly when it is absent |
| `Text.Split` | src/utils/csvParser.ts:4 | `split` returns one more piece than there are separators, and no piece contains the separator |
| `Text.JoinSplit` | src/utils/csvParser.ts:8 | joining the pieces with the separator gives back the input |
| `Text.SplitJoin` | src/utils/csvParser.ts:8 | splitting a join of separator-free pieces gives back the pieces |
| `Text.SplitCons` | src/utils/csvParser.ts:8 | a separator-free piece followed by the separator splits off as the first piece |
| `Text.JoinAvoids` | src/utils/csvParser.ts:4 | a join contains no character other than the separator that its pieces lack |
| `Types.ErrorMessage` | src/hooks/useUserSessions.ts:74 | a thrown `Error` yields its message; any other thrown value yields the caller's fallback text |
| `CsvParser.Values` | src/utils/csvParser.ts:8 | a line has one value more than it has commas; every value is trimmed and comma-free |
| `CsvParser.ValueOrEmpty` | src/utils/csvParser.ts:10-16 | the k-th value when the line has one, otherwise ""; it is never anything but one of the values or "" |
| `CsvParser.ParseLine` | src/utils/csvParser.ts:8-17 | every field of a parsed record is trimmed and contains no comma |
| `CsvParser.ParseLines` | src/utils/csvParser.ts:7 | one record per line, record i from line i |
| `CsvParser.Lines` | src/utils/csvParser.ts:4 | there is one more line than there are line feeds in the trimmed text |
| `CsvParser.ParseCsv` | src/utils/csvParser.ts:3-19 | there is one record per line feed of the trimmed text; record i comes from line i+1, so the header yields nothing and order is kept |
| `CsvParser.ParseCsvEmpty` | src/utils/csvParser.ts:4-7 | the roster is empty exactly when the trimmed text has no line feed; empty or all-whitespace input gives no record |
| `CsvParser.BlankHeaderDropsFirstLine` | src/utils/csvParser.ts:4-7 | a file made of a blank line and one trimmed person line parses to no record, because `trim` removes the blank line and the person's line becomes the header |
| `CsvParser.ParseLineOfValues` | src/utils/csvParser.ts:8-16 | column k is the trimmed k-th comma-separated value, or "" when the line has fewer values; values past the seventh are ignored and every comma separates |
| `CsvParser.LineRoundTrip` | src/utils/csvParser.ts:8-16 | a line written from a person with trimmed, comma-free, newline-free fields parses back to that person |
| `CsvParser.CsvRoundTrip` | src/utils/csvParser.ts:3-19 | a file of any non-empty, trimmed, one-line header plus one line per such person parses back to exactly those people, in order |
| `CsvData.IndexOfUniqueId` | project/src/hooks/useCSVData.ts:31 | the first position whose uniqueId equals the query, or the length when there is none |
| `CsvData.FindPersonByUniqueId` | project/src/hooks/useCSVData.ts:30-32 | a found person has exactly the queried uniqueId; nothing is found iff nobody has it; the found person is the earliest one with it |
| `CsvData.FindsEveryDistinctEntry` | project/src/hooks/useCSVData.ts:30-32 | on a roster with distinct identifiers, looking up a person's identifier returns that person's full record |
| `CsvData.CsvData.constructor` | project/src/hooks/useCSVData.ts:6-8 | the roster starts empty, loading, without error |
| `CsvData.CsvData.LoadCsvData` | project/src/hooks/useCSVData.ts:11-25 | a good response's body is parsed, and the result becomes `people`; a non-ok response records "Failed to load CSV data"; a rejection records its message or "Unknown error"; loading ends in every case |
| `UserSessions.CountActive` | src/hooks/useUserSessions.ts:15-19 | it counts the rows the query selects; the count is zero iff no row is active for the id |
| `UserSessions.ActiveFor` | src/hooks/useUserSessions.ts:18-19 | the row filter `.eq('unique_id', id).eq('is_active', true)`, also used by logout at lines 101-102: the row is active and belongs to that unique_id |
| `UserSessions.FirstActive` | src/hooks/useUserSessions.ts:98-103 | the first active row for the id, with no active row before it |
| `UserSessions.SingleActive` | src/hooks/useUserSessions.ts:15-26 | `.single()` yields a row, which is active for the id, exactly when one row matches |
| `UserSessions.AtMostOneCount` | src/hooks/useUserSessions.ts:46-67 | under the invariant, the query never selects two rows |
| `UserSessions.CheckUserLoginStatus` | src/hooks/useUserSessions.ts:9-31 | it is true only when configured, when the read completes and when an active row exists; when configured, with a completing read and under the invariant, it is true iff an active row exists |
| `UserSessions.CountActiveSnoc` | src/hooks/useUserSessions.ts:55-65 | an inserted row adds its own activity to the count |
| `UserSessions.CountActiveClose` | src/hooks/useUserSessions.ts:123-130 | closing an active row of the id lowers its count by one |
| `UserSessions.FullName` | src/hooks/useUserSessions.ts:50 | `${person.firstName} ${person.lastName}`, the name every guard message starts with |
| `UserSessions.AlreadyLoggedInMessage` | src/hooks/useUserSessions.ts:50 | "<first> <last> is already logged in." |
| `UserSessions.LoggedInMessage` | src/hooks/useUserSessions.ts:71 | "<first> <last> logged in successfully!" |
| `UserSessions.NotLoggedInMessage` | src/hooks/useUserSessions.ts:109 | "<first> <last> is not currently logged in.", the text of both the PGRST116 branch and the no-session branch at line 118 |
| `UserSessions.LoggedOutMessage` | src/hooks/useUserSessions.ts:136 | "<first> <last> logged out successfully!" |
| `UserSessions.NewSession` | src/hooks/useUserSessions.ts:57-65 | the inserted row carries the id it is given, is active for the person's uniqueId and has no logout time |
| `UserSessions.Login` | src/hooks/useUserSessions.ts:33-83 | login never alters an existing row and appends at most one row, exactly when it succeeds; the appended row is active for the person |
| `UserSessions.Closed` | src/hooks/useUserSessions.ts:125-128 | a closed row keeps its id, uniqueId and login time, is inactive, and carries the logout time |
| `UserSessions.Deactivate` | src/hooks/useUserSessions.ts:123-130 | the update keeps the table's length and every row's id and uniqueId; rows with another id or already inactive are untouched; every row with the id ends inactive |
| `UserSessions.Logout` | src/hooks/useUserSessions.ts:85-148 | logout keeps the table's length and every row's id and uniqueId, never alters an inactive row, and changes nothing when it fails |
| `UserSessions.DegradedMode` | src/hooks/useUserSessions.ts:10-12 | unconfigured, the status is false, and login and logout both fail with "Database not configured. Please try again." while table and error stay unchanged |
| `UserSessions.LoginRefusesActivePerson` | src/hooks/useUserSessions.ts:46-52 | under the invariant (no two active rows share a unique_id), an active person's login fails with "<first> <last> is already logged in." and inserts nothing |
| `UserSessions.LoginAppendsOneRow` | src/hooks/useUserSessions.ts:55-72 | login succeeds iff configured, not logged in and the insert completes; it then appends exactly one active row copying uniqueId, names, idNumber and affiliation, with message "<first> <last> logged in successfully!"; otherwise the table is unchanged |
| `UserSessions.LoginKeepsAtMostOne` | src/hooks/useUserSessions.ts:46-67 | when the status read completes, login keeps at most one active row per unique_id |
| `UserSessions.SecondLoginFails` | src/hooks/useUserSessions.ts:46-52 | under the invariant (no two active rows share a unique_id), after a successful login the status is true and an immediate second login fails with "already logged in" and inserts nothing |
| `UserSessions.FailedReadAllowsSecondSession` | src/hooks/useUserSessions.ts:22-29 | a status read that throws counts as "not logged in", so login can give an active person a second active session |
| `UserSessions.LogoutWithoutSession` | src/hooks/useUserSessions.ts:98-120 | with no active row, logout fails with "<first> <last> is not currently logged in." and changes nothing |
| `UserSessions.DeactivateOnlySelected` | src/hooks/useUserSessions.ts:123-130 | the update closes the selected row only |
| `UserSessions.LogoutClosesActiveRow` | src/hooks/useUserSessions.ts:123-137 | logout succeeds iff configured, both calls complete and exactly one row is active; it then closes that row only, sets `is_active` false and `logged_out_at`, returns "<first> <last> logged out successfully!", and leaves the person logged out; otherwise the table is unchanged |
| `UserSessions.LogoutKeepsAtMostOne` | src/hooks/useUserSessions.ts:123-130 | logout keeps at most one active row per unique_id |
| `UserSessions.OperationsKeepIds` | src/hooks/useUserSessions.ts:55-65 | both operations keep row ids unique (equal to positions) |
| `UserSessions.ErrorsAreRecorded` | src/hooks/useUserSessions.ts:73-82 | a thrown insert, a thrown status read in logout or a thrown update returns failure with the thrown value's message (or the "Failed to login user" / "Failed to logout user" fallback), records that same text in `error`, and leaves the table unchanged; a recorded error is always the failure message; calls whose round trips complete record none |
| `UserSessions.SessionStore.constructor` | project/src/lib/supabase.ts:16-18 | the shared table starts with the given rows, with ids equal to positions, and with `configured` fixed for the session as `isSupabaseConfigured()` reports it |
| `UserSessions.UserSessions.constructor` | src/hooks/useUserSessions.ts:6-7 | the hook starts with `loading` false and no error |
| `UserSessions.UserSessions.LoginUser` | src/hooks/useUserSessions.ts:33-83 | its result, new table and new error are those of `Login`; `loading` is false after every configured call; unconfigured, nothing changes |
| `UserSessions.UserSessions.LogoutUser` | src/hooks/useUserSessions.ts:85-148 | the same with respect to `Logout` |
| `VerifiedPerson.MessageFor` | project/src/components/VerifiedPerson.tsx:59 | the banner text is the result's message, and its type is success exactly when the result succeeded |
| `VerifiedPerson.VerifiedPerson.constructor` | project/src/components/VerifiedPerson.tsx:16-17 | `isLoggedIn` starts false, with no message |
| `VerifiedPerson.VerifiedPerson.CheckStatus` | project/src/components/VerifiedPerson.tsx:21-38 | the status is applied only if the store is configured and the screen is still mounted; otherwise `isLoggedIn` is unchanged |
| `VerifiedPerson.VerifiedPerson.Unmount` | project/src/components/VerifiedPerson.tsx:39-41 | the clean-up clears `mounted` and changes nothing else |
| `VerifiedPerson.VerifiedPerson.HandleLogin` | project/src/components/VerifiedPerson.tsx:55-64 | while loading nothing changes; otherwise the banner shows the login result, `isLoggedIn` becomes true only on success and is otherwise unchanged, and the table changes as `Login` says |
| `VerifiedPerson.VerifiedPerson.HandleLogout` | project/src/components/VerifiedPerson.tsx:66-75 | while loading nothing changes; otherwise the banner shows the logout result, `isLoggedIn` becomes false only on success and is otherwise unchanged, and the table changes as `Logout` says |
| `App.App.constructor` | src/App.tsx:13-15 | the kiosk starts idle, with no person and an empty scanned id |
| `App.App.HandleStartScanning` | src/App.tsx:18-20 | the state becomes scanning; person and scanned id are unchanged; from idle the kiosk invariant is kept |
| `App.App.HandleScanResult` | src/App.tsx:22-32 | the scanned id becomes the trimmed text; if lookup on it finds a person, the state is verified and holds that person, and otherwise the state is not-verified and the person is untouched; from scanning the kiosk invariant is kept |
| `App.App.HandleContinueScanning` | src/App.tsx:34-38 | from any state the kiosk returns to idle with no person and an empty scanned id |
| `App.App.ShowsError` | src/App.tsx:51 | `if (error)` with JavaScript truthiness: the error screen is due only for an error text that is present and non-empty |
| `App.App.CurrentScreen` | src/App.tsx:40-90 | loading and then a non-empty error take precedence; the verified screen shows iff the state is verified and a person is held; a consistent kiosk never shows an empty layout, and its verified person has the scanned id |
| `App.ScanTrimsPadding` | src/App.tsx:23 | a trimmed identifier with whitespace around it is scanned as the identifier itself |
| `Scenario.AnaLeeVisit` | src/hooks/useUserSessions.ts:33-148 | "Q123" finds Ana Lee; then login succeeds, a second login is refused, logout succeeds and a second logout is refused, each with its exact message |
| `Scenario.AnaOnTheRoster` | src/utils/csvParser.ts:3-19 | a roster file with any non-empty, trimmed, one-line header and a line for Ana Lee parses to Ana Lee alone |
| `Scenario.ScanAna` | src/App.tsx:18-32 | through the kiosk objects: after the roster loads, scanning " Q123" plus a line feed shows the verified screen for Ana Lee |
| `Scenario.PressLoginTwice` | project/src/components/VerifiedPerson.tsx:55-64 | through the verified screen object over an empty configured table: two login presses show "Ana Lee logged in successfully!" then "Ana Lee is already logged in.", the screen believes "logged in" after both, and the table holds exactly Ana Lee's one open session |
| `Scenario.PressLogoutTwice` | project/src/components/VerifiedPerson.tsx:21-75 | on a later verified screen over that table: the status check shows her logged in, then two logout presses show "Ana Lee logged out successfully!" then "Ana Lee is not currently logged in." and leave the screen believing "logged out" |
| `Scenario.KioskVisit` | src/App.tsx:22-32 | the whole day chained through the objects: the verified screen for Ana Lee, the four banners in order, and the login state after every press |

## Left out

- project/src/components/QRScanner.tsx: camera acquisition, zxing decoding and the 30-second timeout are device I/O and timers. The decoded text is the argument of `HandleScanResult`.
- src/components/NotVerifiedPerson.tsx, src/components/ScanButton.tsx and all JSX markup and styling are presentation. `CurrentScreen` names which panel is shown, and no markup is modelled.
- Which of the login and logout buttons the verified screen offers, and their `disabled` attribute (project/src/components/VerifiedPerson.tsx:141-163), are rendering and are not modelled.
- project/src/lib/supabase.ts: environment configuration and the dynamic client import are represented only by `SessionStore.configured`.
- The `fetch('/assets/data.csv')` transport (project/src/hooks/useCSVData.ts:13-17) is represented by the `FetchOutcome` parameter of `LoadCsvData`.
- Supabase query builders and network failures are not modelled. Each round trip is a `Call` that completes or throws. A completed `.single()` without exactly one row stands for the PGRST116 answer.
- Timestamps (`new Date().toISOString()`) are opaque string parameters (`now`).
- `console.error` logging, the date formatting of the date of birth and the 3-second message-clearing timer are not modelled.
- The unused `headers` value (src/utils/csvParser.ts:5) has no effect. It cannot fail, because `split` always returns at least one piece.
- Concurrency is not modelled: the multi-kiosk and double-press read-then-write race, and the interleaving of several in-flight calls. Every call is one atomic step.
- VerifiedPerson.VerifiedPerson.HandleLogin: because of that, `loading` is false again whenever a handler can run, so the `if (loading) return` branch is stated but never reached in the model.
- VerifiedPerson.VerifiedPerson.HandleLogout: the same holds for its `if (loading) return` branch.
- UserSessions.LoginKeepsAtMostOne: the invariant is proved only for a status read that completes. With a failing read the code does not keep it (`FailedReadAllowsSecondSession`).
