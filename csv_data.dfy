/** The roster hook (project/src/hooks/useCSVData.ts): the loaded people, the
    load's progress and failure, and lookup by unique identifier. */
module CsvData {
  import opened Types
  import opened CsvParser

  const LoadFailedMessage := "Failed to load CSV data"
  const UnknownErrorMessage := "Unknown error"

  /** The position of the first person whose uniqueId is `uniqueId`, or
      |people| when nobody has it. */
  function IndexOfUniqueId(people: seq<Person>, uniqueId: string): (k: nat)
    ensures k <= |people|
    ensures k < |people| ==> people[k].uniqueId == uniqueId
    ensures forall j :: 0 <= j < k ==> people[j].uniqueId != uniqueId
  {
    if |people| == 0 then 0
    else if people[0].uniqueId == uniqueId then 0
    else 1 + IndexOfUniqueId(people[1..], uniqueId)
  }

  /** `people.find(person => person.uniqueId === uniqueId)`: exact,
      case-sensitive comparison; the earliest match wins. */
  function FindPersonByUniqueId(people: seq<Person>, uniqueId: string): (r: Option<Person>)
    ensures r.Some? ==> r.value.uniqueId == uniqueId
    ensures r.None? <==> forall i :: 0 <= i < |people| ==> people[i].uniqueId != uniqueId
    ensures r.Some? ==> exists i :: 0 <= i < |people| && r.value == people[i] &&
                                    forall j :: 0 <= j < i ==> people[j].uniqueId != uniqueId
  {
    var k := IndexOfUniqueId(people, uniqueId);
    if k < |people| then Some(people[k]) else None
  }

  /** On a roster whose identifiers are distinct, scanning a person's own
      identifier finds that person's whole record. */
  lemma FindsEveryDistinctEntry(people: seq<Person>, i: nat)
    requires i < |people|
    requires forall a, b :: 0 <= a < b < |people| ==> people[a].uniqueId != people[b].uniqueId
    ensures FindPersonByUniqueId(people, people[i].uniqueId) == Some(people[i])
  {
    var k := IndexOfUniqueId(people, people[i].uniqueId);
    assert k <= i;
  }

  /** What the `fetch('/assets/data.csv')` round trip delivers: a response
      with its `ok` flag and body text, or a rejection. */
  datatype FetchOutcome = Response(ok: bool, body: string) | Rejected(reason: Thrown)

  /** The hook's state: `people`, `loading` and `error`. */
  class CsvData {
    var people: seq<Person>
    var loading: bool
    var error: Option<string>

    constructor()
      ensures people == [] && loading && error == None
    {
      people := [];
      loading := true;
      error := None;
    }

    /** The load effect once the fetch has settled: a good response is parsed
        into the roster, anything else becomes the error text; either way
        loading ends. */
    method LoadCsvData(outcome: FetchOutcome)
      modifies this
      ensures !loading
      ensures outcome.Response? && outcome.ok ==> people == ParseCsv(outcome.body) && error == old(error)
      ensures outcome.Response? && !outcome.ok ==> people == old(people) && error == Some(LoadFailedMessage)
      ensures outcome.Rejected? ==> people == old(people) && error == Some(ErrorMessage(outcome.reason, UnknownErrorMessage))
    {
      match outcome {
        case Response(ok, body) =>
          if ok {
            people := ParseCsv(body);
          } else {
            error := Some(ErrorMessage(ErrorObject(LoadFailedMessage), UnknownErrorMessage));
          }
        case Rejected(reason) =>
          error := Some(ErrorMessage(reason, UnknownErrorMessage));
      }
      loading := false;
    }
  }
}
