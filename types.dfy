/** Values shared by every part of the kiosk: the roster's person record and
    the shapes in which JavaScript code reports absence and thrown errors. */
module Types {

  /** A value that may be missing (`undefined` or `null` in the source). */
  datatype Option<+T> = None | Some(value: T)

  /** One enrolled individual, as a roster row describes them. */
  datatype Person = Person(
    firstName: string,
    lastName: string,
    idNumber: string,
    affiliation: string,
    dateOfBirth: string,
    uniqueId: string,
    createdAt: string)

  /** The seven fields of a person in roster column order. */
  function Fields(p: Person): (fs: seq<string>)
    ensures |fs| == 7
  {
    [p.firstName, p.lastName, p.idNumber, p.affiliation, p.dateOfBirth, p.uniqueId, p.createdAt]
  }

  /** What a rejected promise or a `throw` delivers to a `catch` block: either an
      `Error` object, which carries a message, or some other value. */
  datatype Thrown = ErrorObject(message: string) | OtherValue

  /** `err instanceof Error ? err.message : fallback`, the idiom every `catch`
      block of the kiosk uses to turn a thrown value into text. */
  function ErrorMessage(t: Thrown, fallback: string): (m: string)
    ensures t.ErrorObject? ==> m == t.message
    ensures t.OtherValue? ==> m == fallback
  {
    match t
    case ErrorObject(msg) => msg
    case OtherValue => fallback
  }
}
