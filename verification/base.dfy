/** Values shared by every part of the rental backend: nullable values, the
    outcome of an operation that may throw, and the few string helpers the
    services and validators use. */
module Base {

  /** A Java reference that may be null. */
  datatype Option<+T> = None | Some(value: T) {
    function GetOr(default: T): T {
      match this
      case Some(v) => v
      case None => default
    }
  }

  /** The exceptions the services raise, each with the text it carries. */
  datatype Error =
    | NotFound(message: string)         // NotFoundException
    | Conflict(message: string)         // ConflictException
    | Registration(message: string)     // RegistrationException
    | UsernameNotFound(message: string) // Spring's UsernameNotFoundException
    | EmptyResult(message: string)      // repository deleteById of an absent id
    | NullReference(message: string)    // a dereference of null
    | NullColumn(message: string)       // a NOT NULL column saved as null
    | UniqueViolation(message: string)  // a save the database's unique constraint rejects
    | IllegalArgument(message: string)  // IllegalArgumentException
    | IdentifierAltered(message: string) // Hibernate refusing a changed id at flush

  /** A value, or the exception that was raised instead. */
  datatype Result<+T> = Ok(value: T) | Err(error: Error) {
    predicate IsFailure() { Err? }
    function PropagateFailure<U>(): Result<U>
      requires Err?
    {
      Err(error)
    }
    function Extract(): T
      requires Ok?
    {
      value
    }
  }

  /** `LocalDateTime` values, as a count of time units on one time line. */
  type Timestamp = int

  /** `BigDecimal` values: exact decimals, compared numerically. */
  type Decimal = real

  /** The decimal digits of a natural number, most significant first. */
  function NatToString(n: nat): (s: string)
    ensures |s| >= 1
    ensures forall i :: 0 <= i < |s| ==> '0' <= s[i] <= '9'
    ensures n < 10 <==> |s| == 1
  {
    var d := [('0' as int + n % 10) as char];
    if n < 10 then d else NatToString(n / 10) + d
  }

  /** Java's `String.valueOf(long)` for the ids that appear in messages. */
  function IdToString(id: int): string {
    if id < 0 then "-" + NatToString(-id) else NatToString(id)
  }

  /** Java's `String.length()`: the number of UTF-16 code units. A character
      beyond U+FFFF is stored as a surrogate pair and counts twice. */
  function Utf16Length(s: string): (n: nat)
    ensures |s| <= n <= 2 * |s|
  {
    if s == [] then 0 else (if s[0] as int >= 0x1_0000 then 2 else 1) + Utf16Length(s[1..])
  }

  /** On text within the Basic Multilingual Plane the UTF-16 length is the
      number of characters; each character beyond it adds one. */
  lemma {:induction false} Utf16LengthBmp(s: string)
    ensures Utf16Length(s) == |s| <==> forall i :: 0 <= i < |s| ==> s[i] as int < 0x1_0000
  {
    if s != [] {
      Utf16LengthBmp(s[1..]);
      assert forall i :: 1 <= i < |s| ==> s[i] == s[1..][i - 1];
    }
  }

  /** `String.trim().isEmpty()`: every character is a control character or a space. */
  predicate IsBlank(s: string) {
    forall i :: 0 <= i < |s| ==> s[i] <= ' '
  }

  /** A string request parameter that counts as given: non-null and not empty. */
  predicate Given(s: Option<string>) {
    s.Some? && s.value != ""
  }

  predicate IsDigit(c: char) {
    '0' <= c <= '9'
  }
}
