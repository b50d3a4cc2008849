/** Java-level vocabulary shared by the model: nullable references, the
    exceptions the core throws, Java's 32-bit int, and the few String
    operations the core relies on (concatenation of a possibly-null
    reference, int-to-text rendering, String.contains). */
module Lang {

  datatype Option<+T> = None | Some(value: T)

  datatype Result<+T, +E> = Ok(value: T) | Err(error: E)

  /** The exceptions that leave the modelled operations. */
  datatype Fault =
    | IllegalArgument(message: string)   // java.lang.IllegalArgumentException
    | SqlError(message: string)          // java.sql.SQLException raised by the driver
    | ColumnNotFound(column: string)     // SQLException of ResultSet.getObject on an unknown label
    | NullPointer                        // java.lang.NullPointerException
    | IndexOutOfBounds                   // java.lang.ArrayIndexOutOfBoundsException

  /** How a `void` method ends: normally, or by throwing. */
  datatype Outcome = Completed | Thrown(fault: Fault)

  newtype int32 = x: int | -0x8000_0000 <= x < 0x8000_0000

  /** The text a String reference contributes to a Java `+` concatenation:
      a null reference is rendered as "null". */
  function Show(s: Option<string>): string
  {
    match s
    case None => "null"
    case Some(t) => t
  }

  function DigitChar(d: nat): char
    requires d < 10
  {
    "0123456789"[d]
  }

  /** Java's canonical decimal text of a natural number: digits only,
      and no leading zero unless the number is zero itself. */
  predicate CanonicalDigits(s: string)
  {
    && |s| > 0
    && (forall i :: 0 <= i < |s| ==> '0' <= s[i] <= '9')
    && (|s| > 1 ==> s[0] != '0')
  }

  /** Decimal rendering of a natural number, most significant digit first. */
  function Decimal(n: nat): (r: string)
    ensures CanonicalDigits(r)
    ensures n > 0 ==> r[0] != '0'
  {
    if n < 10 then [DigitChar(n)] else Decimal(n / 10) + [DigitChar(n % 10)]
  }

  /** Value of a string of decimal digits (the inverse of Decimal). */
  function DecimalValue(s: string): nat
  {
    if s == [] then 0
    else
      var d := s[|s| - 1] as int - '0' as int;
      DecimalValue(s[..|s| - 1]) * 10 + (if 0 <= d < 10 then d else 0)
  }

  lemma {:induction false} DecimalRoundTrip(n: nat)
    ensures DecimalValue(Decimal(n)) == n
  {
    if n >= 10 {
      var r := Decimal(n);
      assert r[..|r| - 1] == Decimal(n / 10);
      DecimalRoundTrip(n / 10);
    }
  }

  /** Java's `"" + i` for an int. */
  function IntToString(i: int): (r: string)
    ensures |r| > 0
    ensures i < 0 ==> r[0] == '-' && CanonicalDigits(r[1..]) && DecimalValue(r[1..]) == -i
    ensures i >= 0 ==> CanonicalDigits(r) && DecimalValue(r) == i
  {
    DecimalRoundTrip(if i < 0 then -i else i);
    if i < 0 then "-" + Decimal(-i) else Decimal(i)
  }

  /** Java's String.contains: `t` occurs in `s` as a contiguous substring. */
  predicate Contains(s: string, t: string)
  {
    exists i :: 0 <= i <= |s| - |t| && OccursAt(s, t, i)
  }

  predicate OccursAt(s: string, t: string, i: int)
  {
    0 <= i <= |s| - |t| && s[i..i + |t|] == t
  }

  /** Number of occurrences of character `c` in `s`. */
  function Occurrences(s: string, c: char): nat
  {
    if s == [] then 0
    else Occurrences(s[..|s| - 1], c) + (if s[|s| - 1] == c then 1 else 0)
  }
}
