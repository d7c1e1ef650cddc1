/** The parts of the Java platform whose behaviour the file store depends on:
    nullable references, java.util.Optional, 32-bit int arithmetic, and the
    String operations the validator, the controller and the error handler use. */
module JavaLang {

  /** A Java reference that may be null. */
  datatype Nullable<+T> = Null | Present(value: T)

  /** java.util.Optional, as returned by the repository's finders. */
  datatype Option<+T> = None | Some(value: T)

  const INT_MIN: int := -0x8000_0000
  const INT_MAX: int := 0x7fff_ffff

  /** A Java `int` (or an unboxed `Integer`). */
  type Int32 = x: int | INT_MIN <= x <= INT_MAX

  /** `x + 1` on a Java int, written as a case split on Integer.MAX_VALUE;
      it agrees with two's-complement arithmetic modulo 2^32. */
  function Inc32(x: Int32): (r: Int32)
    ensures r == (x + 1 - INT_MIN) % 0x1_0000_0000 + INT_MIN
  {
    if x == INT_MAX then INT_MIN else x + 1
  }

  /** Character.toLowerCase restricted to ASCII: 'A'..'Z' map to 'a'..'z',
      every other character is left as it is. */
  function ToLowerChar(c: char): char
  {
    if 'A' <= c <= 'Z' then (c as int - 'A' as int + 'a' as int) as char else c
  }

  /** String.toLowerCase, character by character. The result holds no
      upper-case ASCII letter and equals the input ignoring case. */
  function ToLowerCase(s: string): (r: string)
    ensures |r| == |s|
    ensures forall i :: 0 <= i < |s| ==> r[i] == ToLowerChar(s[i])
    ensures forall i :: 0 <= i < |r| ==> !('A' <= r[i] <= 'Z')
    ensures EqualsIgnoreCase(r, s)
  {
    var r := seq(|s|, i requires 0 <= i < |s| => ToLowerChar(s[i]));
    forall i | 0 <= i < |s| ensures ToLowerChar(r[i]) == ToLowerChar(s[i]) {
      LowerCharIdempotent(s[i]);
    }
    r
  }

  /** Lower-casing a character twice is lower-casing it once. */
  lemma LowerCharIdempotent(c: char)
    ensures ToLowerChar(ToLowerChar(c)) == ToLowerChar(c)
    ensures !('A' <= ToLowerChar(c) <= 'Z')
  {
  }

  /** Lower-casing a string twice is lower-casing it once. */
  lemma LowerCaseIdempotent(s: string)
    ensures ToLowerCase(ToLowerCase(s)) == ToLowerCase(s)
  {
    var r := ToLowerCase(s);
    forall i | 0 <= i < |s| ensures ToLowerCase(r)[i] == r[i] {
      LowerCharIdempotent(s[i]);
    }
  }

  /** equalsIgnoreCase holds exactly when the two lower-cased strings are
      equal. */
  lemma EqualsIgnoreCaseIffSameLowerCase(a: string, b: string)
    ensures EqualsIgnoreCase(a, b) <==> ToLowerCase(a) == ToLowerCase(b)
  {
    if ToLowerCase(a) == ToLowerCase(b) {
      forall i | 0 <= i < |a| ensures ToLowerChar(a[i]) == ToLowerChar(b[i]) {
        assert ToLowerCase(a)[i] == ToLowerCase(b)[i];
      }
    }
  }

  /** String.equalsIgnoreCase: same length and, position by position,
      the same character up to case. */
  predicate EqualsIgnoreCase(a: string, b: string)
  {
    |a| == |b| && forall i :: 0 <= i < |a| ==> ToLowerChar(a[i]) == ToLowerChar(b[i])
  }

  function DigitChar(d: int): char
    requires 0 <= d < 10
  {
    ('0' as int + d) as char
  }

  /** Decimal text of a non-negative number, most significant digit first. */
  function NatToString(n: nat): (r: string)
    ensures |r| > 0
    ensures forall i :: 0 <= i < |r| ==> '0' <= r[i] <= '9'
    decreases n
  {
    if n < 10 then [DigitChar(n)] else NatToString(n / 10) + [DigitChar(n % 10)]
  }

  /** String.valueOf on a long, as `%d` formats it. */
  function IntToString(x: int): string
  {
    if x < 0 then "-" + NatToString(-x) else NatToString(x)
  }

  /** String.join(sep, parts). */
  function Join(sep: string, parts: seq<string>): string
    decreases |parts|
  {
    if |parts| == 0 then ""
    else if |parts| == 1 then parts[0]
    else parts[0] + sep + Join(sep, parts[1..])
  }
}
