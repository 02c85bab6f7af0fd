/** The pieces of JavaScript value semantics that the backend's handlers rely on:
    request-body fields that may be `undefined`, thrown errors and the text a
    handler reports for them, ASCII `toLowerCase`, and `BigInt.prototype.toString`. */
module Js {

  datatype Option<+T> = None | Some(value: T)

  datatype Result<+T, +E> = Success(value: T) | Failure(error: E)

  /** A field of a parsed JSON request body: a string, or `undefined` when the
      client left it out. */
  datatype Field = Absent | Str(s: string)

  /** What a template literal `${f}` inserts for the field. */
  function Render(f: Field): string
  {
    match f
    case Absent => "undefined"
    case Str(s) => s
  }

  /** A thrown error: the `reason` that ethers attaches to contract errors and
      the standard `message`; either may be missing. */
  datatype Thrown = Thrown(reason: Option<string>, message: Option<string>)

  /** A JavaScript string value is truthy when it is present and non-empty. */
  predicate Truthy(o: Option<string>)
  {
    o.Some? && o.value != ""
  }

  /** `err.reason || err.message || "Internal server error"`. */
  function ErrorText(e: Thrown): (t: string)
    ensures t != ""
    ensures t == "Internal server error" || (Truthy(e.reason) && t == e.reason.value)
            || (Truthy(e.message) && t == e.message.value)
  {
    if Truthy(e.reason) then e.reason.value
    else if Truthy(e.message) then e.message.value
    else "Internal server error"
  }

  // ---------------------------------------------------------------------------
  // ASCII lower-casing (addresses are hexadecimal strings)

  function LowerChar(c: char): char
  {
    if 'A' <= c <= 'Z' then (c as int + 32) as char else c
  }

  /** `s.toLowerCase()` restricted to ASCII. */
  function LowerAscii(s: string): (r: string)
    ensures |r| == |s|
  {
    if s == [] then [] else [LowerChar(s[0])] + LowerAscii(s[1..])
  }

  /** Two characters are the same letter in different case, or equal. */
  predicate CaseVariant(x: char, y: char)
  {
    x == y
    || ('A' <= x <= 'Z' && y as int == x as int + 32)
    || ('A' <= y <= 'Z' && x as int == y as int + 32)
  }

  /** Independent statement of "equal ignoring ASCII case". */
  predicate EqualIgnoringCase(a: string, b: string)
  {
    |a| == |b| && forall i :: 0 <= i < |a| ==> CaseVariant(a[i], b[i])
  }

  lemma {:induction false} LowerAsciiAt(s: string, i: nat)
    requires i < |s|
    ensures LowerAscii(s)[i] == LowerChar(s[i])
  {
    if i > 0 {
      LowerAsciiAt(s[1..], i - 1);
    }
  }

  /** The result of lower-casing holds no upper-case ASCII letter, and
      lower-casing it again changes nothing. */
  lemma {:induction false} LowerAsciiIdempotent(s: string)
    ensures forall i :: 0 <= i < |s| ==> !('A' <= LowerAscii(s)[i] <= 'Z')
    ensures LowerAscii(LowerAscii(s)) == LowerAscii(s)
  {
    if s != [] {
      LowerAsciiIdempotent(s[1..]);
      assert LowerAscii(s) == [LowerChar(s[0])] + LowerAscii(s[1..]);
      forall i | 0 <= i < |s|
        ensures !('A' <= LowerAscii(s)[i] <= 'Z')
      {
        if i > 0 {
          assert LowerAscii(s)[i] == LowerAscii(s[1..])[i - 1];
        }
      }
      assert LowerAscii(s)[1..] == LowerAscii(s[1..]);
    }
  }

  /** The comparison `a.toLowerCase() === b.toLowerCase()` holds exactly when
      the two strings are equal ignoring ASCII case. */
  lemma {:induction false} LowerAsciiEqIff(a: string, b: string)
    ensures LowerAscii(a) == LowerAscii(b) <==> EqualIgnoringCase(a, b)
  {
    if LowerAscii(a) == LowerAscii(b) {
      forall i | 0 <= i < |a|
        ensures CaseVariant(a[i], b[i])
      {
        LowerAsciiAt(a, i);
        LowerAsciiAt(b, i);
      }
    }
    if EqualIgnoringCase(a, b) {
      forall i | 0 <= i < |a|
        ensures LowerAscii(a)[i] == LowerAscii(b)[i]
      {
        LowerAsciiAt(a, i);
        LowerAsciiAt(b, i);
      }
    }
  }

  // ---------------------------------------------------------------------------
  // BigInt toString

  function DigitChar(d: nat): (c: char)
    requires d < 10
  {
    ('0' as int + d) as char
  }

  predicate IsDigit(c: char)
  {
    '0' <= c <= '9'
  }

  /** `n.toString()` for a non-negative BigInt: base-10 digits, no leading zero. */
  function Decimal(n: nat): (s: string)
    ensures |s| >= 1
    ensures forall i :: 0 <= i < |s| ==> IsDigit(s[i])
    ensures s[0] == '0' ==> n == 0
    decreases n
  {
    if n < 10 then [DigitChar(n)] else Decimal(n / 10) + [DigitChar(n % 10)]
  }

  /** Reads a string of base-10 digits back as a number. */
  function ParseDecimal(s: string): nat
    requires forall i :: 0 <= i < |s| ==> IsDigit(s[i])
  {
    if s == [] then 0
    else
      assert IsDigit(s[|s| - 1]);
      10 * ParseDecimal(s[..|s| - 1]) + (s[|s| - 1] as int - '0' as int)
  }

  /** The count string in a tally reads back as the exact vote count. */
  lemma {:induction false} DecimalRoundTrip(n: nat)
    ensures ParseDecimal(Decimal(n)) == n
    decreases n
  {
    var s := Decimal(n);
    if n >= 10 {
      DecimalRoundTrip(n / 10);
      assert s[..|s| - 1] == Decimal(n / 10);
    }
  }

  /** Different counts never print the same. */
  lemma DecimalInjective(m: nat, n: nat)
    ensures Decimal(m) == Decimal(n) ==> m == n
  {
    DecimalRoundTrip(m);
    DecimalRoundTrip(n);
  }
}
