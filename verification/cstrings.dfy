/**
  The pieces of the C library the console relies on: NUL-terminated strings,
  the C-locale character classes, and `atoi`.

  A C buffer is a `seq<char>`; the C string it holds is everything before the
  first NUL. Integers are unbounded here: `atoi` on a number that does not fit
  an `int` is undefined behaviour in C and is not modelled.
 */
module CStrings {

  const NUL: char := '\0'

  /** isblank() in the C locale: space and horizontal tab. */
  predicate IsBlank(c: char) {
    c == ' ' || c == '\t'
  }

  /** isspace() in the C locale. */
  predicate IsSpace(c: char) {
    c == ' ' || c == '\t' || c == '\n' || c == '\U{B}' || c == '\U{C}' || c == '\r'
  }

  predicate IsDigit(c: char) {
    '0' <= c <= '9'
  }

  /** strlen: the index of the first NUL, or |b| when the buffer holds none. */
  function StrLen(b: seq<char>): (n: nat)
    ensures n <= |b|
    ensures forall k :: 0 <= k < n ==> b[k] != NUL
    ensures n < |b| ==> b[n] == NUL
  {
    if |b| == 0 || b[0] == NUL then 0 else 1 + StrLen(b[1..])
  }

  /** The C string a buffer holds: its contents up to (not including) the first NUL. */
  function CString(b: seq<char>): (s: string)
    ensures NUL !in s
    ensures s <= b
    ensures |s| == |b| || b[|s|] == NUL
  {
    b[..StrLen(b)]
  }

  /** Reading a C string from a position where a NUL-free run is followed by NUL yields exactly that run. */
  lemma CStringOfTerminated(b: seq<char>, p: nat, e: nat)
    requires p <= e < |b|
    requires forall k :: p <= k < e ==> b[k] != NUL
    requires b[e] == NUL
    ensures CString(b[p..]) == b[p..e]
  {
  }

  // ---------------------------------------------------------------------------
  // atoi
  // ---------------------------------------------------------------------------

  /** Number of leading characters of t that isspace() accepts. */
  function LeadingSpaces(t: string): (n: nat)
    ensures n <= |t|
    ensures forall k :: 0 <= k < n ==> IsSpace(t[k])
    ensures n == |t| || !IsSpace(t[n])
  {
    if |t| == 0 || !IsSpace(t[0]) then 0 else 1 + LeadingSpaces(t[1..])
  }

  /** Number of leading decimal digits of t. */
  function DigitRun(t: string): (n: nat)
    ensures n <= |t|
    ensures forall k :: 0 <= k < n ==> IsDigit(t[k])
    ensures n == |t| || !IsDigit(t[n])
  {
    if |t| == 0 || !IsDigit(t[0]) then 0 else 1 + DigitRun(t[1..])
  }

  function DigitValue(c: char): nat
    requires IsDigit(c)
  {
    c as int - '0' as int
  }

  /** The value of a string of decimal digits, most significant first. */
  function DigitsValue(ds: string): nat
    requires forall k :: 0 <= k < |ds| ==> IsDigit(ds[k])
  {
    if |ds| == 0 then 0
    else 10 * DigitsValue(ds[..|ds| - 1]) + DigitValue(ds[|ds| - 1])
  }

  /**
    atoi: skip leading white space, take an optional sign, then the longest run
    of decimal digits; a string with no digits there converts to 0. A NUL is
    neither space, sign nor digit, so the scan never passes the terminator.
   */
  function Atoi(s: string): (r: int)
    ensures (forall k :: 0 <= k < |s| ==> !IsDigit(s[k])) ==> r == 0
    ensures r < 0 ==> LeadingSpaces(s) < |s| && s[LeadingSpaces(s)] == '-'
  {
    var t := s[LeadingSpaces(s)..];
    if |t| > 0 && (t[0] == '-' || t[0] == '+') then
      var v: int := DigitsValue(t[1..][..DigitRun(t[1..])]);
      if t[0] == '-' then -v else v
    else
      DigitsValue(t[..DigitRun(t)])
  }

  function DigitChar(d: nat): (c: char)
    requires d < 10
    ensures IsDigit(c) && DigitValue(c) == d
  {
    ('0' as int + d) as char
  }

  /** The decimal spelling of a natural number, without leading zeros. */
  function NatDecimal(n: nat): (ds: string)
    ensures |ds| > 0
    ensures forall k :: 0 <= k < |ds| ==> IsDigit(ds[k])
  {
    if n < 10 then [DigitChar(n)] else NatDecimal(n / 10) + [DigitChar(n % 10)]
  }

  /** The decimal spelling of an integer, as printf("%d") writes it. */
  function Decimal(n: int): string {
    if n < 0 then "-" + NatDecimal(-n) else NatDecimal(n)
  }

  lemma {:induction false} NatDecimalValue(n: nat)
    ensures DigitsValue(NatDecimal(n)) == n
  {
    if n >= 10 {
      var ds := NatDecimal(n);
      assert ds[..|ds| - 1] == NatDecimal(n / 10);
      NatDecimalValue(n / 10);
    }
  }

  /** atoi reads back every integer that %d prints. */
  lemma AtoiDecimal(n: int)
    ensures Atoi(Decimal(n)) == n
  {
    var m := if n < 0 then -n else n;
    var ds := NatDecimal(m);
    NatDecimalValue(m);
    assert DigitRun(ds) == |ds|;
    assert ds[..|ds|] == ds;
    if n < 0 {
      var s := Decimal(n);
      assert LeadingSpaces(s) == 0;
      assert s[0..] == s;
      assert s[1..] == ds;
    } else {
      assert LeadingSpaces(ds) == 0;
      assert ds[0..] == ds;
    }
  }
}
