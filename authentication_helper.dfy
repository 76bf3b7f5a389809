/** The caller's identity: the claims a bearer token carries and the extraction of
    the numeric user id from them. Signing and verifying the token are done by a JWT
    library and are not modelled; a token is the list of claims it asserts. */
module AuthenticationHelper {
  import opened Wrappers
  import opened Errors
  import opened Entities
  import opened Text

  /** The claim type URIs of `ClaimTypes.NameIdentifier` and `ClaimTypes.Name`. */
  const NameIdentifier: string := "http://schemas.xmlsoap.org/ws/2005/05/identity/claims/nameidentifier"
  const Name: string := "http://schemas.xmlsoap.org/ws/2005/05/identity/claims/name"

  /** A claim: its type URI and its value. */
  datatype Claim = Claim(kind: string, value: string)

  /** `ClaimsPrincipal.FindFirst(kind)?.Value`: the value of the first claim whose type
      equals `kind` ignoring case, or None when there is none. */
  function FindFirst(claims: seq<Claim>, kind: string): (r: Option<string>)
    ensures r.None? <==> forall i :: 0 <= i < |claims| ==> !EqualsIgnoreCase(claims[i].kind, kind)
    ensures r.Some? ==> exists i :: 0 <= i < |claims| && EqualsIgnoreCase(claims[i].kind, kind)
                                 && claims[i].value == r.value
                                 && forall j :: 0 <= j < i ==> !EqualsIgnoreCase(claims[j].kind, kind)
  {
    if claims == [] then None
    else if EqualsIgnoreCase(claims[0].kind, kind) then Some(claims[0].value)
    else
      var r := FindFirst(claims[1..], kind);
      assert forall j :: 0 <= j < |claims| - 1 ==> claims[1..][j] == claims[j + 1];
      r
  }

  /** Claim types are matched ignoring case, so two spellings of a type that differ
      only in case find the same claim. */
  lemma {:induction false} FindFirstIgnoresCase(claims: seq<Claim>, a: string, b: string)
    requires EqualsIgnoreCase(a, b)
    ensures FindFirst(claims, a) == FindFirst(claims, b)
  {
    if claims != [] && !EqualsIgnoreCase(claims[0].kind, a) {
      FindFirstIgnoresCase(claims[1..], a, b);
    }
  }

  // ------------------------------------------------------------------ long

  const LongMin: int := -0x8000_0000_0000_0000
  const LongMax: int := 0x7FFF_FFFF_FFFF_FFFF

  predicate IsDigit(c: char) {
    '0' <= c <= '9'
  }

  predicate AllDigits(s: string) {
    forall i :: 0 <= i < |s| ==> IsDigit(s[i])
  }

  /** The value of a string of decimal digits, most significant first. */
  function DigitsValue(s: string): nat
    requires AllDigits(s)
  {
    if s == [] then 0
    else DigitsValue(s[..|s| - 1]) * 10 + (s[|s| - 1] as int - '0' as int)
  }

  /** The white space NumberStyles.Integer allows around a number. */
  predicate IsNumberWhite(c: char) {
    c == ' ' || '\t' <= c <= '\r'
  }

  function TrimStart(s: string): (r: string)
    ensures r == [] || !IsNumberWhite(r[0])
    decreases |s|
  {
    if s != [] && IsNumberWhite(s[0]) then TrimStart(s[1..]) else s
  }

  function TrimEnd(s: string): (r: string)
    ensures r == [] || !IsNumberWhite(r[|r| - 1])
    ensures |r| <= |s| && r == s[..|r|]
    decreases |s|
  {
    if s != [] && IsNumberWhite(s[|s| - 1]) then TrimEnd(s[..|s| - 1]) else s
  }

  datatype ParseResult = Parsed(n: int) | BadFormat | Overflow

  /** `long.Parse(s, CultureInfo.InvariantCulture)`: optional white space, an
      optional sign, at least one decimal digit, optional white space; a value outside
      the range of a 64-bit signed integer is an overflow. */
  function ParseLong(s: string): (r: ParseResult)
    ensures r.Parsed? ==> LongMin <= r.n <= LongMax
  {
    var t := TrimEnd(TrimStart(s));
    var negative := t != [] && t[0] == '-';
    var digits := if t != [] && (t[0] == '-' || t[0] == '+') then t[1..] else t;
    if digits == [] || !AllDigits(digits) then BadFormat
    else
      var v: int := DigitsValue(digits);
      var n := if negative then -v else v;
      if LongMin <= n <= LongMax then Parsed(n) else Overflow
  }

  /** Decimal digits of a natural number, most significant first, no leading zeros. */
  function NatToString(n: nat): (s: string)
    ensures s != [] && AllDigits(s)
  {
    var d := ['0' + (n % 10) as char];
    if n < 10 then d else NatToString(n / 10) + d
  }

  /** `long.ToString()`: a minus sign for negative numbers, then the digits. */
  function LongToString(n: int): string {
    if n < 0 then "-" + NatToString(-n) else NatToString(n)
  }

  lemma {:induction false} NatToStringValue(n: nat)
    ensures DigitsValue(NatToString(n)) == n
  {
    var s := NatToString(n);
    if n >= 10 {
      NatToStringValue(n / 10);
      assert s[..|s| - 1] == NatToString(n / 10);
    }
  }

  /** Printing a 64-bit integer and parsing it back gives the same integer. */
  lemma ParseLongToString(n: int)
    requires LongMin <= n <= LongMax
    ensures ParseLong(LongToString(n)) == Parsed(n)
  {
    var s := LongToString(n);
    var digits := NatToString(if n < 0 then -n else n);
    NatToStringValue(if n < 0 then -n else n);
    assert TrimStart(s) == s;
    assert TrimEnd(s) == s;
    if n < 0 {
      assert s[1..] == digits;
    }
  }

  // ---------------------------------------------------------------- tokens

  /** The claims AuthenticationToken puts in the token it issues for a user. */
  function AuthenticationToken(u: User): (claims: seq<Claim>)
    ensures FindFirst(claims, NameIdentifier) == Some(LongToString(u.id))
    ensures FindFirst(claims, Name) == Some(u.name)
  {
    [Claim(NameIdentifier, LongToString(u.id)), Claim(Name, u.name)]
  }

  /** GetUserClaimId: a principal without a NameIdentifier claim is a NotFound with a
      fixed message; a claim that long.Parse rejects raises FormatException or
      OverflowException, which are not service exceptions. */
  function GetUserClaimId(claims: seq<Claim>): (r: Result<int, Exception>)
    ensures r.Success? ==> LongMin <= r.value <= LongMax
    ensures r == Failure(Service(NotFound(MissingClaim))) <==> FindFirst(claims, NameIdentifier).None?
    ensures r.Success? <==> exists v :: FindFirst(claims, NameIdentifier) == Some(v) && ParseLong(v).Parsed?
    // a present claim that is not a decimal 64-bit integer raises a non-service exception
    ensures FindFirst(claims, NameIdentifier).Some? && !ParseLong(FindFirst(claims, NameIdentifier).value).Parsed? ==>
              r.Failure? && r.error.Internal?
  {
    match FindFirst(claims, NameIdentifier)
    case None => Failure(Service(NotFound(MissingClaim)))
    case Some(v) =>
      match ParseLong(v)
      case Parsed(n) => Success(n)
      case BadFormat => Failure(Internal(FormatError))
      case Overflow => Failure(Internal(OverflowError))
  }

  /** The id read back from an issued token is the id of the user it was issued for. */
  lemma ClaimIdRoundTrip(u: User)
    requires LongMin <= u.id <= LongMax
    ensures GetUserClaimId(AuthenticationToken(u)) == Success(u.id)
  {
    ParseLongToString(u.id);
  }
}
