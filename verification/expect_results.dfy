/** The `--expect-results` option of the query command: an expected item
    count written as `>=N`, `<=N`, `>N`, `<N` or `N`, checked against the
    number of edges a query selected. */
module ExpectResults {
  import opened Wrappers
  import opened Strings

  /** The code points ECMAScript counts as WhiteSpace or LineTerminator,
      which `String.prototype.trim` and `parseInt` skip. */
  predicate IsSpace(c: char) {
    || c in {'\U{0009}', '\U{000A}', '\U{000B}', '\U{000C}', '\U{000D}', '\U{0020}', '\U{00A0}', '\U{1680}'}
    || ('\U{2000}' <= c <= '\U{200A}')
    || c in {'\U{2028}', '\U{2029}', '\U{202F}', '\U{205F}', '\U{3000}', '\U{FEFF}'}
  }

  /** Whether `s` has no whitespace at either end. */
  predicate Unpadded(s: string) {
    s == [] || (!IsSpace(s[0]) && !IsSpace(s[|s| - 1]))
  }

  predicate AllSpace(s: string) {
    forall j :: 0 <= j < |s| ==> IsSpace(s[j])
  }

  /** The length of the whitespace run that starts `s`. */
  function LeadingSpaces(s: string): (k: nat)
    ensures k <= |s| && AllSpace(s[..k])
    ensures k == |s| || !IsSpace(s[k])
    decreases |s|
  {
    if s == [] || !IsSpace(s[0]) then 0 else 1 + LeadingSpaces(s[1..])
  }

  /** The length of the whitespace run that ends `s`. */
  function TrailingSpaces(s: string): (k: nat)
    ensures k <= |s| && AllSpace(s[|s| - k..])
    ensures k == |s| || !IsSpace(s[|s| - k - 1])
    decreases |s|
  {
    if s == [] || !IsSpace(s[|s| - 1]) then 0
    else
      var k := TrailingSpaces(s[..|s| - 1]);
      assert s[|s| - (k + 1)..] == s[..|s| - 1][|s| - 1 - k..] + [s[|s| - 1]];
      1 + k
  }

  /** `String.prototype.trim`. */
  function Trim(s: string): (r: string)
    ensures Unpadded(r)
    ensures exists p, q :: 0 <= p <= q <= |s| && r == s[p..q] && AllSpace(s[..p]) && AllSpace(s[q..])
  {
    TrimBounds(s);
    s[TrimStart(s)..TrimStop(s)]
  }

  /** Where the text `Trim` keeps starts. */
  function TrimStart(s: string): nat {
    LeadingSpaces(s)
  }

  /** Where the text `Trim` keeps ends. */
  function TrimStop(s: string): int {
    |s| - TrailingSpaces(s[LeadingSpaces(s)..])
  }

  /** The whitespace runs `Trim` cuts off at either end. */
  lemma TrimBounds(s: string)
    ensures TrimStart(s) <= TrimStop(s) <= |s|
    ensures Unpadded(s[TrimStart(s)..TrimStop(s)])
    ensures AllSpace(s[..TrimStart(s)]) && AllSpace(s[TrimStop(s)..])
  {
    var p := LeadingSpaces(s);
    var t := s[p..];
    var q := TrailingSpaces(t);
    assert t[|t| - q..] == s[|s| - q..];
    TrimEnds(s);
  }

  lemma TrimEnds(s: string)
    ensures TrimStart(s) <= TrimStop(s)
    ensures Unpadded(s[TrimStart(s)..TrimStop(s)])
  {
    var p := LeadingSpaces(s);
    var t := s[p..];
    var q := TrailingSpaces(t);
    var r := s[p..|s| - q];
    if r != [] {
      assert p < |s| && r[0] == s[p];
      assert !IsSpace(s[p]);
      var j := |t| - q - 1;
      TrailingBoundary(t);
      assert t[j] == s[|s| - q - 1] == r[|r| - 1];
    }
  }

  lemma TrailingBoundary(t: string)
    ensures TrailingSpaces(t) < |t| ==> !IsSpace(t[|t| - TrailingSpaces(t) - 1])
  {
  }

  lemma {:induction false} LeadingOfPadded(p: string, x: string)
    requires AllSpace(p)
    requires x == [] || !IsSpace(x[0])
    ensures LeadingSpaces(p + x) == |p|
    decreases |p|
  {
    if p != [] {
      assert (p + x)[1..] == p[1..] + x;
      LeadingOfPadded(p[1..], x);
    }
  }

  lemma {:induction false} TrailingOfPadded(x: string, q: string)
    requires AllSpace(q)
    requires x == [] || !IsSpace(x[|x| - 1])
    ensures TrailingSpaces(x + q) == |q|
    decreases |q|
  {
    if q != [] {
      assert (x + q)[..|x + q| - 1] == x + q[..|q| - 1];
      TrailingOfPadded(x, q[..|q| - 1]);
    }
  }

  /** Trimming removes exactly the padding around a text with no
      whitespace at its ends. */
  lemma TrimPadded(p: string, x: string, q: string)
    requires AllSpace(p) && AllSpace(q) && x != [] && Unpadded(x)
    ensures Trim(p + x + q) == x
  {
    var s := p + x + q;
    assert s == p + (x + q);
    LeadingOfPadded(p, x + q);
    var t := s[|p|..];
    assert t == x + q;
    TrailingOfPadded(x, q);
    assert t[..|t| - |q|] == x;
  }

  /** Trimming twice trims no more than once. */
  lemma TrimIdempotent(s: string)
    ensures Trim(Trim(s)) == Trim(s)
  {
    var r := Trim(s);
    if r != [] {
      TrimPadded([], r, []);
      assert [] + r + [] == r;
    }
  }

  // ---------------------------------------------------------------------
  // parseInt(s, 10)

  predicate IsDigit(c: char) {
    '0' <= c <= '9'
  }

  predicate AllDigits(s: string) {
    forall j :: 0 <= j < |s| ==> IsDigit(s[j])
  }

  /** The length of the run of decimal digits that starts `s`. */
  function DigitPrefix(s: string): (k: nat)
    ensures k <= |s| && AllDigits(s[..k])
    ensures k == |s| || !IsDigit(s[k])
    decreases |s|
  {
    if s == [] || !IsDigit(s[0]) then 0 else 1 + DigitPrefix(s[1..])
  }

  /** The value of a run of decimal digits, most significant first. */
  function DigitsValue(ds: string): nat
    requires AllDigits(ds)
    decreases |ds|
  {
    if ds == [] then 0 else DigitsValue(ds[..|ds| - 1]) * 10 + (ds[|ds| - 1] as int - '0' as int)
  }

  /** The value of the run of decimal digits that starts `u`; `NaN`,
      modelled as `None`, when `u` does not start with a digit. */
  function ParseDigits(u: string): (r: Option<nat>)
    ensures r.Some? <==> u != [] && IsDigit(u[0])
  {
    var k := DigitPrefix(u);
    if k == 0 then None else Some(DigitsValue(u[..k]))
  }

  /** The number after one optional sign. */
  function ParseSigned(t: string): (r: Option<int>)
    ensures r.Some? <==> (if t != [] && t[0] in {'-', '+'} then ParseDigits(t[1..]).Some? else ParseDigits(t).Some?)
  {
    if t != [] && t[0] == '-' then
      match ParseDigits(t[1..])
      case Some(n) => Some(-(n as int))
      case None => None
    else if t != [] && t[0] == '+' then
      match ParseDigits(t[1..])
      case Some(n) => Some(n)
      case None => None
    else
      match ParseDigits(t)
      case Some(n) => Some(n)
      case None => None
  }

  /** `parseInt(s, 10)`: skip leading whitespace, take one optional sign,
      then the longest run of decimal digits. */
  function ParseInt(s: string): (r: Option<int>)
    ensures r.Some? <==>
      var t := s[LeadingSpaces(s)..];
      var u := if t != [] && t[0] in {'-', '+'} then t[1..] else t;
      u != [] && IsDigit(u[0])
  {
    ParseSigned(s[LeadingSpaces(s)..])
  }

  /** The decimal digit for 0..9. */
  function DigitChar(d: int): (c: char)
    requires 0 <= d < 10
    ensures IsDigit(c) && c as int - '0' as int == d
  {
    (d + '0' as int) as char
  }

  /** A natural number in decimal, with no leading zero. */
  function Decimal(n: nat): (s: string)
    ensures s != [] && AllDigits(s)
    ensures |s| > 1 ==> s[0] != '0'
    decreases n
  {
    if n < 10 then [DigitChar(n)] else Decimal(n / 10) + [DigitChar(n % 10)]
  }

  /** An integer in decimal, with a minus sign when negative. */
  function IntText(i: int): string {
    if i < 0 then "-" + Decimal(-i) else Decimal(i)
  }

  lemma {:induction false} DecimalValue(n: nat)
    ensures DigitsValue(Decimal(n)) == n
    decreases n
  {
    if n >= 10 {
      var s := Decimal(n);
      assert s[..|s| - 1] == Decimal(n / 10);
      DecimalValue(n / 10);
    }
  }

  lemma DigitRun(ds: string, rest: string)
    requires AllDigits(ds)
    requires rest == [] || !IsDigit(rest[0])
    ensures DigitPrefix(ds + rest) == |ds|
    ensures (ds + rest)[..|ds|] == ds
    decreases |ds|
  {
    var s := ds + rest;
    if ds != [] {
      assert s[0] == ds[0] && IsDigit(ds[0]);
      assert s[1..] == ds[1..] + rest;
      DigitRun(ds[1..], rest);
      assert DigitPrefix(s) == 1 + DigitPrefix(s[1..]);
    } else {
      assert s == rest;
    }
  }

  lemma ParseDecimal(n: nat, rest: string)
    requires rest == [] || !IsDigit(rest[0])
    ensures ParseDigits(Decimal(n) + rest) == Some(n)
  {
    var ds := Decimal(n);
    DecimalValue(n);
    DigitRun(ds, rest);
  }

  lemma ParseNegative(n: nat, rest: string)
    requires n > 0
    requires rest == [] || !IsDigit(rest[0])
    ensures ParseInt("-" + Decimal(n) + rest) == Some(-(n as int))
  {
    var s := "-" + Decimal(n) + rest;
    assert LeadingSpaces(s) == 0 by {
      assert s[0] == '-';
    }
    assert s[0..] == s;
    ParseDecimal(n, rest);
    assert s[1..] == Decimal(n) + rest;
  }

  lemma ParseNonNegative(n: nat, rest: string)
    requires rest == [] || !IsDigit(rest[0])
    ensures ParseInt(Decimal(n) + rest) == Some(n)
  {
    var s := Decimal(n) + rest;
    assert LeadingSpaces(s) == 0 by {
      assert s[0] == Decimal(n)[0];
    }
    assert s[0..] == s;
    ParseDecimal(n, rest);
  }

  /** `parseInt` reads back any integer written in decimal, whatever
      non-digit text follows it. */
  lemma ParseIntText(i: int, rest: string)
    requires rest == [] || !IsDigit(rest[0])
    ensures ParseInt(IntText(i) + rest) == Some(i)
  {
    if i < 0 {
      ParseNegative(-i, rest);
    } else {
      ParseNonNegative(i, rest);
    }
  }

  // ---------------------------------------------------------------------
  // The expectation

  datatype Comparison = AtLeast | AtMost | MoreThan | LessThan | Exactly

  /** The text that introduces each comparison. */
  function OperatorText(op: Comparison): string {
    match op
    case AtLeast => ">="
    case AtMost => "<="
    case MoreThan => ">"
    case LessThan => "<"
    case Exactly => ""
  }

  /** What the expectation demands of an item count. */
  predicate Holds(op: Comparison, count: nat, k: int) {
    match op
    case AtLeast => count >= k
    case AtMost => count <= k
    case MoreThan => count > k
    case LessThan => count < k
    case Exactly => count == k
  }

  /** A comparison against `NaN` is false. */
  predicate Compare(op: Comparison, count: nat, k: Option<int>) {
    k.Some? && Holds(op, count, k.value)
  }

  /** The comparison an expectation text selects and the number text
      after its operator, testing the prefixes in the order `>=`, `<=`,
      `>`, `<`. */
  function Expectation(e: string): (r: (Comparison, string))
    ensures OperatorText(r.0) + r.1 == e
    ensures StartsWith(e, ">=") ==> r.0 == AtLeast
    ensures !StartsWith(e, ">=") && StartsWith(e, ">") ==> r.0 == MoreThan
    ensures StartsWith(e, "<=") ==> r.0 == AtMost
    ensures !StartsWith(e, "<=") && StartsWith(e, "<") ==> r.0 == LessThan
    ensures r.0 == Exactly <==> !StartsWith(e, ">") && !StartsWith(e, "<")
  {
    if StartsWith(e, ">=") then (AtLeast, e[2..])
    else if StartsWith(e, "<=") then (AtMost, e[2..])
    else if StartsWith(e, ">") then (MoreThan, e[1..])
    else if StartsWith(e, "<") then (LessThan, e[1..])
    else (Exactly, e)
  }

  /** `validateExpectedResult`: no expectation, or an empty one, accepts
      every count; otherwise the count must meet the comparison, which a
      number text that does not parse never does. */
  function ValidateExpectedResult(wanted: Option<string>, count: nat): (ok: bool)
    ensures wanted.None? || wanted == Some([]) ==> ok
    ensures ok && wanted.Some? && wanted.value != [] ==> ParseInt(Trim(Expectation(wanted.value).1)).Some?
  {
    if wanted.None? || wanted.value == [] then true
    else
      var (op, num) := Expectation(wanted.value);
      Compare(op, count, ParseInt(Trim(num)))
  }

  /** An expectation is its operator followed by the number text, as long
      as that text does not itself start like an operator. */
  lemma Dispatch(op: Comparison, x: string)
    requires x != [] && x[0] !in {'=', '<', '>'}
    ensures Expectation(OperatorText(op) + x) == (op, x)
  {
    var e := OperatorText(op) + x;
    match op
    case AtLeast =>
      assert e[..2] == ">=" && e[2..] == x;
    case AtMost =>
      assert e[..2] == "<=" && e[2..] == x;
    case MoreThan =>
      assert e[..1] == ">" && e[1..] == x && e[1] == x[0];
    case LessThan =>
      assert e[..1] == "<" && e[1..] == x && e[1] == x[0];
    case Exactly =>
      assert e == x && e[0] == x[0];
  }

  /** Whitespace and then an integer in decimal trims and parses back to
      that integer. */
  lemma PaddedNumber(pad: string, k: int)
    requires AllSpace(pad)
    ensures ParseInt(Trim(pad + IntText(k))) == Some(k)
  {
    var num := IntText(k);
    var n: nat := if k < 0 then -k else k;
    assert num[|num| - 1] == Decimal(n)[|Decimal(n)| - 1];
    TrimPadded(pad, num, []);
    assert pad + num + [] == pad + num;
    ParseIntText(k, []);
    assert num + [] == num;
  }

  /** An expectation written as an operator, optional whitespace and an
      integer is met exactly when the comparison holds. */
  lemma ValidateWritten(op: Comparison, pad: string, k: int, count: nat)
    requires AllSpace(pad)
    ensures ValidateExpectedResult(Some(OperatorText(op) + pad + IntText(k)), count) == Holds(op, count, k)
  {
    var x := pad + IntText(k);
    var e := OperatorText(op) + x;
    assert OperatorText(op) + pad + IntText(k) == e;
    NumberStart(pad, k);
    Dispatch(op, x);
    PaddedNumber(pad, k);
    assert ValidateExpectedResult(Some(e), count) == Compare(op, count, ParseInt(Trim(x)));
  }

  /** Whitespace or an integer in decimal never starts like an operator. */
  lemma NumberStart(pad: string, k: int)
    requires AllSpace(pad)
    ensures var x := pad + IntText(k); x != [] && x[0] !in {'=', '<', '>'}
  {
    var t := IntText(k);
    if pad == [] {
      assert pad + t == t;
      if k >= 0 {
        assert IsDigit(Decimal(k)[0]);
      }
    } else {
      assert (pad + t)[0] == pad[0] && IsSpace(pad[0]);
    }
  }

  /** A value with no operator in front is an exact count: it is met
      exactly when its trimmed text parses to the count. */
  lemma ValidatePlain(e: string, count: nat)
    requires e != [] && e[0] != '<' && e[0] != '>'
    ensures ValidateExpectedResult(Some(e), count) <==> ParseInt(Trim(e)) == Some(count)
  {
    assert Expectation(e) == (Exactly, e) by {
      assert e[..1] != ">" && e[..1] != "<";
    }
    var p := ParseInt(Trim(e));
    assert ValidateExpectedResult(Some(e), count) == Compare(Exactly, count, p);
  }

  datatype QueryError = UnexpectedNumberOfItems(found: nat, wanted: Option<string>)

  /** The query command fails when the expectation is not met, reporting
      the count found and the expectation. */
  function CheckResultCount(wanted: Option<string>, count: nat): (r: Result<nat, QueryError>)
    ensures r.Failure? <==> !ValidateExpectedResult(wanted, count)
    ensures r.Failure? ==> r.error == UnexpectedNumberOfItems(count, wanted)
    ensures r.Success? ==> r.value == count
  {
    if !ValidateExpectedResult(wanted, count) then Failure(UnexpectedNumberOfItems(count, wanted))
    else Success(count)
  }
}
