/** Inline-style coordinates. The service reads `style.top` / `style.left` with
    the pattern `(-?[0-9]+)px` (first match anywhere in the string, 0 when there
    is none) and writes them back as an integer followed by `px`. */
module Position {
  import opened Wrappers

  datatype Coordinates = Coordinates(top: int, left: int)

  predicate IsDigit(c: char) {
    '0' <= c <= '9'
  }

  function DigitValue(c: char): nat
    requires IsDigit(c)
  {
    c as int - '0' as int
  }

  function DigitChar(d: nat): (c: char)
    requires d < 10
    ensures IsDigit(c) && DigitValue(c) == d
  {
    ('0' as int + d) as char
  }

  predicate AllDigits(s: string) {
    forall i :: 0 <= i < |s| ==> IsDigit(s[i])
  }

  /** The value of a string of decimal digits, most significant first. */
  function DecimalValue(s: string): nat
    requires AllDigits(s)
  {
    if s == [] then 0 else DecimalValue(s[..|s| - 1]) * 10 + DigitValue(s[|s| - 1])
  }

  /** The decimal digits of `n` without leading zeros, as JavaScript prints an integer. */
  function NatDigits(n: nat): (s: string)
    ensures 0 < |s| && AllDigits(s)
    ensures DecimalValue(s) == n
  {
    if n < 10 then [DigitChar(n)]
    else
      var s := NatDigits(n / 10) + [DigitChar(n % 10)];
      assert s[..|s| - 1] == NatDigits(n / 10);
      s
  }

  /** JavaScript's string conversion of an integer: a minus sign, then the digits. */
  function IntString(k: int): string {
    if k < 0 then "-" + NatDigits(-k) else NatDigits(k)
  }

  /** The value `animate` writes into `style.top` or `style.left`: `k + 'px'`. */
  function Px(k: int): string {
    IntString(k) + "px"
  }

  /** The number of consecutive digits of `s` from position `p` on. */
  function DigitRun(s: string, p: nat): (n: nat)
    requires p <= |s|
    ensures p + n <= |s|
    ensures forall i :: p <= i < p + n ==> IsDigit(s[i])
    ensures p + n == |s| || !IsDigit(s[p + n])
    decreases |s| - p
  {
    if p < |s| && IsDigit(s[p]) then 1 + DigitRun(s, p + 1) else 0
  }

  /** The unit `px` starts at position `q`. */
  predicate UnitAt(s: string, q: nat) {
    q + 2 <= |s| && s[q] == 'p' && s[q + 1] == 'x'
  }

  /** The captured integer when the pattern `(-?[0-9]+)px` matches starting at
      `p`. The digit run is maximal because a shorter run would be followed by
      a digit, not by `p`; a leading minus sign that cannot start a match
      cannot be skipped either, since the digits must then start at the sign. */
  function MatchAt(s: string, p: nat): Option<int>
    requires p <= |s|
  {
    if p < |s| && s[p] == '-' then
      var n := DigitRun(s, p + 1);
      if 0 < n && UnitAt(s, p + 1 + n) then Some(-(DecimalValue(s[p + 1..p + 1 + n]) as int)) else None
    else
      var n := DigitRun(s, p);
      if 0 < n && UnitAt(s, p + n) then Some(DecimalValue(s[p..p + n])) else None
  }

  /** The leftmost match at or after position `p`. */
  function Search(s: string, p: nat): Option<int>
    requires p <= |s|
    decreases |s| - p
  {
    if MatchAt(s, p).Some? then MatchAt(s, p)
    else if p == |s| then None
    else Search(s, p + 1)
  }

  /** `Search` finds the leftmost match, and nothing exactly when there is no match. */
  lemma {:induction false} SearchMeaning(s: string, p: nat)
    requires p <= |s|
    ensures Search(s, p).None? <==> forall q :: p <= q <= |s| ==> MatchAt(s, q).None?
    ensures Search(s, p).Some? ==>
              exists q :: p <= q <= |s| && MatchAt(s, q) == Search(s, p) && NoMatchBetween(s, p, q)
    decreases |s| - p
  {
    if MatchAt(s, p).Some? {
      assert NoMatchBetween(s, p, p);
    } else if p < |s| {
      SearchMeaning(s, p + 1);
      if Search(s, p).Some? {
        var q :| p + 1 <= q <= |s| && MatchAt(s, q) == Search(s, p) && NoMatchBetween(s, p + 1, q);
        assert NoMatchBetween(s, p, q);
      }
    }
  }

  predicate NoMatchBetween(s: string, p: nat, q: nat)
    requires p <= q <= |s|
  {
    forall k :: p <= k < q ==> MatchAt(s, k).None?
  }

  /** `style.top.match(positionReg)`, with 0 when nothing matches. */
  function ParsePx(s: string): int {
    match Search(s, 0)
    case Some(v) => v
    case None => 0
  }

  /** `getPosition`: both coordinates of an element's inline style. */
  function GetPosition(styleTop: string, styleLeft: string): Coordinates {
    Coordinates(ParsePx(styleTop), ParsePx(styleLeft))
  }

  lemma {:induction false} DigitRunOfDigits(s: string, p: nat, n: nat)
    requires p + n <= |s|
    requires forall i :: p <= i < p + n ==> IsDigit(s[i])
    requires p + n == |s| || !IsDigit(s[p + n])
    ensures DigitRun(s, p) == n
    decreases n
  {
    if n > 0 {
      DigitRunOfDigits(s, p + 1, n - 1);
    }
  }

  /** Every integer written as `k + 'px'` reads back as `k`. */
  lemma PxRoundTrip(k: int)
    ensures ParsePx(Px(k)) == k
  {
    var s := Px(k);
    var d := if k < 0 then NatDigits(-k) else NatDigits(k);
    var p := if k < 0 then 1 else 0;
    assert s == (if k < 0 then "-" else "") + d + "px";
    assert s[p..p + |d|] == d;
    DigitRunOfDigits(s, p, |d|);
    assert UnitAt(s, p + |d|);
    assert MatchAt(s, 0) == Some(k);
  }

  /** A string without the unit `px` (such as the reset value `'0'`) reads as 0. */
  lemma NoUnitReadsZero(s: string)
    requires forall q :: 0 <= q <= |s| ==> !UnitAt(s, q)
    ensures ParsePx(s) == 0
  {
    forall q | 0 <= q <= |s| ensures MatchAt(s, q).None? {
    }
    SearchMeaning(s, 0);
  }

  lemma ResetValueReadsZero()
    ensures ParsePx("0") == 0
  {
    NoUnitReadsZero("0");
  }
}
