/** Shared value types and the small pieces of JavaScript semantics both tools rely on:
    calendar dates as integer triples, `String(n)` for integers, `padStart(2, "0")`,
    `slice(-2)`, `Math.round` and the truncating `%` operator. */
module Common {

  datatype Option<+T> = None | Some(value: T) {
    function GetOr(default: T): T {
      match this
      case Some(v) => v
      case None => default
    }
  }

  /** A set is empty or has a member; stated positively so that callers holding `s != {}`
      get a witness for a such-that choice. */
  lemma EmptyOrMember(s: set<int>)
    ensures s == {} || exists y :: y in s
  {
    if forall y :: y !in s {
      assert s == {};
    }
  }

  /** The same for the keys of a rate table. */
  lemma EmptyOrKey(m: map<int, real>)
    ensures m == map[] || exists k :: k in m
  {
    if forall k :: k !in m {
      assert m.Keys == {};
      assert m == map[];
    }
  }

  /** A calendar date as the getters `getFullYear`, `getMonth() + 1` and `getDate` see it. */
  datatype Date = Date(year: int, month: int, day: int)

  predicate ValidDate(d: Date) {
    1 <= d.month <= 12 && 1 <= d.day <= 31
  }

  /** Chronological order on dates. */
  predicate DateLe(a: Date, b: Date) {
    a.year < b.year || (a.year == b.year && (a.month < b.month || (a.month == b.month && a.day <= b.day)))
  }

  function Max(a: int, b: int): int { if a < b then b else a }

  function RealMax(a: real, b: real): real { if a < b then b else a }

  function RealMin(a: real, b: real): real { if a < b then a else b }

  /** `Math.round` for the values the tools pass it: halves round up. */
  function Round(x: real): (r: int)
    ensures r as real - 0.5 <= x < r as real + 0.5
  {
    (x + 0.5).Floor
  }

  /** The `%` operator of JavaScript: `a == b * q + r` for the quotient q rounded toward
      zero, so the remainder takes the sign of the dividend. */
  function JsRem(a: int, b: int): (r: int)
    requires b > 0
    ensures a >= 0 ==> r == a % b
    ensures a < 0 ==> -b < r <= 0
    ensures exists q :: a == b * q + r
  {
    var q := if a >= 0 then a / b else -((-a) / b);
    var rem := if a >= 0 then a % b else -((-a) % b);
    assert a == b * q + rem;
    rem
  }

  function Digit(n: int): char
    requires 0 <= n < 10
  {
    ('0' as int + n) as char
  }

  predicate IsDigit(c: char) { '0' <= c <= '9' }

  /** `String(n)` for a non-negative integer: its decimal digits, most significant first. */
  function NatString(n: nat): (s: string)
    ensures |s| >= 1 && forall i :: 0 <= i < |s| ==> IsDigit(s[i])
    ensures s[|s| - 1] == Digit(n % 10)
    ensures (|s| == 1) == (n < 10)
  {
    if n < 10 then [Digit(n)] else NatString(n / 10) + [Digit(n % 10)]
  }

  /** `String(n)` for any integer. */
  function IntString(n: int): string {
    if n < 0 then "-" + NatString(-n) else NatString(n)
  }

  /** `s.padStart(2, "0")`. */
  function PadStart2(s: string): (r: string)
    ensures |s| >= 2 ==> r == s
    ensures |s| < 2 ==> |r| == 2 && r[2 - |s|..] == s && forall i :: 0 <= i < 2 - |s| ==> r[i] == '0'
  {
    if |s| >= 2 then s else if |s| == 1 then "0" + s else "00"
  }

  /** `s.slice(-2)`: the last two characters, or the whole string when it is shorter. */
  function SliceLast2(s: string): (r: string)
    ensures |s| <= 2 ==> r == s
    ensures |s| > 2 ==> |r| == 2 && s == s[..|s| - 2] + r
  {
    if |s| <= 2 then s else s[|s| - 2..]
  }

  /** Quotient and remainder by ten are unique. */
  lemma DivModTen(x: int, q: int, r: int)
    requires x == 10 * q + r && 0 <= r < 10
    ensures x / 10 == q && x % 10 == r
  {
  }

  /** The tens and units digits of n are those of n % 100. */
  lemma LastTwoDigitsArithmetic(n: nat)
    ensures (n % 100) % 10 == n % 10
    ensures (n % 100) / 10 == (n / 10) % 10
  {
    var q, r := n / 100, n % 100;
    var a, b := r / 10, r % 10;
    DivModTen(n, 10 * q + a, b);
    DivModTen(10 * q + a, q, a);
  }

  lemma {:induction false} SliceOfSnoc(p: string, c: char)
    requires |p| >= 1
    ensures SliceLast2(p + [c]) == [p[|p| - 1], c]
  {
  }

  /** The last two characters of a rendering of at least two digits are its tens and units
      digits. */
  lemma {:induction false} SliceOfLongRendering(n: nat)
    requires n >= 10
    ensures SliceLast2(NatString(n)) == [Digit((n / 10) % 10), Digit(n % 10)]
  {
    var p := NatString(n / 10);
    assert NatString(n) == p + [Digit(n % 10)];
    SliceOfSnoc(p, Digit(n % 10));
  }

  lemma {:induction false} RenderingSnoc(n: nat)
    requires n >= 10
    ensures NatString(n) == NatString(n / 10) + [Digit(n % 10)]
  {
  }

  lemma {:induction false} RenderingSingle(n: nat)
    requires n < 10
    ensures NatString(n) == [Digit(n)]
  {
  }

  lemma {:induction false} PadPair(a: char, b: char)
    ensures PadStart2([a] + [b]) == [a, b]
  {
  }

  lemma {:induction false} PaddedOneDigit(m: nat)
    requires m < 10
    ensures PadStart2(NatString(m)) == [Digit(0), Digit(m)]
  {
    RenderingSingle(m);
    assert Digit(0) == '0';
  }

  lemma {:induction false} PaddedTwoDigits(m: nat)
    requires 10 <= m < 100
    ensures PadStart2(NatString(m)) == [Digit(m / 10), Digit(m % 10)]
  {
    RenderingSnoc(m);
    RenderingSingle(m / 10);
    PadPair(Digit(m / 10), Digit(m % 10));
  }

  /** `String(m).padStart(2, "0")` for 0 <= m < 100 is m's tens digit then its units digit. */
  lemma {:induction false} PaddedRendering(m: nat)
    requires m < 100
    ensures PadStart2(NatString(m)) == [Digit(m / 10), Digit(m % 10)]
  {
    if m < 10 {
      PaddedOneDigit(m);
    } else {
      PaddedTwoDigits(m);
    }
  }

  /** The two-digit rendering of a year's last two digits equals the last two characters
      of the year's own decimal rendering, for every year from 10 on. */
  lemma {:induction false} LastTwoDigits(n: int)
    requires n >= 10
    ensures SliceLast2(IntString(n)) == PadStart2(NatString(n % 100))
  {
    assert IntString(n) == NatString(n);
    SliceOfLongRendering(n);
    LastTwoDigitsArithmetic(n);
    PaddedRendering(n % 100);
  }
}
