/** Swift's `Int(String)` initializer and the decimal text that string
    interpolation `"\(n)"` produces for an `Int`, for the 64-bit `Int`
    of the platforms the app runs on. */
module SwiftInt {

  /** Swift's optional `T?`. */
  datatype Option<T> = None | Some(value: T)

  const INT_MIN: int := -0x8000_0000_0000_0000
  const INT_MAX: int := 0x7FFF_FFFF_FFFF_FFFF

  /** `n` is representable as a 64-bit `Int`. */
  predicate InRange(n: int) {
    INT_MIN <= n <= INT_MAX
  }

  predicate IsDigit(c: char) {
    '0' <= c <= '9'
  }

  predicate AllDigits(s: string) {
    forall i :: 0 <= i < |s| ==> IsDigit(s[i])
  }

  function DigitValue(c: char): nat
    requires IsDigit(c)
  {
    c as int - '0' as int
  }

  function DigitChar(d: nat): (c: char)
    requires d < 10
    ensures IsDigit(c) && DigitValue(c) == d
  {
    ('0' as int + d) as char
  }

  /** Reference value of a digit string: ten times the value of all but the
      last digit, plus the last digit. */
  ghost function DigitsValue(s: string): nat
    requires AllDigits(s)
  {
    if s == [] then 0 else 10 * DigitsValue(s[..|s| - 1]) + DigitValue(s[|s| - 1])
  }

  /** The text `Int(String)` accepts: an optional `+` or `-`, then one or
      more ASCII digits, and nothing else (no blanks, no other digits). */
  ghost predicate IsLiteral(s: string) {
    if |s| > 0 && (s[0] == '+' || s[0] == '-') then |s| > 1 && AllDigits(s[1..])
    else |s| > 0 && AllDigits(s)
  }

  /** The mathematical value an accepted literal denotes. */
  ghost function LiteralValue(s: string): int
    requires IsLiteral(s)
  {
    if s[0] == '-' then 0 - DigitsValue(s[1..])
    else if s[0] == '+' then DigitsValue(s[1..])
    else DigitsValue(s)
  }

  /** The digit scan behind `Int(String)`: accumulates the digits left to
      right and gives up on a non-digit or as soon as the value passes
      `limit` (the magnitude the sign allows). */
  function ScanDigits(s: string, limit: nat, acc: nat): (r: Option<nat>)
    ensures r.Some? ==> AllDigits(s) && acc <= r.value
    ensures r.Some? && s != [] ==> r.value <= limit
    decreases |s|
  {
    if s == [] then Some(acc)
    else if !IsDigit(s[0]) then None
    else
      var next := acc * 10 + DigitValue(s[0]);
      if next > limit then None
      else
        var r := ScanDigits(s[1..], limit, next);
        assert r.Some? ==> AllDigits(s) by {
          if r.Some? {
            forall i | 0 <= i < |s| ensures IsDigit(s[i]) {
              if i > 0 { assert s[i] == s[1..][i - 1]; }
            }
          }
        }
        r
  }

  lemma AllDigitsPrefix(s: string, i: nat)
    requires i <= |s| && AllDigits(s)
    ensures AllDigits(s[..i])
  {
    forall k | 0 <= k < i ensures IsDigit(s[..i][k]) {
      assert s[..i][k] == s[k];
    }
  }

  /** A longer digit prefix never has a smaller value. */
  lemma {:induction false} DigitsValuePrefixMonotone(s: string, i: nat)
    requires i <= |s| && AllDigits(s)
    ensures AllDigits(s[..i]) && DigitsValue(s[..i]) <= DigitsValue(s)
    decreases |s| - i
  {
    AllDigitsPrefix(s, i);
    if i < |s| {
      var t := s[..|s| - 1];
      AllDigitsPrefix(s, |s| - 1);
      assert t[..i] == s[..i];
      DigitsValuePrefixMonotone(t, i);
    } else {
      assert s[..i] == s;
    }
  }

  /** Scanning the rest of `s` from the value of its first `i` digits gives
      the value of all of `s`, provided every character is a digit and the
      value stays within `limit`. */
  lemma {:induction false} ScanDigitsValue(s: string, limit: nat, i: nat)
    requires i <= |s| && AllDigits(s[..i]) && DigitsValue(s[..i]) <= limit
    ensures ScanDigits(s[i..], limit, DigitsValue(s[..i])) ==
              if AllDigits(s) && DigitsValue(s) <= limit then Some(DigitsValue(s)) else None
    decreases |s| - i
  {
    if i == |s| {
      assert s[..i] == s && s[i..] == [];
    } else {
      var rest := s[i..];
      assert rest[0] == s[i] && rest[1..] == s[i + 1..];
      if IsDigit(s[i]) {
        var u := s[..i + 1];
        assert u[..i] == s[..i] && u[i] == s[i];
        assert AllDigits(u) by {
          forall k | 0 <= k < i + 1 ensures IsDigit(u[k]) {
            if k < i { assert u[k] == s[..i][k]; }
          }
        }
        var next := DigitsValue(s[..i]) * 10 + DigitValue(s[i]);
        assert next == DigitsValue(u);
        if AllDigits(s) {
          DigitsValuePrefixMonotone(s, i + 1);
        }
        if next <= limit {
          ScanDigitsValue(s, limit, i + 1);
        }
      }
    }
  }

  /** Swift's `Int(String)`. */
  function Parse(s: string): (r: Option<int>)
    ensures r == if IsLiteral(s) && InRange(LiteralValue(s)) then Some(LiteralValue(s)) else None
  {
    if s == [] then None
    else if s[0] == '-' || s[0] == '+' then
      if |s| == 1 then None
      else
        var negative := s[0] == '-';
        var limit: nat := if negative then -INT_MIN else INT_MAX;
        SignedScan(s, negative, limit);
        match ScanDigits(s[1..], limit, 0)
        case None => None
        case Some(v) => Some(if negative then -(v as int) else v as int)
    else
      UnsignedScan(s);
      ScanDigits(s, INT_MAX, 0)
  }

  lemma UnsignedScan(s: string)
    ensures ScanDigits(s, INT_MAX, 0) ==
              if AllDigits(s) && DigitsValue(s) <= INT_MAX then Some(DigitsValue(s)) else None
  {
    assert s[..0] == [] && s[0..] == s;
    ScanDigitsValue(s, INT_MAX, 0);
  }

  lemma SignedScan(s: string, negative: bool, limit: nat)
    requires |s| > 1 && (s[0] == '-' || s[0] == '+')
    requires negative == (s[0] == '-') && limit == if negative then -INT_MIN else INT_MAX
    ensures IsLiteral(s) <==> AllDigits(s[1..])
    ensures match ScanDigits(s[1..], limit, 0)
            case None => !(IsLiteral(s) && InRange(LiteralValue(s)))
            case Some(v) => IsLiteral(s) && InRange(LiteralValue(s)) &&
                            LiteralValue(s) == (if negative then -(v as int) else v as int)
  {
    var t := s[1..];
    assert t[..0] == [] && t[0..] == t;
    ScanDigitsValue(t, limit, 0);
  }

  /** Decimal digits of a natural number, without leading zeros. */
  function ShowNat(n: nat): (s: string)
    ensures |s| > 0 && AllDigits(s)
    ensures s[0] == '0' ==> n == 0 && |s| == 1
  {
    if n < 10 then [DigitChar(n)] else ShowNat(n / 10) + [DigitChar(n % 10)]
  }

  /** `"\(n)"` for an `Int`: a minus sign for negative values, then the
      digits of the magnitude. */
  function Show(n: int): (s: string)
    ensures |s| > 0 && (s[0] == '-' <==> n < 0)
  {
    if n < 0 then "-" + ShowNat(-n) else ShowNat(n)
  }

  /** A canonical literal: what `Show` can print. No `+`, no leading zero,
      no `-0`. */
  ghost predicate IsCanonical(s: string) {
    if |s| > 0 && s[0] == '-' then |s| > 1 && AllDigits(s[1..]) && s[1] != '0'
    else |s| > 0 && AllDigits(s) && (s[0] == '0' ==> |s| == 1)
  }

  lemma {:induction false} ShowNatValue(n: nat)
    ensures DigitsValue(ShowNat(n)) == n
  {
    if n >= 10 {
      var s := ShowNat(n);
      assert s[..|s| - 1] == ShowNat(n / 10);
      ShowNatValue(n / 10);
    }
  }

  /** Printing an `Int` and reading it back gives the same `Int`. */
  lemma ParseShow(n: int)
    requires InRange(n)
    ensures Parse(Show(n)) == Some(n)
  {
    var s := Show(n);
    if n < 0 {
      assert s[1..] == ShowNat(-n);
      ShowNatValue(-n);
    } else {
      ShowNatValue(n);
    }
  }

  lemma LeadingDigitPositive(t: string)
    requires |t| > 0 && AllDigits(t) && t[0] != '0'
    ensures DigitsValue(t) >= 1
  {
    DigitsValuePrefixMonotone(t, 1);
    assert t[..1][..0] == [];
  }

  lemma {:induction false} ShowNatDigits(t: string)
    requires |t| > 0 && AllDigits(t) && (t[0] == '0' ==> |t| == 1)
    ensures ShowNat(DigitsValue(t)) == t
    decreases |t|
  {
    if |t| == 1 {
      assert t[..0] == [];
      assert t == [t[0]];
    } else {
      var u, c := t[..|t| - 1], t[|t| - 1];
      AllDigitsPrefix(t, |t| - 1);
      assert u[0] == t[0];
      LeadingDigitPositive(u);
      var v := DigitsValue(t);
      assert v / 10 == DigitsValue(u) && v % 10 == DigitValue(c);
      ShowNatDigits(u);
      assert DigitChar(DigitValue(c)) == c;
      assert t == u + [c];
    }
  }

  /** Reading a canonical literal and printing the value gives the same text. */
  lemma ShowParse(s: string)
    requires IsCanonical(s) && InRange(LiteralValue(s))
    ensures Parse(s) == Some(LiteralValue(s)) && Show(LiteralValue(s)) == s
  {
    if s[0] == '-' {
      var t := s[1..];
      LeadingDigitPositive(t);
      ShowNatDigits(t);
      assert s == "-" + t;
    } else {
      ShowNatDigits(s);
    }
  }
}
