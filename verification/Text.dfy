/**
 Strings as the source handles them: decimal digits, zero padding, trimming, and the order of
 JavaScript's `<` on strings.
 */
module Text {

  datatype Option<+T> = None | Some(value: T)

  // ---------------------------------------------------------------------------------------
  // Decimal digits

  predicate IsDigit(c: char) { '0' <= c <= '9' }

  predicate AllDigits(s: string) { forall i :: 0 <= i < |s| ==> IsDigit(s[i]) }

  function DigitChar(d: nat): (c: char)
    requires d < 10
    ensures IsDigit(c) && DigitValue(c) == d
  {
    '0' + d as char
  }

  function DigitValue(c: char): (d: nat)
    requires IsDigit(c)
    ensures d < 10
  {
    (c - '0') as int
  }

  function Pow10(k: nat): (p: nat)
    ensures p >= 1
  {
    if k == 0 then 1 else 10 * Pow10(k - 1)
  }

  /** The number a string of digits names; the empty string names zero. */
  function Value(s: string): nat
    requires AllDigits(s)
  {
    if s == "" then 0 else 10 * Value(s[..|s| - 1]) + DigitValue(s[|s| - 1])
  }

  /** `String(n)` for a natural number below 10^21. */
  function Digits(n: nat): (s: string)
    ensures AllDigits(s) && |s| >= 1
  {
    if n < 10 then [DigitChar(n)] else Digits(n / 10) + [DigitChar(n % 10)]
  }

  /** The last `k` decimal digits of `n`, zero padded. */
  function Fixed(n: nat, k: nat): (s: string)
    ensures AllDigits(s) && |s| == k
  {
    if k == 0 then "" else Fixed(n / 10, k - 1) + [DigitChar(n % 10)]
  }

  function Zeros(k: nat): (s: string)
    ensures AllDigits(s) && |s| == k
  {
    seq(k, i => '0')
  }

  /** `s.padStart(k, '0')` */
  function PadStart(s: string, k: nat): (r: string)
    ensures AllDigits(s) ==> AllDigits(r)
  {
    if |s| >= k then s else Zeros(k - |s|) + s
  }

  /** `s.padEnd(k, '0')` */
  function PadEnd(s: string, k: nat): (r: string)
    ensures AllDigits(s) ==> AllDigits(r)
  {
    if |s| >= k then s else s + Zeros(k - |s|)
  }

  lemma {:induction false} ValueOfConcat(a: string, b: string)
    requires AllDigits(a) && AllDigits(b)
    ensures AllDigits(a + b)
    ensures Value(a + b) == Value(a) * Pow10(|b|) + Value(b)
    decreases |b|
  {
    if b == "" {
      assert a + b == a;
    } else {
      var c := b[..|b| - 1];
      assert (a + b)[..|a + b| - 1] == a + c;
      ValueOfConcat(a, c);
      TenTimes(Value(a), Pow10(|c|));
    }
  }

  lemma TenTimes(v: nat, p: nat)
    ensures v * (10 * p) == 10 * (v * p)
  {
  }

  lemma {:induction false} ValueOfZeros(k: nat)
    ensures Value(Zeros(k)) == 0
  {
    if k > 0 {
      assert Zeros(k)[..k - 1] == Zeros(k - 1);
      ValueOfZeros(k - 1);
    }
  }

  lemma {:induction false} ValueBound(s: string)
    requires AllDigits(s)
    ensures Value(s) < Pow10(|s|)
    decreases |s|
  {
    if s != "" {
      ValueBound(s[..|s| - 1]);
    }
  }

  lemma {:induction false} ValueOfDigits(n: nat)
    ensures Value(Digits(n)) == n
  {
    if n < 10 {
      assert Digits(n)[..0] == "";
    } else {
      ValueOfDigits(n / 10);
      assert Digits(n)[..|Digits(n)| - 1] == Digits(n / 10);
    }
  }

  lemma {:induction false} ValueOfFixed(n: nat, k: nat)
    requires n < Pow10(k)
    ensures Value(Fixed(n, k)) == n
    decreases k
  {
    if k > 0 {
      ValueOfFixed(n / 10, k - 1);
      assert Fixed(n, k)[..k - 1] == Fixed(n / 10, k - 1);
    }
  }

  lemma {:induction false} FixedOfValue(s: string)
    requires AllDigits(s)
    ensures Fixed(Value(s), |s|) == s
    decreases |s|
  {
    if s != "" {
      FixedOfValue(s[..|s| - 1]);
      assert s == s[..|s| - 1] + [s[|s| - 1]];
    }
  }

  lemma {:induction false} DigitsLength(n: nat, k: nat)
    requires k >= 1 && n < Pow10(k)
    ensures |Digits(n)| <= k
    decreases k
  {
    if n >= 10 {
      assert k >= 2 by { assert Pow10(1) == 10; }
      DigitsLength(n / 10, k - 1);
    }
  }

  lemma ValueOfPadStart(s: string, k: nat)
    requires AllDigits(s)
    ensures Value(PadStart(s, k)) == Value(s)
    ensures |PadStart(s, k)| == if |s| >= k then |s| else k
  {
    if |s| < k {
      ValueOfZeros(k - |s|);
      ValueOfConcat(Zeros(k - |s|), s);
      assert 0 * Pow10(|s|) == 0;
    }
  }

  lemma PaddedDigitsAreFixed(n: nat, k: nat)
    requires k >= 1 && n < Pow10(k)
    ensures PadStart(Digits(n), k) == Fixed(n, k)
  {
    DigitsLength(n, k);
    ValueOfPadStart(Digits(n), k);
    ValueOfDigits(n);
    FixedOfValue(PadStart(Digits(n), k));
  }

  // ---------------------------------------------------------------------------------------
  // The order of `<` on strings

  predicate Less(a: string, b: string) {
    b != "" && (a == "" || a[0] < b[0] || (a[0] == b[0] && Less(a[1..], b[1..])))
  }

  lemma {:induction false} LessOfConcat(a: string, b: string, c: string, d: string)
    requires |a| == |c|
    ensures Less(a + b, c + d) <==> Less(a, c) || (a == c && Less(b, d))
    decreases |a|
  {
    if a == "" {
      assert a + b == b && c + d == d;
    } else {
      LessOfConcat(a[1..], b, c[1..], d);
      assert (a + b)[1..] == a[1..] + b && (c + d)[1..] == c[1..] + d;
      assert a == [a[0]] + a[1..] && c == [c[0]] + c[1..];
    }
  }

  lemma {:induction false} FixedOrder(m: nat, n: nat, k: nat)
    requires m < Pow10(k) && n < Pow10(k)
    ensures Less(Fixed(m, k), Fixed(n, k)) <==> m < n
    ensures Fixed(m, k) == Fixed(n, k) <==> m == n
    decreases k
  {
    hide Value;
    ValueOfFixed(m, k);
    ValueOfFixed(n, k);
    if k > 0 {
      FixedOrder(m / 10, n / 10, k - 1);
      var x, y := [DigitChar(m % 10)], [DigitChar(n % 10)];
      LessOfConcat(Fixed(m / 10, k - 1), x, Fixed(n / 10, k - 1), y);
      assert x[1..] == "" && y[1..] == "";
    }
  }

  lemma {:induction false} LessIrreflexive(a: string)
    ensures !Less(a, a)
    decreases |a|
  {
    if a != "" { LessIrreflexive(a[1..]); }
  }

  // ---------------------------------------------------------------------------------------
  // Searching and trimming

  /** The position of the first `c` at or after `from`, or the length when there is none. */
  function IndexOf(s: string, c: char, from: nat): (i: nat)
    requires from <= |s|
    ensures from <= i <= |s|
    ensures i < |s| ==> s[i] == c
    ensures forall j :: from <= j < i ==> s[j] != c
    decreases |s| - from
  {
    if from == |s| || s[from] == c then from else IndexOf(s, c, from + 1)
  }

  /** White space and line ends, as `String.prototype.trim` removes them. */
  predicate IsSpace(c: char) {
    c in ['\t', '\n', '\U{000B}', '\U{000C}', '\r', ' ', '\U{00A0}', '\U{1680}', '\U{2028}', '\U{2029}',
          '\U{202F}', '\U{205F}', '\U{3000}', '\U{FEFF}']
    || '\U{2000}' <= c <= '\U{200A}'
  }

  function TrimStart(s: string): string {
    if s != "" && IsSpace(s[0]) then TrimStart(s[1..]) else s
  }

  function TrimEnd(s: string): string {
    if s != "" && IsSpace(s[|s| - 1]) then TrimEnd(s[..|s| - 1]) else s
  }

  function Trim(s: string): string { TrimEnd(TrimStart(s)) }

  /** Text that neither starts nor ends with a space is left alone by `trim`. */
  lemma TrimKeeps(s: string)
    requires s != "" ==> !IsSpace(s[0]) && !IsSpace(s[|s| - 1])
    ensures Trim(s) == s
  {
  }

  function LowerChar(c: char): char { if 'A' <= c <= 'Z' then c - 'A' + 'a' else c }

  function UpperChar(c: char): char { if 'a' <= c <= 'z' then c - 'a' + 'A' else c }

  /** `toLowerCase` and `toUpperCase` on ASCII letters. */
  function Lower(s: string): (r: string)
    ensures |r| == |s| && forall i :: 0 <= i < |s| ==> r[i] == LowerChar(s[i])
  {
    if s == "" then "" else Lower(s[..|s| - 1]) + [LowerChar(s[|s| - 1])]
  }

  function Upper(s: string): (r: string)
    ensures |r| == |s| && forall i :: 0 <= i < |s| ==> r[i] == UpperChar(s[i])
  {
    if s == "" then "" else Upper(s[..|s| - 1]) + [UpperChar(s[|s| - 1])]
  }

  /** `s.replace(/,/g, '')` */
  function RemoveCommas(s: string): string {
    if s == "" then "" else (if s[0] == ',' then "" else [s[0]]) + RemoveCommas(s[1..])
  }

  lemma {:induction false} NoCommasToRemove(s: string)
    requires ',' !in s
    ensures RemoveCommas(s) == s
    decreases |s|
  {
    if s != "" {
      NoCommasToRemove(s[1..]);
      assert s == [s[0]] + s[1..];
    }
  }

  lemma {:induction false} RemoveCommasOfConcat(a: string, b: string)
    ensures RemoveCommas(a + b) == RemoveCommas(a) + RemoveCommas(b)
    decreases |a|
  {
    if a == "" {
      assert a + b == b;
    } else {
      assert (a + b)[1..] == a[1..] + b;
      RemoveCommasOfConcat(a[1..], b);
    }
  }

  /** A comma anywhere makes no difference. */
  lemma CommaVanishes(a: string, b: string)
    ensures RemoveCommas(a + "," + b) == RemoveCommas(a + b)
  {
    assert RemoveCommas(",") == "";
    RemoveCommasOfConcat(a + ",", b);
    RemoveCommasOfConcat(a, ",");
    RemoveCommasOfConcat(a, b);
  }

  predicate AllSpaces(s: string) { forall i :: 0 <= i < |s| ==> IsSpace(s[i]) }

  /** No space at either end. */
  predicate IsTidy(s: string) { s != "" ==> !IsSpace(s[0]) && !IsSpace(s[|s| - 1]) }

  lemma {:induction false} TrimStartStrips(u: string, t: string)
    requires AllSpaces(u) && (t == "" || !IsSpace(t[0]))
    ensures TrimStart(u + t) == t
    decreases |u|
  {
    if u == "" {
      assert u + t == t;
    } else {
      assert (u + t)[1..] == u[1..] + t;
      TrimStartStrips(u[1..], t);
    }
  }

  lemma {:induction false} TrimEndStrips(t: string, v: string)
    requires AllSpaces(v) && (t == "" || !IsSpace(t[|t| - 1]))
    ensures TrimEnd(t + v) == t
    decreases |v|
  {
    if v == "" {
      assert t + v == t;
    } else {
      assert (t + v)[..|t + v| - 1] == t + v[..|v| - 1];
      TrimEndStrips(t, v[..|v| - 1]);
    }
  }

  /** Trimming takes the spaces from both ends and nothing else. */
  lemma TrimStrips(u: string, t: string, v: string)
    requires AllSpaces(u) && AllSpaces(v) && IsTidy(t)
    ensures Trim(u + t + v) == t
  {
    if t == "" {
      assert u + t + v == u + v + "" && AllSpaces(u + v);
      TrimStartStrips(u + v, "");
    } else {
      assert u + t + v == u + (t + v);
      TrimStartStrips(u, t + v);
      TrimEndStrips(t, v);
    }
  }

  lemma CaseOfChar(c: char)
    ensures !('A' <= LowerChar(c) <= 'Z') && !('a' <= UpperChar(c) <= 'z')
    ensures LowerChar(UpperChar(c)) == LowerChar(c) && UpperChar(LowerChar(c)) == UpperChar(c)
    ensures !('A' <= c <= 'Z') && !('a' <= c <= 'z') ==> LowerChar(c) == c && UpperChar(c) == c
  {
  }

  /** Case conversion changes case and nothing else, and leaves none of the other case. */
  lemma CaseOnly(s: string, i: nat)
    requires i < |s|
    ensures !('A' <= Lower(s)[i] <= 'Z') && !('a' <= Upper(s)[i] <= 'z')
    ensures Lower(Upper(s))[i] == Lower(s)[i] && Upper(Lower(s))[i] == Upper(s)[i]
    ensures !('A' <= s[i] <= 'Z') && !('a' <= s[i] <= 'z') ==> Lower(s)[i] == s[i] && Upper(s)[i] == s[i]
  {
    hide Lower, Upper, LowerChar, UpperChar;
    CaseOfChar(s[i]);
  }
}
