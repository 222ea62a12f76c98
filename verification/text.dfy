/** Character classes and string helpers shared by the parsers and validators.
    Only the ASCII range is classified; see README "Left out". */
module Text {

  predicate IsDigit(c: char)
  {
    '0' <= c <= '9'
  }

  predicate IsHexDigit(c: char)
  {
    IsDigit(c) || 'a' <= c <= 'f' || 'A' <= c <= 'F'
  }

  predicate IsUpper(c: char)
  {
    'A' <= c <= 'Z'
  }

  /** A regular-expression word character (`\w`): letter, digit or underscore. */
  predicate IsWordChar(c: char)
  {
    IsDigit(c) || 'a' <= c <= 'z' || IsUpper(c) || c == '_'
  }

  predicate AllDigits(s: string)
  {
    forall i :: 0 <= i < |s| ==> IsDigit(s[i])
  }

  function LowerChar(c: char): (r: char)
    ensures !IsUpper(r)
    ensures IsUpper(c) ==> r as int == c as int + 32
    ensures !IsUpper(c) ==> r == c
  {
    if IsUpper(c) then (c as int + 32) as char else c
  }

  /** No occurrence of `c` in `s`. */
  predicate Lacks(s: string, c: char)
  {
    forall k :: 0 <= k < |s| ==> s[k] != c
  }

  lemma LacksAppend(a: string, b: string, c: char)
    ensures Lacks(a + b, c) <==> Lacks(a, c) && Lacks(b, c)
  {
    if Lacks(a, c) && Lacks(b, c) {
      forall k | 0 <= k < |a + b| ensures (a + b)[k] != c {
        if k >= |a| {
          assert (a + b)[k] == b[k - |a|];
        }
      }
    }
    if Lacks(a + b, c) {
      forall k | 0 <= k < |a| ensures a[k] != c {
        assert (a + b)[k] == a[k];
      }
      forall k | 0 <= k < |b| ensures b[k] != c {
        assert (a + b)[|a| + k] == b[k];
      }
    }
  }

  /** `str.lower()` / `String.prototype.toLowerCase()` on the ASCII range. */
  function Lower(s: string): (r: string)
    ensures |r| == |s|
    ensures forall i :: 0 <= i < |s| ==> r[i] == LowerChar(s[i])
  {
    seq(|s|, i requires 0 <= i < |s| => LowerChar(s[i]))
  }

  /** Lowering leaves no upper-case letter and is idempotent. */
  lemma LowerIsIdempotent(s: string)
    ensures forall i :: 0 <= i < |Lower(s)| ==> !IsUpper(Lower(s)[i])
    ensures Lower(Lower(s)) == Lower(s)
  {
  }

  predicate StartsWith(s: string, prefix: string)
  {
    |prefix| <= |s| && s[..|prefix|] == prefix
  }

  /** `s.rstrip(c)`: drop every trailing occurrence of `c`. */
  function StripTrailing(s: string, c: char): (r: string)
    ensures |r| <= |s| && s[..|r|] == r
    ensures |r| == 0 || r[|r| - 1] != c
    ensures forall i :: |r| <= i < |s| ==> s[i] == c
  {
    if |s| == 0 || s[|s| - 1] != c then s else StripTrailing(s[..|s| - 1], c)
  }

  /** `k` copies of `c`. */
  function Repeat(c: char, k: nat): (r: string)
    ensures |r| == k
    ensures forall i :: 0 <= i < k ==> r[i] == c
  {
    if k == 0 then [] else Repeat(c, k - 1) + [c]
  }

  /** Stripping is insensitive to how many copies of `c` were already at the end. */
  lemma {:induction false} StripTrailingAbsorbs(s: string, c: char, k: nat)
    ensures StripTrailing(s + Repeat(c, k), c) == StripTrailing(s, c)
    decreases k
  {
    var t := s + Repeat(c, k);
    if k == 0 {
      assert t == s;
    } else {
      assert t[|t| - 1] == c;
      assert t[..|t| - 1] == s + Repeat(c, k - 1);
      StripTrailingAbsorbs(s, c, k - 1);
    }
  }

  function DigitValue(c: char): (r: nat)
    requires IsDigit(c)
    ensures r < 10
  {
    c as int - '0' as int
  }

  /** The value of a run of decimal digits, most significant first. */
  function DigitsValue(s: string): (r: nat)
    requires AllDigits(s)
    ensures |s| > 0 && s[0] != '0' ==> Pow10Nat(|s| - 1) <= r
    ensures r < Pow10Nat(|s|)
  {
    if |s| == 0 then 0
    else
      var p := s[..|s| - 1];
      assert AllDigits(p);
      var v := DigitsValue(p);
      assert |p| > 0 && p[0] != '0' ==> Pow10Nat(|p| - 1) <= v;
      v * 10 + DigitValue(s[|s| - 1])
  }

  function Pow10Nat(k: nat): (r: nat)
    ensures r >= 1
  {
    if k == 0 then 1 else 10 * Pow10Nat(k - 1)
  }

  /** The decimal digits of `v`, without leading zeros, which read back as
      `v`. */
  function Decimal(v: nat): (d: string)
    ensures |d| > 0 && AllDigits(d) && DigitsValue(d) == v
    decreases v
  {
    if v < 10 then [('0' as int + v) as char]
    else
      var d := Decimal(v / 10) + [('0' as int + v % 10) as char];
      assert d[..|d| - 1] == Decimal(v / 10);
      d
  }

  /** A number below `10^w` needs at most `w` digits. */
  lemma {:induction false} DecimalWidth(n: nat, w: nat)
    requires w >= 1 && n < Pow10Nat(w)
    ensures |Decimal(n)| <= w
    decreases n
  {
    if n >= 10 {
      assert w >= 2;
      assert n / 10 < Pow10Nat(w - 1);
      DecimalWidth(n / 10, w - 1);
    }
  }

  /** Leading zeros do not change the value of a run of digits. */
  lemma {:induction false} LeadingZeros(k: nat, d: string)
    requires AllDigits(d)
    ensures AllDigits(Repeat('0', k) + d)
    ensures DigitsValue(Repeat('0', k) + d) == DigitsValue(d)
    decreases |d|, k
  {
    var s := Repeat('0', k) + d;
    if |d| == 0 {
      assert s == Repeat('0', k);
      if k > 0 {
        assert s[..|s| - 1] == Repeat('0', k - 1) + [];
        LeadingZeros(k - 1, []);
      }
    } else {
      assert s[..|s| - 1] == Repeat('0', k) + d[..|d| - 1];
      LeadingZeros(k, d[..|d| - 1]);
    }
  }
}
