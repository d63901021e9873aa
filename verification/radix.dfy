/**
 * Positional notation over the digit alphabet "0-9a-z", as PHP's
 * base_convert produces it (lower case), for any base from 2 to 36.
 * Base 10 gives the decimal strings the client builds from the clock,
 * base 36 the prefix of a message id.
 */
module Radix {

  type Base = b: int | 2 <= b <= 36 witness 10

  function Pow(b: nat, k: nat): (r: nat)
    ensures b > 0 ==> r > 0
  {
    if k == 0 then 1 else b * Pow(b, k - 1)
  }

  /** The character that writes digit value v: '0'..'9' then 'a'..'z'. */
  function DigitChar(v: nat): (c: char)
    requires v < 36
  {
    if v < 10 then (48 + v) as char else (97 + v - 10) as char
  }

  predicate IsDigit(c: char, b: Base) {
    (48 <= c as int < 48 + if b < 10 then b else 10)
    || (b > 10 && 97 <= c as int < 97 + b - 10)
  }

  function DigitValue(c: char, b: Base): (v: nat)
    requires IsDigit(c, b)
    ensures v < b && DigitChar(v) == c
  {
    if c as int < 97 then c as int - 48 else c as int - 97 + 10
  }

  lemma DigitCharIsDigit(v: nat, b: Base)
    requires v < b
    ensures IsDigit(DigitChar(v), b)
    ensures DigitChar(v) == '0' <==> v == 0
  {
  }

  /** Euclidean division by the base, as the numeral recursion uses it. */
  lemma DivMod(n: nat, b: Base)
    ensures n == (n / b) * b + n % b && 0 <= n % b < b
    ensures n >= b ==> 1 <= n / b < n
  {
  }

  lemma Split(n: nat, b: Base)
    ensures n == (n / b) * b + n % b && 0 <= n % b < b
  {
  }

  predicate AllDigits(s: string, b: Base) {
    forall i :: 0 <= i < |s| ==> IsDigit(s[i], b)
  }

  /** The canonical numeral of n in base b: no leading zero, "0" for zero. */
  function Encode(n: nat, b: Base): (s: string)
    ensures |s| >= 1 && AllDigits(s, b)
    ensures |s| > 1 ==> s[0] != '0'
    decreases n
  {
    DivMod(n, b);
    if n < b then
      DigitCharIsDigit(n, b);
      [DigitChar(n)]
    else
      DigitCharIsDigit(n % b, b);
      Encode(n / b, b) + [DigitChar(n % b)]
  }

  /** The value of a numeral; the empty numeral is worth zero. */
  function Decode(s: string, b: Base): (n: nat)
    requires AllDigits(s, b)
  {
    if s == [] then 0 else Decode(s[..|s| - 1], b) * b + DigitValue(s[|s| - 1], b)
  }

  lemma DigitRoundTrip(v: nat, b: Base)
    requires v < b
    ensures IsDigit(DigitChar(v), b) && DigitValue(DigitChar(v), b) == v
  {
    DigitCharIsDigit(v, b);
  }

  /** Decoding the numeral of n gives back n. */
  lemma {:induction false} DecodeEncode(n: nat, b: Base)
    ensures Decode(Encode(n, b), b) == n
    decreases n
  {
    var s := Encode(n, b);
    DivMod(n, b);
    if n < b {
      DigitRoundTrip(n, b);
      assert s[..0] == [];
    } else {
      var q, d := n / b, n % b;
      DecodeEncode(q, b);
      DigitRoundTrip(d, b);
      assert s == Encode(q, b) + [DigitChar(d)];
      assert s[..|s| - 1] == Encode(q, b);
      assert Decode(s, b) == Decode(Encode(q, b), b) * b + d;
    }
  }

  /** A numeral with no leading zero is the encoding of its own value. */
  lemma {:induction false} EncodeDecode(s: string, b: Base)
    requires |s| >= 1 && AllDigits(s, b)
    requires |s| > 1 ==> s[0] != '0'
    ensures Encode(Decode(s, b), b) == s
  {
    var p := s[..|s| - 1];
    var c := s[|s| - 1];
    var d := DigitValue(c, b);
    var n := Decode(s, b);
    assert n == Decode(p, b) * b + d;
    if |s| == 1 {
      assert p == [];
      assert n == d;
    } else {
      assert p[0] == s[0];
      EncodeDecode(p, b);
      LeadingDigitNonZero(p, b);
      MulMono(1, Decode(p, b), b);
      QuotRem(n, b, Decode(p, b), d);
      EncodeStep(n, b);
      assert s == p + [c];
    }
  }

  /** The quotient and remainder by the base are unique. */
  lemma QuotRem(n: nat, b: Base, q: nat, d: nat)
    requires n == q * b + d && d < b
    ensures n / b == q && n % b == d
  {
    DivMod(n, b);
    QuotOrder2(n / b, n % b, q, d, b);
  }

  /** Two quotient-remainder splittings of one number coincide. */
  lemma QuotOrder2(q1: nat, r1: nat, q2: nat, r2: nat, b: Base)
    requires q1 * b + r1 == q2 * b + r2 && r1 < b && r2 < b
    ensures q1 == q2 && r1 == r2
  {
    if q1 < q2 {
      MulMono(q1 + 1, q2, b);
      assert false;
    } else if q2 < q1 {
      MulMono(q2 + 1, q1, b);
      assert false;
    }
  }

  /** A numeral that does not start with '0' has a positive value. */
  lemma {:induction false} LeadingDigitNonZero(s: string, b: Base)
    requires |s| >= 1 && AllDigits(s, b) && s[0] != '0'
    ensures Decode(s, b) >= 1
  {
    var p := s[..|s| - 1];
    if |s| > 1 {
      assert p[0] == s[0];
      LeadingDigitNonZero(p, b);
      assert Decode(s, b) == Decode(p, b) * b + DigitValue(s[|s| - 1], b);
      MulMono(1, Decode(p, b), b);
    } else {
      assert p == [];
      assert DigitChar(0) == '0';
    }
  }

  /** Splitting a numeral: each digit of the left part is worth b^|y| times more. */
  lemma {:induction false} DecodeAppend(x: string, y: string, b: Base)
    requires AllDigits(x, b) && AllDigits(y, b)
    ensures AllDigits(x + y, b)
    ensures Decode(x + y, b) == Decode(x, b) * Pow(b, |y|) + Decode(y, b)
    decreases |y|
  {
    var s := x + y;
    assert AllDigits(s, b) by {
      forall i | 0 <= i < |s| ensures IsDigit(s[i], b) {
        if i < |x| { assert s[i] == x[i]; } else { assert s[i] == y[i - |x|]; }
      }
    }
    if y == [] {
      assert s == x;
    } else {
      var y' := y[..|y| - 1];
      var d := DigitValue(y[|y| - 1], b);
      assert s[..|s| - 1] == x + y';
      assert s[|s| - 1] == y[|y| - 1];
      DecodeAppend(x, y', b);
      var X, P, Y := Decode(x, b), Pow(b, |y'|), Decode(y', b);
      assert Decode(s, b) == (X * P + Y) * b + d;
      assert Decode(y, b) == Y * b + d;
      assert Pow(b, |y|) == b * P;
      ShiftDigit(X, P, Y, b);
    }
  }

  lemma ShiftDigit(x: nat, p: nat, y: nat, b: nat)
    ensures (x * p + y) * b == x * (b * p) + y * b
  {
  }

  /** A numeral of k digits is worth less than b^k. */
  lemma {:induction false} DecodeBound(s: string, b: Base)
    requires AllDigits(s, b)
    ensures Decode(s, b) < Pow(b, |s|)
  {
    if s != [] {
      var p := s[..|s| - 1];
      assert AllDigits(p, b);
      DecodeBound(p, b);
      var d := DigitValue(s[|s| - 1], b);
      LastDigitStep(Decode(p, b), Pow(b, |p|), b, d);
    }
  }

  lemma LastDigitStep(v: nat, p: nat, b: Base, d: nat)
    requires v < p && d < b
    ensures v * b + d < b * p
  {
    MulMono(v + 1, p, b);
  }

  lemma MulSucc(x: int, b: int)
    ensures (x + 1) * b == x * b + b
  {
  }

  lemma MulMono(x: int, y: int, b: nat)
    requires x <= y
    ensures x * b <= y * b
  {
  }

  function Zeros(k: nat): (z: string)
    ensures |z| == k && forall i :: 0 <= i < k ==> z[i] == '0'
  {
    if k == 0 then [] else Zeros(k - 1) + ['0']
  }

  /** sprintf("%0<w>d")-style left padding of a numeral with '0'. */
  function ZeroPad(s: string, w: nat): (r: string)
  {
    if |s| < w then Zeros(w - |s|) + s else s
  }

  /** Leading zeros change neither the digit set nor the value. */
  lemma {:induction false} ZeroPadValue(s: string, w: nat, b: Base)
    requires AllDigits(s, b)
    ensures |ZeroPad(s, w)| == if |s| < w then w else |s|
    ensures AllDigits(ZeroPad(s, w), b)
    ensures Decode(ZeroPad(s, w), b) == Decode(s, b)
  {
    if |s| < w {
      var z := Zeros(w - |s|);
      assert AllDigits(z, b) by { assert DigitChar(0) == '0'; }
      ZerosValue(w - |s|, b);
      DecodeAppend(z, s, b);
    }
  }

  lemma {:induction false} ZerosValue(k: nat, b: Base)
    ensures AllDigits(Zeros(k), b) && Decode(Zeros(k), b) == 0
  {
    assert DigitChar(0) == '0';
    if k > 0 {
      ZerosValue(k - 1, b);
      assert Zeros(k)[..k - 1] == Zeros(k - 1);
    }
  }

  /** A number below b^k has a numeral of at most k digits. */
  lemma {:induction false} EncodeLength(n: nat, b: Base, k: nat)
    requires k >= 1 && n < Pow(b, k)
    ensures |Encode(n, b)| <= k
    decreases k
  {
    DivMod(n, b);
    if n >= b {
      var P := Pow(b, k - 1);
      assert Pow(b, k) == b * P;
      if k == 1 {
        assert false;
      }
      if n / b >= P {
        MulMono(P, n / b, b);
        assert false;
      }
      EncodeLength(n / b, b, k - 1);
    }
  }

  /** Strict lexicographic order on strings, by character code; a proper prefix comes first. */
  predicate LexLess(x: string, y: string)
  {
    |y| > 0 && (|x| == 0 || x[0] < y[0] || (x[0] == y[0] && LexLess(x[1..], y[1..])))
  }

  lemma {:induction false} LexLessLast(p: string, c: char, d: char)
    requires c < d
    ensures LexLess(p + [c], p + [d])
  {
    if p != [] {
      LexLessLast(p[1..], c, d);
      assert (p + [c])[1..] == p[1..] + [c];
      assert (p + [d])[1..] == p[1..] + [d];
    }
  }

  /** Appending anything keeps the order of two strings of equal length. */
  lemma {:induction false} LexLessExtend(x: string, y: string, u: string, v: string)
    requires |x| == |y| && LexLess(x, y)
    ensures LexLess(x + u, y + v)
  {
    if x[0] == y[0] && !(x[0] < y[0]) {
      LexLessExtend(x[1..], y[1..], u, v);
      assert (x + u)[1..] == x[1..] + u;
      assert (y + v)[1..] == y[1..] + v;
    }
  }

  lemma DigitCharMono(v: nat, w: nat)
    requires v < w < 36
    ensures DigitChar(v) < DigitChar(w)
  {
  }

  /** One step of the numeral recursion: the last digit is n mod b. */
  lemma EncodeStep(n: nat, b: Base)
    requires n >= b
    ensures Encode(n, b) == Encode(n / b, b) + [DigitChar(n % b)]
  {
  }

  lemma DivOrder(n: nat, m: nat, b: Base)
    requires n < m
    ensures n / b <= m / b
    ensures n / b == m / b ==> n % b < m % b
  {
    Split(n, b);
    Split(m, b);
    QuotOrder(n, n / b, n % b, m, m / b, m % b, b);
  }

  lemma QuotOrder(n: int, qn: int, rn: int, m: int, qm: int, rm: int, b: Base)
    requires n == qn * b + rn && m == qm * b + rm && n < m && 0 <= rn < b && 0 <= rm < b
    ensures qn <= qm
    ensures qn == qm ==> rn < rm
  {
    MulSucc(qm, b);
    if qn > qm {
      MulMono(qm + 1, qn, b);
    }
  }

  /**
   * Numerals sort like their values: a larger number has a longer numeral,
   * or one of the same length that is lexicographically larger.
   */
  lemma {:induction false} EncodeOrder(n: nat, m: nat, b: Base)
    requires n < m
    ensures |Encode(n, b)| < |Encode(m, b)|
         || (|Encode(n, b)| == |Encode(m, b)| && LexLess(Encode(n, b), Encode(m, b)))
    decreases m
  {
    if m < b {
      DigitCharMono(n, m);
    } else if n < b {
      EncodeStep(m, b);
    } else {
      EncodeStep(n, b);
      EncodeStep(m, b);
      DivOrder(n, m, b);
      DivMod(n, b);
      DivMod(m, b);
      var pn, pm := Encode(n / b, b), Encode(m / b, b);
      var cn, cm := DigitChar(n % b), DigitChar(m % b);
      if n / b == m / b {
        DigitCharMono(n % b, m % b);
        LexLessLast(pn, cn, cm);
      } else {
        EncodeOrder(n / b, m / b, b);
        if |pn| == |pm| {
          LexLessExtend(pn, pm, [cn], [cm]);
        }
      }
    }
  }
}
