/** Numbers written with digits of varying binary width. */
module Radix {

  function Pow2(n: nat): (p: nat)
    ensures p > 0
  {
    if n == 0 then 1 else 2 * Pow2(n - 1)
  }

  lemma {:induction false} Doubled(x: nat, y: nat)
    ensures (2 * x) * y == 2 * (x * y) == x * (2 * y)
  {
  }

  lemma {:induction false} Pow2Adds(m: nat, n: nat)
    ensures Pow2(m + n) == Pow2(m) * Pow2(n)
  {
    if m > 0 {
      Pow2Adds(m - 1, n);
      Doubled(Pow2(m - 1), Pow2(n));
      Pow2Next(m);
      Pow2Next(m + n);
      hide Pow2;
    }
  }

  lemma {:induction false} Pow2Next(n: nat)
    requires n > 0
    ensures Pow2(n) == 2 * Pow2(n - 1)
  {
  }

  lemma {:induction false} SmallPowers()
    ensures Pow2(3) == 8 && Pow2(4) == 16 && Pow2(5) == 32
  {
  }

  /** The powers of two that occur in the paging definitions. */
  lemma {:induction false} Powers()
    ensures Pow2(9) == 512 && Pow2(11) == 2048 && Pow2(12) == 4096 && Pow2(13) == 8192 && Pow2(14) == 16384
    ensures Pow2(3) == 8 && Pow2(64) == 0x1_0000_0000_0000_0000
  {
    SmallPowers();
    hide Pow2;
    Pow2Adds(4, 5);
    Pow2Adds(4, 4);
    Pow2Adds(8, 3);
    Pow2Adds(8, 4);
    Pow2Adds(8, 5);
    Pow2Adds(9, 5);
    Pow2Adds(8, 8);
    Pow2Adds(16, 16);
    Pow2Adds(32, 32);
  }

  function Sum(ws: seq<nat>): nat {
    if ws == [] then 0 else ws[0] + Sum(ws[1..])
  }

  /** Digit-by-digit evaluation, most significant digit first. */
  function Join(ws: seq<nat>, ds: seq<nat>): nat
    requires |ws| == |ds|
  {
    if ws == [] then 0 else ds[0] * Pow2(Sum(ws[1..])) + Join(ws[1..], ds[1..])
  }

  /** A right shift. */
  function Drop(x: nat, s: nat): nat {
    if s == 0 then x else Drop(x / 2, s - 1)
  }

  /** The low `w` bits. */
  function Low(x: nat, w: nat): (r: nat)
    ensures r < Pow2(w)
  {
    if w == 0 then 0 else x % 2 + 2 * Low(x / 2, w - 1)
  }

  /** The digit of width `w` at shift `s`, cut out with a shift and a remainder as the walker does. */
  function Digit(x: nat, s: nat, w: nat): nat {
    Low(Drop(x, s), w)
  }

  /** A left shift, without the wrap-around of a machine word. */
  function Shl(x: nat, s: nat): nat {
    if s == 0 then x else 2 * Shl(x, s - 1)
  }

  /** The bitwise `|`. */
  function Or(x: nat, y: nat): nat
    decreases x + y
  {
    if x == 0 && y == 0 then 0 else (if x % 2 == 1 || y % 2 == 1 then 1 else 0) + 2 * Or(x / 2, y / 2)
  }

  function Split(ws: seq<nat>, x: nat): (ds: seq<nat>)
    ensures |ds| == |ws|
  {
    if ws == [] then [] else [Digit(x, Sum(ws[1..]), ws[0])] + Split(ws[1..], x)
  }

  predicate Digits(ws: seq<nat>, ds: seq<nat>) {
    |ws| == |ds| && forall k :: 0 <= k < |ws| ==> ds[k] < Pow2(ws[k])
  }

  // ---- division facts ----

  lemma {:induction false} MultiplesAreFar(n: int, k: int)
    requires n > 0 && k != 0
    ensures k * n >= n || k * n <= -n
  {
    if k >= 1 {
      assert (k - 1) * n >= 0;
    } else {
      assert (-1 - k) * n >= 0;
    }
  }

  lemma {:induction false} TimesGrows(x: nat, y: nat, n: nat)
    requires x >= y
    ensures x * n >= y * n
  {
    assert (x - y) * n >= 0;
  }

  lemma {:induction false} QuotientIsUnique(n: nat, q: int, r: nat, q': int, r': nat)
    requires r < n && r' < n && q * n + r == q' * n + r'
    ensures q == q' && r == r'
  {
    assert (q - q') * n == q * n - q' * n;
    if q != q' {
      MultiplesAreFar(n, q - q');
    }
  }

  lemma {:induction false} DivAndMod(x: nat, n: nat, q: nat, r: nat)
    requires r < n && x == q * n + r
    ensures x / n == q && x % n == r
  {
    QuotientIsUnique(n, x / n, x % n, q, r);
  }

  lemma {:induction false} TwoDigits(m: nat, n: nat, hi: nat, d: nat, r: nat)
    requires d < m && r < n
    ensures (hi * m + d) * n + r == hi * (m * n) + (d * n + r)
    ensures d * n + r < m * n
  {
    assert (m - 1 - d) * n >= 0;
    assert (m - 1 - d) * n == m * n - n - d * n;
    assert (hi * m + d) * n == hi * (m * n) + d * n;
  }

  lemma {:induction false} Positive(m: nat, n: nat)
    requires m > 0 && n > 0
    ensures m * n > 0
  {
  }

  lemma {:induction false} DivModIdentity(x: nat, n: nat)
    requires n > 0
    ensures x / n >= 0 && x == x / n * n + x % n && x % n < n
  {
  }

  lemma {:induction false} Digits2(x: nat, m: nat, n: nat, q: nat, r: nat, hi: nat, d: nat)
    requires m > 0 && n > 0 && x == q * n + r && r < n && q == hi * m + d && d < m
    ensures m * n > 0 && x / (m * n) == hi && x % (m * n) == d * n + r
  {
    Positive(m, n);
    TwoDigits(m, n, hi, d, r);
    DivAndMod(x, m * n, hi, d * n + r);
  }

  /** Dividing and taking remainders in two steps. */
  lemma {:induction false} DivMod2(x: nat, m: nat, n: nat)
    requires m > 0 && n > 0
    ensures m * n > 0
    ensures x / (m * n) == (x / n) / m
    ensures x % (m * n) == (x / n) % m * n + x % n
  {
    DivModIdentity(x, n);
    DivModIdentity(x / n, m);
    Digits2(x, m, n, x / n, x % n, (x / n) / m, (x / n) % m);
  }

  /** Shifting divides by a power of two, and the low bits are the remainder. */
  lemma {:induction false} DropAndLow(x: nat, s: nat)
    ensures Drop(x, s) == x / Pow2(s) && Low(x, s) == x % Pow2(s)
    decreases s
  {
    if s > 0 {
      DropAndLow(x / 2, s - 1);
      DivMod2(x, Pow2(s - 1), 2);
    }
  }

  lemma {:induction false} DigitIsRemainder(x: nat, s: nat, w: nat)
    ensures Digit(x, s, w) == x / Pow2(s) % Pow2(w)
  {
    DropAndLow(x, s);
    DropAndLow(Drop(x, s), w);
  }

  lemma {:induction false} OrWithZero(x: nat)
    ensures Or(0, x) == x
  {
    if x > 0 {
      OrWithZero(x / 2);
    }
  }

  lemma {:induction false} OrOfDoubled(y: nat, z: nat)
    ensures Or(y, 2 * z) == 2 * Or(y / 2, z) + y % 2
  {
  }

  /** Shifting multiplies by a power of two. */
  lemma {:induction false} ShlIsProduct(x: nat, s: nat)
    ensures Shl(x, s) == x * Pow2(s)
  {
    if s > 0 {
      ShlIsProduct(x, s - 1);
      Doubled(x, Pow2(s - 1));
    }
  }

  /** A number below 2^s shares no bit with a number shifted by s, so the `|` of them is their sum. */
  lemma {:induction false} OrOfShifted(y: nat, x: nat, s: nat)
    requires y < Pow2(s)
    ensures Or(y, Shl(x, s)) == Shl(x, s) + y
    decreases s
  {
    if s == 0 {
      OrWithZero(x);
    } else {
      OrOfShifted(y / 2, x, s - 1);
      OrOfDoubled(y, Shl(x, s - 1));
    }
  }

  /** Setting one more digit above the lower ones. */
  lemma {:induction false} OrDigit(lower: nat, digit: nat, w: nat, s: nat)
    requires lower < Pow2(s) && digit < Pow2(w)
    ensures Or(lower, Shl(digit, s)) == Shl(digit, s) + lower < Pow2(w + s)
  {
    hide Pow2, Or, Shl;
    OrOfShifted(lower, digit, s);
    ShlIsProduct(digit, s);
    Pow2Adds(w, s);
    TwoDigits(Pow2(w), Pow2(s), 0, digit, lower);
  }

  /** Adding a multiple of the modulus. */
  lemma {:induction false} ModIgnoresMultiples(x: nat, m: nat, hi: nat)
    requires m > 0
    ensures (hi * m + x) % m == x % m && (hi * m + x) / m == hi + x / m
  {
    assert hi * m + x == (hi + x / m) * m + x % m;
    DivAndMod(hi * m + x, m, hi + x / m, x % m);
  }

  /** One digit: a remainder by 2^(w+s) is the digit at shift `s` plus the remainder by 2^s. */
  lemma {:induction false} Chunk(x: nat, w: nat, s: nat)
    ensures x % Pow2(w + s) == Digit(x, s, w) * Pow2(s) + x % Pow2(s)
  {
    hide Pow2, Digit;
    Pow2Adds(w, s);
    DigitIsRemainder(x, s, w);
    DivMod2(x, Pow2(w), Pow2(s));
  }

  /** Joining the digits of `x` gives `x` back, up to the bits above the top digit. */
  lemma {:induction false} JoinOfSplit(ws: seq<nat>, x: nat)
    ensures Join(ws, Split(ws, x)) == x % Pow2(Sum(ws))
  {
    if ws != [] {
      JoinOfSplit(ws[1..], x);
      Chunk(x, ws[0], Sum(ws[1..]));
      assert Split(ws, x)[1..] == Split(ws[1..], x);
    }
  }

  lemma {:induction false} JoinIsBounded(ws: seq<nat>, ds: seq<nat>)
    requires Digits(ws, ds)
    ensures Join(ws, ds) < Pow2(Sum(ws))
  {
    if ws != [] {
      JoinIsBounded(ws[1..], ds[1..]);
      Pow2Adds(ws[0], Sum(ws[1..]));
      TwoDigits(Pow2(ws[0]), Pow2(Sum(ws[1..])), 0, ds[0], Join(ws[1..], ds[1..]));
    }
  }

  lemma {:induction false} DigitIgnoresHigh(hi: nat, x: nat, s: nat, w: nat)
    ensures Digit(hi * Pow2(w) * Pow2(s) + x, s, w) == Digit(x, s, w)
  {
    hide Pow2, Digit;
    DigitIsRemainder(x, s, w);
    DigitIsRemainder(hi * Pow2(w) * Pow2(s) + x, s, w);
    HighMultiple(hi, x, Pow2(w), Pow2(s));
  }

  lemma {:induction false} HighMultiple(hi: nat, x: nat, m: nat, n: nat)
    requires m > 0 && n > 0
    ensures (hi * m * n + x) / n % m == x / n % m
  {
    var a := hi * m;
    var q := x / n;
    ModIgnoresMultiples(x, n, a);
    assert (a * n + x) / n == a + q;
    ModIgnoresMultiples(q, m, hi);
  }

  /** Bits above the digits do not show in them. */
  lemma {:induction false} Regrouped(x: nat, y: nat, z: nat)
    ensures x * (y * z) == x * y * z
  {
  }

  lemma {:induction false} SplitIgnoresHigh(ws: seq<nat>, hi: nat, x: nat)
    ensures Split(ws, hi * Pow2(Sum(ws)) + x) == Split(ws, x)
  {
    hide Digit, Pow2;
    if ws != [] {
      var m, n := Pow2(ws[0]), Pow2(Sum(ws[1..]));
      Pow2Adds(ws[0], Sum(ws[1..]));
      Regrouped(hi, m, n);
      DigitIgnoresHigh(hi, x, Sum(ws[1..]), ws[0]);
      SplitIgnoresHigh(ws[1..], hi * m, x);
    }
  }

  lemma {:induction false} TopDigit(d: nat, r: nat, s: nat, w: nat)
    requires d < Pow2(w) && r < Pow2(s)
    ensures Digit(d * Pow2(s) + r, s, w) == d
  {
    hide Pow2, Digit;
    DigitIsRemainder(d * Pow2(s) + r, s, w);
    DivAndMod(d * Pow2(s) + r, Pow2(s), d, r);
    DivAndMod(d, Pow2(w), 0, d);
  }

  /** Splitting a joined number gives its digits back. */
  lemma {:induction false} SplitOfJoin(ws: seq<nat>, ds: seq<nat>)
    requires Digits(ws, ds)
    ensures Split(ws, Join(ws, ds)) == ds
  {
    hide Digit;
    if ws != [] {
      var rest := Join(ws[1..], ds[1..]);
      JoinIsBounded(ws[1..], ds[1..]);
      TopDigit(ds[0], rest, Sum(ws[1..]), ws[0]);
      SplitIgnoresHigh(ws[1..], ds[0], rest);
      SplitOfJoin(ws[1..], ds[1..]);
    }
  }

  /** Two numbers have the same digits exactly when they agree up to the top digit. */
  lemma {:induction false} SplitIsInjective(ws: seq<nat>, x: nat, y: nat)
    ensures Split(ws, x) == Split(ws, y) <==> Low(x, Sum(ws)) == Low(y, Sum(ws))
  {
    hide Split, Join, Low, Pow2;
    DropAndLow(x, Sum(ws));
    DropAndLow(y, Sum(ws));
    JoinOfSplit(ws, x);
    JoinOfSplit(ws, y);
    SplitOfRemainder(ws, x);
    SplitOfRemainder(ws, y);
  }

  lemma {:induction false} SplitOfRemainder(ws: seq<nat>, x: nat)
    ensures Split(ws, x % Pow2(Sum(ws))) == Split(ws, x)
  {
    hide Split, Pow2, Sum;
    var n := Pow2(Sum(ws));
    DivModIdentity(x, n);
    SplitIgnoresHigh(ws, x / n, x % n);
  }
}
