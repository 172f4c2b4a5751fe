/** Aspect ratios in lowest terms: parsing, printing and scaling (media/aspect.go). */
module Aspects {
  import opened Arith
  import opened Text
  import opened Decimal

  /** maxAspectTerm. */
  const MAX_TERM: int := 10000

  datatype Aspect = Aspect(w: int, h: int)

  const NATIVE := Aspect(0, 0)

  // ---------------------------------------------------------------- gcd

  function Gcd(a: nat, b: nat): nat
    decreases b
  {
    if b == 0 then a else Gcd(b, a % b)
  }

  method ComputeGcd(a: nat, b: nat) returns (g: nat)
    ensures g == Gcd(a, b)
  {
    var x, y := a, b;
    while y != 0
      invariant Gcd(x, y) == Gcd(a, b)
      decreases y
    {
      x, y := y, x % y;
    }
    g := x;
  }

  ghost predicate Divides(d: int, a: int) { exists k :: Product(d, k) == a }

  lemma DividesCombination(d: int, a: int, b: int, x: int, y: int)
    requires Divides(d, a) && Divides(d, b)
    ensures Divides(d, a * x + b * y)
  {
    var k :| Product(d, k) == a;
    var l :| Product(d, l) == b;
    calc {
      Product(d, k * x + l * y);
      d * (k * x) + d * (l * y);
      { assert d * (k * x) == (d * k) * x && d * (l * y) == (d * l) * y; }
      a * x + b * y;
    }
  }

  lemma DividesBounds(d: nat, a: nat)
    requires Divides(d, a) && a > 0
    ensures 0 < d <= a
  {
    var k :| Product(d, k) == a;
    assert d != 0 && k > 0;
    assert d * k >= d;
  }

  /** Gcd divides both terms and is a combination of them. */
  lemma {:induction false} Bezout(a: nat, b: nat) returns (x: int, y: int)
    ensures a * x + b * y == Gcd(a, b)
    ensures Divides(Gcd(a, b), a) && Divides(Gcd(a, b), b)
    decreases b
  {
    if b == 0 {
      x, y := 1, 0;
      assert Product(a, 1) == a && Product(a, 0) == 0;
    } else {
      var q, r := a / b, a % b;
      var u, v := Bezout(b, r);
      x, y := v, u - q * v;
      DivFloor(a, b);
      assert a == b * q + r;
      CombinationStep(b, q, r, u, v);
      DividesCombination(Gcd(b, r), b, r, q, 1);
    }
  }

  lemma CombinationStep(b: int, q: int, r: int, u: int, v: int)
    ensures (b * q + r) * v + b * (u - q * v) == b * u + r * v
  {
    Distribute(v, b * q, r);
    Distribute(b, u, -(q * v));
    Regroup(b, q, v);
    assert b * -(q * v) == -(b * (q * v));
  }

  /** Every common divisor divides the gcd. */
  lemma GcdGreatest(a: nat, b: nat, d: int)
    requires Divides(d, a) && Divides(d, b)
    ensures Divides(d, Gcd(a, b))
  {
    var x, y := Bezout(a, b);
    DividesCombination(d, a, b, x, y);
  }

  /** A coprime fraction equal to another has a numerator and denominator dividing the other's. */
  lemma CoprimeDivides(a: nat, b: nat, c: nat, d: nat)
    requires Gcd(a, b) == 1 && a * d == c * b
    ensures Divides(a, c) && Divides(b, d)
  {
    var x, y := Bezout(a, b);
    CoprimeFactor(a, b, c, d, x, y);
    CoprimeFactor(b, a, d, c, y, x);
  }

  lemma CoprimeFactor(a: nat, b: nat, c: nat, d: nat, x: int, y: int)
    requires a * x + b * y == 1 && a * d == c * b
    ensures Divides(a, c)
  {
    calc {
      c;
      c * (a * x + b * y);
      c * (a * x) + c * (b * y);
      { Regroup(c, a, x); Regroup(c, b, y); }
      a * (c * x) + (a * d) * y;
      { Regroup(a, d, y); Regroup(d, a, y); }
      a * (c * x) + a * (d * y);
      Product(a, c * x + d * y);
    }
  }

  lemma DividesBothWays(a: nat, b: nat)
    requires a > 0 && b > 0 && Divides(a, b) && Divides(b, a)
    ensures a == b
  {
    DividesBounds(a, b);
    DividesBounds(b, a);
  }

  // ---------------------------------------------------------------- parsing and printing

  predicate Native(a: Aspect) { a.w == 0 || a.h == 0 }

  predicate Ratio(a: Aspect) { 0 < a.w <= MAX_TERM && 0 < a.h <= MAX_TERM }

  predicate Valid(a: Aspect) {
    a == NATIVE || (Ratio(a) && Gcd(a.w, a.h) == 1)
  }

  /** "W:H" before it is reduced; None when either term is not an integer within the bounds. */
  function Terms(s: string): Option<(nat, nat)> {
    match Cut(s, ':')
    case None => None
    case Some(p) =>
      match (Atoi(p.0), Atoi(p.1))
      case (Some(w), Some(h)) =>
        if w <= 0 || h <= 0 || w > MAX_TERM || h > MAX_TERM then None else Some((w, h))
      case _ => None
  }

  function ParseAspect(text: string): Option<Aspect> {
    var s := TrimSpace(text);
    if s == "" || s == "native" then Some(NATIVE) else
      match Terms(s)
      case None => None
      case Some((w, h)) =>
        var g := Gcd(w, h);
        GcdPositive(w, h);
        Some(Aspect(w / g, h / g))
  }

  function Show(a: Aspect): string {
    if Native(a) then "native" else Itoa(a.w) + ":" + Itoa(a.h)
  }

  lemma GcdPositive(w: nat, h: nat)
    requires w > 0
    ensures 0 < Gcd(w, h) <= w
  {
    var _, _ := Bezout(w, h);
    DividesBounds(Gcd(w, h), w);
  }

  /** Dividing both terms by their gcd leaves a coprime pair in the same ratio. */
  lemma ReducedIsCoprime(w: nat, h: nat)
    requires w > 0 && h > 0
    ensures var g := Gcd(w, h);
            g > 0 && w == g * (w / g) && h == g * (h / g) && 0 < w / g <= w && 0 < h / g <= h && Gcd(w / g, h / g) == 1
  {
    GcdPositive(w, h);
    var g := Gcd(w, h);
    var x, y := Bezout(w, h);
    var a :| Product(g, a) == w;
    var b :| Product(g, b) == h;
    QuotientOf(g, a, w);
    QuotientOf(g, b, h);
    CombinationOfOne(g, a, b, x, y);
    OneIsCoprime(a, b, x, y);
  }

  lemma CombinationOfOne(g: nat, a: nat, b: nat, x: int, y: int)
    requires g > 0 && (g * a) * x + (g * b) * y == g
    ensures a * x + b * y == 1
  {
    var n := a * x + b * y;
    Regroup(g, a, x);
    Regroup(g, b, y);
    assert g * n == g;
    if n > 1 { ProductLess(g, 1, n); }
    if n < 1 { ProductLess(g, n, 1); }
  }

  lemma OneIsCoprime(a: nat, b: nat, x: int, y: int)
    requires a * x + b * y == 1
    ensures Gcd(a, b) == 1
  {
    var _, _ := Bezout(a, b);
    DividesCombination(Gcd(a, b), a, b, x, y);
    DividesBounds(Gcd(a, b), 1);
  }

  lemma QuotientOf(g: nat, k: int, w: nat)
    requires g > 0 && Product(g, k) == w && w > 0
    ensures k == w / g && 0 < k <= w
  {
    var q := w / g;
    DivFloor(w, g);
    assert Product(g, q) <= w < Product(g, q) + g;
    ProductIs(g, 0);
    ProductIs(g, k);
    hide Product;
    if k < q { ProductLess(g, k, q); }
    if q < k { ProductLess(g, q, k); }
    if k < 0 { ProductLess(g, k, 0); }
    if k > 0 {
      ProductIs(k, 0);
      ProductLess(k, 0, g);
    }
  }

  /** Whatever parses is valid: native, or in lowest terms within the bound. */
  lemma ParsedIsValid(text: string)
    ensures ParseAspect(text).Some? ==> Valid(ParseAspect(text).value)
  {
    var terms := Terms(TrimSpace(text));
    if terms.Some? {
      ReducedIsCoprime(terms.value.0, terms.value.1);
    }
  }

  /** Two W:H texts parse equal exactly when they write the same ratio. */
  lemma ParsedEqualIffSameRatio(s: string, t: string)
    requires Terms(TrimSpace(s)).Some? && Terms(TrimSpace(t)).Some?
    ensures var (w, h) := Terms(TrimSpace(s)).value;
            var (w', h') := Terms(TrimSpace(t)).value;
            ParseAspect(s) == ParseAspect(t) <==> w * h' == w' * h
  {
    var (w, h) := Terms(TrimSpace(s)).value;
    var (w', h') := Terms(TrimSpace(t)).value;
    NamedTextHasNoTerms(TrimSpace(s));
    NamedTextHasNoTerms(TrimSpace(t));
    ReducedIsCoprime(w, h);
    ReducedIsCoprime(w', h');
    var g, g' := Gcd(w, h), Gcd(w', h');
    var a, b, c, d := w / g, h / g, w' / g', h' / g';
    SameRatio(g, a, b, g', c, d);
    if w * h' == w' * h {
      CoprimeDivides(a, b, c, d);
      CoprimeDivides(c, d, a, b);
      DividesBothWays(a, c);
      DividesBothWays(b, d);
    }
  }

  lemma SameRatio(g: nat, a: nat, b: nat, k: nat, c: nat, d: nat)
    requires g > 0 && k > 0
    ensures (g * a) * (k * d) == (k * c) * (g * b) <==> a * d == c * b
  {
    SwapFactors(g, a, k, d);
    SwapFactors(k, c, g, b);
    assert k * g == g * k;
    var n := g * k;
    assert n > 0;
    if n * (a * d) == n * (c * b) { CancelFactor(n, a * d, c * b); }
  }

  lemma SwapFactors(g: int, a: int, k: int, d: int)
    ensures (g * a) * (k * d) == (g * k) * (a * d)
  {
    Regroup(g, a, k * d);
    Regroup(a, k, d);
    Regroup(g, k, a * d);
  }

  lemma CancelFactor(k: int, x: int, y: int)
    requires k > 0 && k * x == k * y
    ensures x == y
  {
    if x < y { ProductLess(k, x, y); }
    if y < x { ProductLess(k, y, x); }
  }

  lemma NamedTextHasNoTerms(s: string)
    ensures s == "" || s == "native" ==> Terms(s) == None
  {
    if s == "" || s == "native" {
      CutAbsent(s, ':');
    }
  }

  /** Which ratio texts are accepted, in lowest terms or not: decimals from 1 to 10000, with white space around;
      the result is in the same ratio. */
  lemma RatioTextsParse(w: int, h: int, a: string, b: string)
    requires MIN_INT64 <= w <= MAX_INT64 && MIN_INT64 <= h <= MAX_INT64
    requires (forall ch <- a :: IsSpace(ch)) && (forall ch <- b :: IsSpace(ch))
    ensures var p := ParseAspect(a + (Itoa(w) + ":" + Itoa(h)) + b);
            && (p.Some? <==> 1 <= w <= 10000 && 1 <= h <= 10000)
            && (p.Some? ==> p.value.w * h == w * p.value.h && Valid(p.value))
  {
    hide Itoa, Terms, TrimSpace, Gcd;
    var s := Itoa(w) + ":" + Itoa(h);
    TextIsTrimmed(w, h);
    TrimSpacePadded(a, s, b);
    TrimSpaceTrims(s);
    TermsOfText(w, h);
    NamesAreNot(w, h);
    if 1 <= w <= 10000 && 1 <= h <= 10000 {
      ParsedIsValid(a + s + b);
      Reduction(w, h);
    }
    hide Valid;
  }

  lemma Reduction(w: nat, h: nat)
    requires w > 0 && h > 0
    ensures Gcd(w, h) > 0 && (w / Gcd(w, h)) * h == w * (h / Gcd(w, h))
  {
    ReducedIsCoprime(w, h);
    hide Gcd;
    SameScale(Gcd(w, h), w / Gcd(w, h), h / Gcd(w, h), w, h);
  }

  lemma TermsOfText(w: int, h: int)
    requires MIN_INT64 <= w <= MAX_INT64 && MIN_INT64 <= h <= MAX_INT64
    ensures Terms(Itoa(w) + ":" + Itoa(h)) == if 1 <= w <= 10000 && 1 <= h <= 10000 then Some((w, h)) else None
  {
    NoColon(w);
    AtoiItoa(w);
    AtoiItoa(h);
    assert Itoa(w) + ":" + Itoa(h) == Itoa(w) + [':'] + Itoa(h);
    CutJoined(Itoa(w), ':', Itoa(h));
    hide Itoa, Atoi, Cut;
  }

  lemma NamesAreNot(w: int, h: int)
    ensures Itoa(w) + ":" + Itoa(h) !in {"", "native"}
  {
    hide Itoa;
    var s := Itoa(w) + ":" + Itoa(h);
    assert s[|Itoa(w)|] == ':';
  }

  lemma SameScale(g: int, x: int, y: int, w: int, h: int)
    requires w == g * x && h == g * y
    ensures x * h == w * y
  {
    Regroup(x, g, y);
  }

  lemma NoColon(n: int)
    ensures ':' !in Itoa(n)
  {
    assert forall ch <- Digits(if n < 0 then -n else n) :: IsDigit(ch);
    hide Digits;
  }

  lemma TextIsTrimmed(w: int, h: int)
    ensures Trimmed(Itoa(w) + ":" + Itoa(h))
  {
    var x, y := Digits(if w < 0 then -w else w), Digits(if h < 0 then -h else h);
    assert IsDigit(x[0]) && IsDigit(y[|y| - 1]);
    hide Digits;
    assert !IsSpace('-');
    var s := Itoa(w) + ":" + Itoa(h);
    assert s[0] == '-' || s[0] == x[0];
    assert s[|s| - 1] == y[|y| - 1];
  }

  /** ParseAspect inverts String on every valid aspect. */
  lemma ParseInvertsShow(a: Aspect)
    requires Valid(a)
    ensures ParseAspect(Show(a)) == Some(a)
  {
    var s := Show(a);
    if Native(a) {
      TrimSpaceTrims(s);
    } else {
      assert IsDigit(Digits(a.w)[0]) && IsDigit(Digits(a.h)[|Digits(a.h)| - 1]);
      assert s[|s| - 1] == Digits(a.h)[|Digits(a.h)| - 1];
      TrimSpaceTrims(s);
      assert s == Itoa(a.w) + [':'] + Itoa(a.h);
      CutJoined(Itoa(a.w), ':', Itoa(a.h));
      AtoiItoa(a.w);
      AtoiItoa(a.h);
      assert Terms(s) == Some((a.w, a.h));
      NamedTextHasNoTerms(s);
    }
  }

  // ---------------------------------------------------------------- scaling

  /** Go's integer division, toward zero. */
  function Quotient(a: int, b: int): int
    requires b > 0
  {
    if a >= 0 then a / b else -((-a) / b)
  }

  /** v scaled by num/den, rounded half up for v >= 0, at least 1. The products and the sum wrap; den is an
      aspect's term, so twice it does not. */
  function Scale(v: int64, num: int, den: int): int64
    requires den > 0
  {
    Max(1, Quotient(Wrap64(2 * v * num + den), 2 * den))
  }

  function Height(a: Aspect, width: int64): int64
    requires a.w >= 0 && a.h >= 0
  {
    if Native(a) then 0 else Scale(width, a.h, a.w)
  }

  function Width(a: Aspect, height: int64): int64
    requires a.w >= 0 && a.h >= 0
  {
    if Native(a) then 0 else Scale(height, a.w, a.h)
  }

  function Rotated(a: Aspect): Aspect { Aspect(a.h, a.w) }

  /** q is v * num / den to the nearest integer, ties up, unless that is 0. */
  predicate Nearest(v: nat, num: nat, den: nat, q: int) {
    && q >= 1
    && (q > 1 ==> 2 * Product(den, q) <= 2 * Product(v, num) + den)
    && 2 * Product(v, num) + den < 2 * Product(den, q) + 2 * den
  }

  /** Scaling never exceeds the nearest integer, and is the nearest exactly when nothing wraps. */
  lemma ScaleIsNearest(v: nat, num: nat, den: nat)
    requires v <= MAX_INT64 && 0 < den <= MAX_TERM
    ensures var q, exact := Scale(v, num, den), 2 * Product(v, num) + den;
            && q >= 1
            && (q > 1 ==> 2 * Product(den, q) <= exact && 2 * Product(den, q) <= MAX_INT64)
            && (exact > MAX_INT64 && q > 1 ==> 2 * Product(den, q) <= exact - TWO_64)
            && (Nearest(v, num, den, q) <==> exact <= MAX_INT64)
  {
    hide Scale, Product, Quotient, Wrap64;
    var exact := 2 * Product(v, num) + den;
    var q := Scale(v, num, den);
    ScaleSum(v, num, den);
    ProductOne(den);
    ProductNat(v, num);
    WrapIs(exact);
    QuotientBounds(Wrap64(exact), den);
    FitsOrNot(exact, Wrap64(exact), den, q, Product(den, q));
  }

  lemma ScaleSum(v: int64, num: int, den: int)
    requires den > 0
    ensures Scale(v, num, den) == Max(1, Quotient(Wrap64(2 * Product(v, num) + den), 2 * den))
  {
    assert 2 * v * num == 2 * (v * num);
  }

  /** dq stands for den * q. */
  lemma FitsOrNot(exact: int, sum: int, den: int, q: int, dq: int)
    requires 0 < den <= MAX_TERM && exact >= den && sum <= MAX_INT64
    requires if exact <= MAX_INT64 then sum == exact else sum <= exact - TWO_64
    requires q >= 1 && (q == 1 ==> dq == den) && (q > 1 ==> 2 * dq <= sum) && sum < 2 * dq + 2 * den
    ensures q > 1 ==> 2 * dq <= exact && 2 * dq <= MAX_INT64
    ensures exact > MAX_INT64 && q > 1 ==> 2 * dq <= exact - TWO_64
    ensures exact < 2 * dq + 2 * den <==> exact <= MAX_INT64
  {}

  /** The quotient of a sum by twice the divisor, at least 1. */
  lemma QuotientBounds(sum: int, den: int)
    requires den > 0
    ensures var q := Max(1, Quotient(sum, 2 * den));
            && (q > 1 ==> 2 * Product(den, q) <= sum)
            && sum < 2 * Product(den, q) + 2 * den
  {
    ProductIs(den, 1);
    if sum >= 0 {
      var q := sum / (2 * den);
      DivFloor(sum, 2 * den);
      assert Product(2 * den, q) == 2 * Product(den, q);
    } else {
      assert -sum / (2 * den) >= 0;
    }
  }

  /** When the full width is too tall, the height's width fits: the cap at the width never bites. */
  lemma NarrowedFits(a: Aspect, w: nat, h: nat)
    requires Ratio(a) && 1 <= w <= MAX_INT64 && 1 <= h <= MAX_INT64
    requires Height(a, w) > h
    ensures 1 <= Width(a, h) <= w
  {
    hide Scale, Product;
    ScaleIsNearest(w, a.h, a.w);
    ScaleIsNearest(h, a.w, a.h);
    ProductIs(w, a.h);
    ProductIs(h, a.w);
    ProductLess(a.w, h, Height(a, w));
    if Width(a, h) > w { ProductLess(a.h, w, Width(a, h)); }
  }

  /** A landscape or square aspect never scales a width back to more than the height it came from, and gives
      that height exactly when nothing wraps. */
  lemma LandscapeScalesBack(a: Aspect, h: nat)
    requires Ratio(a) && a.w >= a.h && 1 <= h <= MAX_INT64
    ensures var q := Width(a, h);
            && Height(a, q) <= h
            && (Height(a, q) == h <==> 2 * Product(h, a.w) + a.h <= MAX_INT64 && 2 * Product(q, a.h) + a.w <= MAX_INT64)
  {
    hide Scale, Product;
    var q := Width(a, h);
    ScaleIsNearest(h, a.w, a.h);
    ScaleIsNearest(q, a.h, a.w);
    var back := Height(a, q);
    LandscapeAtMost(a, h, q, back);
    if 2 * Product(h, a.w) + a.h <= MAX_INT64 && 2 * Product(q, a.h) + a.w <= MAX_INT64 {
      LandscapeAtLeast(a, h, q, back);
    } else {
      LandscapeWraps(a, h, q, back);
    }
  }

  lemma LandscapeAtMost(a: Aspect, h: nat, q: nat, back: nat)
    requires Ratio(a) && a.w >= a.h && 1 <= h <= MAX_INT64 && q == Width(a, h) && back == Height(a, q)
    ensures back <= h
  {
    hide Scale, Product;
    ScaleIsNearest(h, a.w, a.h);
    ScaleIsNearest(q, a.h, a.w);
    ProductIs(q, a.h);
    ProductIs(h, a.w);
    ProductOne(a.h);
    if back > h {
      ProductLess(a.w, h, back);
      ProductLess(a.w, 1, back);
      ProductOne(a.w);
      if q > h && a.w == a.h { ProductLess(a.h, h, q); }
      if q < h && a.w == a.h { ProductLess(a.h, q, h); }
    }
  }

  lemma LandscapeAtLeast(a: Aspect, h: nat, q: nat, back: nat)
    requires Ratio(a) && a.w >= a.h && 1 <= h <= MAX_INT64 && q == Width(a, h) && back == Height(a, q)
    requires 2 * Product(h, a.w) + a.h <= MAX_INT64 && 2 * Product(q, a.h) + a.w <= MAX_INT64
    ensures back >= h
  {
    hide Scale, Product;
    ScaleIsNearest(h, a.w, a.h);
    ScaleIsNearest(q, a.h, a.w);
    ProductIs(q, a.h);
    ProductIs(h, a.w);
    if back < h { ProductLess(a.w, back, h); }
  }

  lemma LandscapeWraps(a: Aspect, h: nat, q: nat, back: nat)
    requires Ratio(a) && a.w >= a.h && 1 <= h <= MAX_INT64 && q == Width(a, h) && back == Height(a, q)
    requires 2 * Product(h, a.w) + a.h > MAX_INT64 || 2 * Product(q, a.h) + a.w > MAX_INT64
    ensures back != h
  {
    hide Scale, Product;
    ScaleIsNearest(h, a.w, a.h);
    ScaleIsNearest(q, a.h, a.w);
    ProductIs(q, a.h);
    ProductIs(h, a.w);
    ProductOne(a.h);
    ProductOne(a.w);
  }
}
