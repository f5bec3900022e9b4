/** Exact rescaling of 64-bit integers: a * b / c in five rounding modes, and the
    timestamp comparison built on it.

    The 64-bit machine words of the program are integers here, and every unsigned
    operation that can wrap is written with `% TWO64`.  Signed operations are shown
    not to leave the signed range. */
module Rescale {
  import opened Basics

  const TWO32 := 0x1_0000_0000
  const TWO63 := 0x8000_0000_0000_0000
  const TWO64 := 0x1_0000_0000_0000_0000

  /** A signed 64-bit integer other than the most negative one. */
  predicate Int64(x: int) { -TWO63 < x < TWO63 }

  /** The rounding modes; Code gives the numbers of the enumeration. */
  datatype Rounding = Zero | Inf | Down | Up | NearInf {
    function Code(): bv8 {
      match this
      case Zero => 0
      case Inf => 1
      case Down => 2
      case Up => 3
      case NearInf => 5
    }

    /** The mode used for the magnitude of a negative number. */
    function Flip(): (r: Rounding)
      ensures r.Code() == this.Code() ^ ((this.Code() >> 1) & 1)
    {
      match this
      case Down => Up
      case Up => Down
      case _ => this
    }
  }

  // ---------------------------------------------------------------- what rounding means

  function Abs(x: int): int { if x < 0 then -x else x }

  /** q is the rational n/c rounded to an integer as the mode asks. */
  ghost predicate IsRounded(q: int, n: int, c: int, rnd: Rounding)
    requires c > 0
  {
    match rnd
    case Down => q * c <= n < q * c + c
    case Up => q * c - c < n <= q * c
    case Zero => if n >= 0 then q * c <= n < q * c + c else q * c - c < n <= q * c
    case Inf => if n >= 0 then q * c - c < n <= q * c else q * c <= n < q * c + c
    case NearInf => 2 * Abs(n - q * c) <= c && (2 * Abs(n - q * c) == c ==> Abs(q * c) > Abs(n))
  }

  lemma NonNegative(x: int, y: int)
    requires x >= 0 && y >= 0
    ensures x * y >= 0
  {
  }

  lemma Multiples(p: int, q: int, c: int)
    requires c > 0
    ensures p < q ==> p * c + c <= q * c
  {
    if p < q {
      NonNegative(q - p - 1, c);
      assert (q - p - 1) * c == q * c - p * c - c;
    }
  }

  /** The mode determines the result. */
  lemma RoundedUnique(p: int, q: int, n: int, c: int, rnd: Rounding)
    requires c > 0 && IsRounded(p, n, c, rnd) && IsRounded(q, n, c, rnd)
    ensures p == q
  {
    Multiples(p, q, c);
    Multiples(q, p, c);
    if p + 1 < q { Multiples(p + 1, q, c); }
    if q + 1 < p { Multiples(q + 1, p, c); }
  }

  /** What is added to a non-negative product before the truncating division. */
  function Offset(c: int, rnd: Rounding): (r: int)
    requires c > 0
    ensures 0 <= r < c
  {
    if rnd == NearInf then c / 2
    else if rnd.Code() & 1 != 0 then c - 1
    else 0
  }

  lemma QuotientBounds(n: int, c: int)
    requires c > 0
    ensures n / c * c <= n < n / c * c + c
  {
  }

  lemma QuotientNonNegative(n: int, c: int)
    requires n >= 0 && c > 0
    ensures n / c >= 0
  {
  }

  lemma OffsetIs(c: int, rnd: Rounding)
    requires c > 0
    ensures rnd == Zero || rnd == Down ==> Offset(c, rnd) == 0
    ensures rnd == Inf || rnd == Up ==> Offset(c, rnd) == c - 1
    ensures rnd == NearInf ==> Offset(c, rnd) == c / 2
  {
  }

  /** Rounding as a condition on the multiple m of c. */
  lemma MultipleRounds(m: int, q: int, n: int, c: int, r: int, rnd: Rounding)
    requires n >= 0 && c > 0 && m == q * c && 0 <= m <= n + r < m + c
    requires rnd == Zero || rnd == Down ==> r == 0
    requires rnd == Inf || rnd == Up ==> r == c - 1
    requires rnd == NearInf ==> r == c / 2
    ensures IsRounded(q, n, c, rnd)
  {
  }

  lemma OffsetRounds(n: int, c: int, rnd: Rounding)
    requires n >= 0 && c > 0
    ensures IsRounded((n + Offset(c, rnd)) / c, n, c, rnd)
  {
    var q := (n + Offset(c, rnd)) / c;
    OffsetIs(c, rnd);
    QuotientBounds(n + Offset(c, rnd), c);
    QuotientNonNegative(n + Offset(c, rnd), c);
    NonNegative(q, c);
    MultipleRounds(q * c, q, n, c, Offset(c, rnd), rnd);
  }

  lemma NegationRounds(q: int, n: int, c: int, rnd: Rounding)
    requires c > 0 && IsRounded(q, n, c, rnd.Flip()) && n > 0
    ensures IsRounded(-q, -n, c, rnd)
  {
    assert (-q) * c == -(q * c);
  }

  /** The rounded quotient, for any sign of n. */
  function RoundTo(n: int, c: int, rnd: Rounding): (q: int)
    requires c > 0
    ensures IsRounded(q, n, c, rnd)
  {
    if n >= 0 then
      OffsetRounds(n, c, rnd);
      (n + Offset(c, rnd)) / c
    else
      OffsetRounds(-n, c, rnd.Flip());
      NegationRounds((-n + Offset(c, rnd.Flip())) / c, -n, c, rnd);
      -((-n + Offset(c, rnd.Flip())) / c)
  }

  // ---------------------------------------------------------------- the three code paths

  lemma DivUnique(n: int, c: int, q: int)
    requires c > 0 && q * c <= n < q * c + c
    ensures n / c == q
  {
    QuotientBounds(n, c);
    Multiples(n / c, q, c);
    Multiples(q, n / c, c);
  }

  /** A multiple of the divisor comes out of the quotient. */
  lemma DivShift(q: int, c: int, w: int)
    requires c > 0
    ensures (q * c + w) / c == q + w / c
  {
    QuotientBounds(w, c);
    assert (q + w / c) * c == q * c + w / c * c;
    DivUnique(q * c + w, c, q + w / c);
  }

  lemma Distribute(x: int, c: int, y: int, b: int)
    ensures (x * c + y) * b == x * b * c + y * b
  {
    assert (x * c + y) * b == x * c * b + y * b;
    assert x * c * b == x * b * c;
  }

  lemma DivMod(a: int, c: int)
    requires a >= 0 && c > 0
    ensures a == a / c * c + a % c && 0 <= a % c < c && 0 <= a / c
  {
  }

  lemma DividedSum(x: int, y: int, a: int, b: int, c: int, r: int)
    requires c > 0 && a == x * c + y
    ensures (a * b + r) / c == x * b + (y * b + r) / c
  {
    Distribute(x, c, y, b);
    DivShift(x * b, c, y * b + r);
  }

  /** The second path divides a first, so that nothing exceeds 64 bits. */
  lemma DivideFirst(a: int, b: int, c: int, r: int)
    requires a >= 0 && b >= 0 && c > 0 && r >= 0
    ensures (a * b + r) / c == a / c * b + (a % c * b + r) / c
    ensures 0 <= a % c < c && 0 <= a / c * b && 0 <= (a % c * b + r) / c
  {
    DivMod(a, c);
    DividedSum(a / c, a % c, a, b, c, r);
    NonNegative(a / c, b);
    NonNegative(a % c, b);
    QuotientNonNegative(a % c * b + r, c);
  }

  lemma ProductBound(x: int, y: int, m: int, k: int)
    requires 0 <= x < m && 0 <= y < k
    ensures 0 <= x * y <= (m - 1) * (k - 1)
  {
    ProductMonotone(x, m - 1, y);
    ProductMonotone(y, k - 1, m - 1);
    assert y * (m - 1) == (m - 1) * y && (k - 1) * (m - 1) == (m - 1) * (k - 1);
  }

  lemma ProductMonotone(x: int, y: int, z: int)
    requires 0 <= x <= y && z >= 0
    ensures 0 <= x * z <= y * z
  {
  }

  lemma FourProducts(a1: int, a0: int, b1: int, b0: int)
    ensures (a1 * TWO32 + a0) * (b1 * TWO32 + b0)
         == a1 * b1 * TWO64 + (a0 * b1 + a1 * b0) * TWO32 + a0 * b0
  {
  }

  /** The four half-word products, put together, are the product. */
  lemma SplitProduct(a: int, b: int)
    requires 0 <= a < TWO63 && 0 <= b < TWO63
    ensures var a0, a1, b0, b1 := a % TWO32, a / TWO32, b % TWO32, b / TWO32;
      && a * b == a1 * b1 * TWO64 + (a0 * b1 + a1 * b0) * TWO32 + a0 * b0
      && 0 <= a0 * b1 + a1 * b0 < TWO64
      && 0 <= a0 * b0 < TWO64 && 0 <= a1 * b1 < TWO63 / 2
  {
    var a0, a1, b0, b1 := a % TWO32, a / TWO32, b % TWO32, b / TWO32;
    assert a == a1 * TWO32 + a0 && b == b1 * TWO32 + b0;
    assert 0 <= a1 < TWO32 / 2 && 0 <= b1 < TWO32 / 2;
    ProductBound(a0, b1, TWO32, TWO32 / 2);
    ProductBound(a1, b0, TWO32 / 2, TWO32);
    ProductBound(a0, b0, TWO32, TWO32);
    ProductBound(a1, b1, TWO32 / 2, TWO32 / 2);
    FourProducts(a1, a0, b1, b0);
  }

  /** A wrapped sum is below an addend exactly when a carry was lost. */
  lemma CarryExact(x: int, y: int)
    requires 0 <= x < TWO64 && 0 <= y < TWO64
    ensures var sum := (x + y) % TWO64; x + y == sum + (if sum < y then TWO64 else 0)
  {
  }

  /** Adding the middle product, shifted, and then the rounding offset: the two carries taken
      from the comparisons are the true ones, and the high word does not wrap. */
  method AddWithCarries(high: int, mid: int, low: int, r: int) returns (a1: int, a0: int)
    requires 0 <= high < TWO63 / 2 && 0 <= mid < TWO64 && 0 <= low < TWO64 && 0 <= r < TWO63
    ensures 0 <= a0 < TWO64 && 0 <= a1 < TWO64
    ensures a1 * TWO64 + a0 == high * TWO64 + mid * TWO32 + low + r
  {
    var shifted := mid * TWO32 % TWO64;
    assert mid * TWO32 == mid / TWO32 * TWO64 + shifted;
    CarryExact(low, shifted);
    a0 := (low + shifted) % TWO64;
    a1 := (high + mid / TWO32 + (if a0 < shifted then 1 else 0)) % TWO64;
    CarryExact(a0, r);
    a0 := (a0 + r) % TWO64;
    a1 := (a1 + (if a0 < r then 1 else 0)) % TWO64;
  }

  /** The hand-made 128-bit product plus the rounding offset: no carry is lost. */
  method WideProduct(a: int, b: int, r: int) returns (a1: int, a0: int, t1: int)
    requires 0 <= a < TWO63 && 0 <= b < TWO63 && 0 <= r < TWO63
    ensures 0 <= a0 < TWO64 && 0 <= a1 < TWO64 && 0 <= t1 < TWO64
    ensures a1 * TWO64 + a0 == a * b + r
  {
    a0 := a % TWO32;
    a1 := a / TWO32;
    var b0 := b % TWO32;
    var b1 := b / TWO32;
    SplitProduct(a, b);
    t1 := (a0 * b1 + a1 * b0) % TWO64;
    a1, a0 := AddWithCarries(a1 * b1, t1, a0 * b0, r);
  }

  function Pow2(n: nat): (p: int)
    ensures p > 0
  {
    if n == 0 then 1 else 2 * Pow2(n - 1)
  }

  lemma {:induction false} Pow2Sum(m: nat, n: nat)
    ensures Pow2(m + n) == Pow2(m) * Pow2(n)
  {
    if m > 0 {
      Pow2Sum(m - 1, n);
      MoveFactor(Pow2(n), Pow2(m - 1));
    }
  }

  /** The powers used, built by doubling the exponent. */
  lemma Pow2Values()
    ensures Pow2(31) == INT_MAX + 1 && Pow2(64) == TWO64
  {
    assert Pow2(4) == 0x10;
    Pow2Sum(4, 4);
    assert Pow2(8) == 0x100;
    Pow2Sum(8, 8);
    assert Pow2(16) == 0x1_0000;
    Pow2Sum(16, 16);
    assert Pow2(32) == 2 * Pow2(31) == TWO32;
    Pow2Sum(32, 32);
  }

  /** x << n without a word size, and x >> n. */
  function Shl(x: int, n: nat): int { if n == 0 then x else 2 * Shl(x, n - 1) }

  function Shr(x: int, n: nat): int { if n == 0 then x else Shr(x, n - 1) / 2 }

  lemma {:induction false} ShlIsProduct(x: int, n: nat)
    ensures Shl(x, n) == x * Pow2(n)
  {
    if n > 0 {
      ShlIsProduct(x, n - 1);
      MoveFactor(x, Pow2(n - 1));
    }
  }

  lemma MoveFactor(x: int, y: int)
    ensures x * (2 * y) == 2 * (x * y)
  {
  }

  lemma {:induction false} ShrBelow(x: int, n: nat, k: nat)
    requires 0 <= x < Pow2(n + k)
    ensures 0 <= Shr(x, n) < Pow2(k)
  {
    if n > 0 {
      ShrBelow(x, n - 1, k + 1);
    }
  }

  lemma DoubledQuotient(q: int, c: int, k: int)
    ensures (2 * q + k) * c == 2 * (q * c) + k * c
  {
  }

  /** The state of the division before the bit i of a0 is taken: a1 is the remainder below c of what has been
      shifted in, q its quotient, and t1 is q on top of what the register held before, modulo 2^64. */
  ghost predicate Dividing(high: int, a0: int, c: int, stale: int, i: int, a1: int, t1: int, q: int)
    requires -1 <= i <= 63
  {
    && 0 <= a1 < c && 0 <= q
    && Shl(high, 63 - i) + Shr(a0, i + 1) == q * c + a1
    && t1 == (Shl(stale, 63 - i) + q) % TWO64
  }

  lemma DivisionStart(high: int, a0: int, c: int, stale: int)
    requires 0 <= high < c && 0 <= a0 < TWO64 && 0 <= stale < TWO64
    ensures Dividing(high, a0, c, stale, 63, high, stale, 0)
  {
    Pow2Values();
    ShrBelow(a0, 64, 0);
  }

  lemma DivisionStep(high: int, a0: int, c: int, stale: int, i: nat, a1: int, t1: int, q: int,
                     k: int, rem: int, quo: int)
    requires i <= 63 && Dividing(high, a0, c, stale, i, a1, t1, q)
    requires 0 <= k <= 1 && 0 <= rem < c && rem == a1 + a1 + Shr(a0, i) % 2 - k * c && quo == (2 * t1 + k) % TWO64
    ensures Dividing(high, a0, c, stale, i - 1, rem, quo, 2 * q + k)
  {
    DoubledQuotient(q, c, k);
    QuotientRegister(Shl(stale, 63 - i), q, k);
    assert Shr(a0, i + 1) == Shr(a0, i) / 2;
    assert Shl(high, 64 - i) == 2 * Shl(high, 63 - i) && Shl(stale, 64 - i) == 2 * Shl(stale, 63 - i);
  }

  lemma DivisionEnd(high: int, a0: int, c: int, stale: int, a1: int, t1: int, q: int)
    requires 0 <= high < c && 0 <= a0 < TWO64 && Dividing(high, a0, c, stale, -1, a1, t1, q)
    ensures t1 == (high * TWO64 + a0) / c
  {
    Pow2Values();
    ShlIsProduct(high, 64);
    assert Shr(a0, 0) == a0;
    DivUnique(high * TWO64 + a0, c, q);
    Multiples(high, c, TWO64);
    Multiples(TWO64, q, c);
    assert TWO64 * c == c * TWO64;
    ShiftedOut(stale, q);
  }

  /** The register t1 is the quotient so far on top of what it held before, modulo 2^64. */
  lemma ShiftedOut(stale: int, q: int)
    requires 0 <= q < TWO64
    ensures (Shl(stale, 64) + q) % TWO64 == q
  {
    Pow2Values();
    ShlIsProduct(stale, 64);
  }

  /** One pass of the loop body: the next quotient bit k goes into t1, the remainder stays below c. */
  method DivisionRound(a1: int, t1: int, bit: int, c: int) returns (rem: int, quo: int, ghost k: int)
    requires 0 < c < TWO63 && 0 <= a1 < c && 0 <= t1 < TWO64 && 0 <= bit <= 1
    ensures 0 <= k <= 1 && 0 <= rem < c && rem == a1 + a1 + bit - k * c
    ensures quo == (2 * t1 + k) % TWO64
  {
    rem := (a1 + (a1 + bit)) % TWO64;
    quo := (t1 + t1) % TWO64;
    k := 0;
    if c <= rem {
      rem := rem - c;
      quo := (quo + 1) % TWO64;
      k := 1;
    }
  }

  lemma QuotientRegister(s: int, q: int, k: int)
    ensures (2 * ((s + q) % TWO64) + k) % TWO64 == (2 * s + (2 * q + k)) % TWO64
  {
    assert s + q == (s + q) / TWO64 * TWO64 + (s + q) % TWO64;
  }

  /** The 64-step restoring division of (a1, a0) by c.  The register t1 may hold anything at
      the start: what it held is shifted out. */
  method DivideWide(high: int, a0: int, c: int, stale: int) returns (t1: int)
    requires 0 < c < TWO63 && 0 <= high < c && 0 <= a0 < TWO64 && 0 <= stale < TWO64
    ensures t1 == (high * TWO64 + a0) / c
  {
    var a1 := high;
    t1 := stale;
    var i := 63;
    ghost var q := 0;
    DivisionStart(high, a0, c, stale);
    while i >= 0
      invariant -1 <= i <= 63 && 0 <= a1 < c && 0 <= t1 < TWO64
      invariant Dividing(high, a0, c, stale, i, a1, t1, q)
    {
      var rem, quo, k := DivisionRound(a1, t1, Shr(a0, i) % 2, c);
      DivisionStep(high, a0, c, stale, i, a1, t1, q, k, rem, quo);
      a1, t1, q := rem, quo, 2 * q + k;
      i := i - 1;
    }
    DivisionEnd(high, a0, c, stale, a1, t1, q);
  }

  lemma NegationOfRoundTo(n: int, c: int, rnd: Rounding)
    requires n >= 0 && c > 0
    ensures RoundTo(-n, c, rnd) == -RoundTo(n, c, rnd.Flip())
  {
    if n == 0 {
      DivUnique(Offset(c, rnd), c, 0);
      DivUnique(Offset(c, rnd.Flip()), c, 0);
    }
  }

  /** The paths for operands that fit in 31 bits: no intermediate value leaves 64 bits. */
  method RescaleSmall(a: int, b: int, c: int, r: int) returns (q: int)
    requires 0 <= a && 0 <= b <= INT_MAX && 0 <= r < c <= INT_MAX
    requires (a * b + r) / c < TWO63
    ensures q == (a * b + r) / c
  {
    if a <= INT_MAX {
      ProductBound(a, b, INT_MAX + 1, INT_MAX + 1);
      assert 0 <= a * b + r < TWO63;
      q := (a * b + r) / c;
    } else {
      DivideFirst(a, b, c, r);
      ProductBound(a % c, b, INT_MAX + 1, INT_MAX + 1);
      assert 0 <= a / c * b < TWO63 && 0 <= a % c * b + r < TWO63;
      q := a / c * b + (a % c * b + r) / c;
    }
  }

  /** av_rescale_rnd: the exact rational a*b/c, rounded as asked, on every path. */
  method RescaleRnd(a: int, b: int, c: int, rnd: Rounding) returns (q: int)
    requires Int64(a) && 0 <= b < TWO63 && 0 < c < TWO63
    requires Int64(RoundTo(a * b, c, rnd))
    ensures IsRounded(q, a * b, c, rnd)
    ensures q == RoundTo(a * b, c, rnd)
    decreases a < 0
  {
    if a < 0 {
      NonNegative(-a, b);
      assert (-a) * b == -(a * b);
      NegationOfRoundTo((-a) * b, c, rnd);
      var m := RescaleRnd(-a, b, c, rnd.Flip());
      return -m;
    }
    var r := Offset(c, rnd);
    NonNegative(a, b);
    assert RoundTo(a * b, c, rnd) == (a * b + r) / c;
    if b <= INT_MAX && c <= INT_MAX {
      q := RescaleSmall(a, b, c, r);
    } else {
      var a1, a0, t1 := WideProduct(a, b, r);
      HighWordSmall(a1, a0, c);
      q := DivideWide(a1, a0, c, t1);
    }
  }

  lemma HighWordSmall(a1: int, a0: int, c: int)
    requires 0 <= a1 && 0 <= a0 < TWO64 && 0 < c && (a1 * TWO64 + a0) / c < TWO63
    ensures a1 < c
  {
    QuotientBounds(a1 * TWO64 + a0, c);
    Multiples((a1 * TWO64 + a0) / c, TWO63, c);
  }

  // ---------------------------------------------------------------- time bases and timestamps

  /** A rational of two 32-bit integers. */
  datatype Rational = Rational(num: int, den: int) {
    predicate IsInt32() { -INT_MAX - 1 <= num <= INT_MAX && -INT_MAX - 1 <= den <= INT_MAX }

    predicate Positive() { 0 < num <= INT_MAX && 0 < den <= INT_MAX }
  }

  lemma AbsOfProduct(x: int, y: int)
    ensures Abs(x * y) == Abs(x) * Abs(y)
  {
    if x < 0 { assert (-x) * y == -(x * y); }
    if y < 0 { assert Abs(x) * (-y) == -(Abs(x) * y); }
    if x == 0 || y == 0 {
    } else {
      NonNegative(Abs(x), Abs(y));
    }
  }

  /** The product of two 32-bit integers fits in 64 bits. */
  lemma ProductFits(x: int, y: int)
    requires Abs(x) <= INT_MAX + 1 && Abs(y) <= INT_MAX + 1
    ensures Int64(x * y)
  {
    AbsOfProduct(x, y);
    ProductBound(Abs(x), Abs(y), INT_MAX + 2, INT_MAX + 2);
  }

  /** The common scale of x / y. */
  function Cross(x: Rational, y: Rational): (c: int)
    requires x.Positive() && y.Positive()
    ensures 0 < c < TWO63
  {
    ProductFits(x.num, y.den);
    NonNegative(x.num - 1, y.den);
    assert x.num * y.den == (x.num - 1) * y.den + y.den;
    x.num * y.den
  }

  /** av_rescale_q_rnd: a * bq / cq. */
  method RescaleQRnd(a: int, bq: Rational, cq: Rational, rnd: Rounding) returns (q: int)
    requires Int64(a) && bq.IsInt32() && cq.IsInt32()
    requires bq.num * cq.den >= 0 && cq.num * bq.den > 0
    requires Int64(RoundTo(a * (bq.num * cq.den), cq.num * bq.den, rnd))
    ensures IsRounded(q, a * (bq.num * cq.den), cq.num * bq.den, rnd)
  {
    ProductFits(bq.num, cq.den);
    ProductFits(cq.num, bq.den);
    q := RescaleRnd(a, bq.num * cq.den, cq.num * bq.den, rnd);
  }

  /** Bitwise or of two non-negative integers. */
  function BitOr(x: nat, y: nat): nat
    decreases x + y
  {
    if x == 0 && y == 0 then 0
    else 2 * BitOr(x / 2, y / 2) + (if x % 2 == 1 || y % 2 == 1 then 1 else 0)
  }

  /** An or stays below a power of two exactly when both operands do. */
  lemma {:induction false} BitOrBelow(x: nat, y: nat, k: nat)
    ensures BitOr(x, y) < Pow2(k) <==> x < Pow2(k) && y < Pow2(k)
    decreases k
  {
    if k == 0 {
      if BitOr(x, y) == 0 { BitOrZero(x, y); }
    } else {
      BitOrBelow(x / 2, y / 2, k - 1);
    }
  }

  lemma {:induction false} BitOrZero(x: nat, y: nat)
    requires BitOr(x, y) == 0
    ensures x == 0 && y == 0
    decreases x + y
  {
    if x != 0 || y != 0 {
      BitOrZero(x / 2, y / 2);
    }
  }

  /** The guard of the fast path: every operand fits in 31 bits. */
  lemma FastGuard(w: nat, x: nat, y: nat, z: nat)
    ensures BitOr(BitOr(BitOr(w, x), y), z) <= INT_MAX
       <==> w <= INT_MAX && x <= INT_MAX && y <= INT_MAX && z <= INT_MAX
  {
    Pow2Values();
    BitOrBelow(w, x, 31);
    BitOrBelow(BitOr(w, x), y, 31);
    BitOrBelow(BitOr(BitOr(w, x), y), z, 31);
  }

  /** A floor is below an integer exactly when the rational is. */
  lemma FloorBelow(n: int, c: int, t: int)
    requires c > 0
    ensures RoundTo(n, c, Down) < t <==> n < t * c
  {
    var q := RoundTo(n, c, Down);
    Multiples(q, t, c);
    if t < q { Multiples(t, q, c); }
  }

  /** av_compare_ts: the order of two instants given in two time bases, computed exactly. */
  method CompareTs(tsA: int, tbA: Rational, tsB: int, tbB: Rational) returns (r: int)
    requires Int64(tsA) && Int64(tsB) && tbA.Positive() && tbB.Positive()
    requires Int64(RoundTo(tsA * Cross(tbA, tbB), Cross(tbB, tbA), Down))
    requires tsA * Cross(tbA, tbB) >= tsB * Cross(tbB, tbA)
         ==> Int64(RoundTo(tsB * Cross(tbB, tbA), Cross(tbA, tbB), Down))
    ensures r == 1 || r == 0 || r == -1
    ensures r == -1 <==> tsA * (tbA.num * tbB.den) < tsB * (tbB.num * tbA.den)
    ensures r == 1 <==> tsA * (tbA.num * tbB.den) > tsB * (tbB.num * tbA.den)
  {
    var a := Cross(tbA, tbB);
    var b := Cross(tbB, tbA);
    if BitOr(BitOr(BitOr(Abs(tsA), a), Abs(tsB)), b) <= INT_MAX {
      FastGuard(Abs(tsA), a, Abs(tsB), b);
      ProductFits(tsA, a);
      ProductFits(tsB, b);
      return (if tsA * a > tsB * b then 1 else 0) - (if tsA * a < tsB * b then 1 else 0);
    }
    FloorBelow(tsA * a, b, tsB);
    var ra := RescaleRnd(tsA, a, b, Down);
    if ra < tsB {
      return -1;
    }
    FloorBelow(tsB * b, a, tsA);
    var rb := RescaleRnd(tsB, b, a, Down);
    if rb < tsA {
      return 1;
    }
    return 0;
  }
}
