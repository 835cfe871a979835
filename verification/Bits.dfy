/** Four-state bit vectors, as `RTLIL::Const` holds them, and their integer readings.
    Index 0 is the least significant bit. */
module Bits {

  /** The values of `RTLIL::State`, in the order of the enumeration. */
  datatype State = S0 | S1 | Sx | Sz | Sa | Sm

  type Const = seq<State>

  predicate IsDef(s: State) {
    s.S0? || s.S1?
  }

  predicate Defined(c: Const) {
    forall i :: 0 <= i < |c| ==> IsDef(c[i])
  }

  function ToState(b: bool): State {
    if b then S1 else S0
  }

  function Max(a: int, b: int): int {
    if a >= b then a else b
  }

  function Min(a: int, b: int): int {
    if a <= b then a else b
  }

  // ----- Powers of two, and division by them

  function Pow2(n: nat): (p: int)
    ensures p >= 1
  {
    if n == 0 then 1 else 2 * Pow2(n - 1)
  }

  lemma {:induction false} Pow2Add(a: nat, b: nat)
    ensures Pow2(a + b) == Pow2(a) * Pow2(b)
  {
    if a == 0 {
    } else {
      Pow2Add(a - 1, b);
      assert Pow2(a + b) == 2 * (Pow2(a - 1) * Pow2(b)) == (2 * Pow2(a - 1)) * Pow2(b);
    }
  }

  lemma {:induction false} Pow2Mono(a: nat, b: nat)
    requires a <= b
    ensures Pow2(a) <= Pow2(b)
    decreases b
  {
    if a < b {
      Pow2Mono(a, b - 1);
    }
  }

  /** The smallest `k` with `2^k >= n`. */
  function CeilLog2(n: nat): (k: nat)
    ensures n <= Pow2(k) && (k > 0 ==> Pow2(k - 1) < n)
  {
    if n <= 1 then 0 else 1 + CeilLog2((n + 1) / 2)
  }

  /** Quotient and remainder are determined by the division equation. */
  lemma {:induction false} DivModUnique(n: int, m: nat, q: int, r: int)
    requires m > 0 && 0 <= r < m && n == q * m + r
    ensures n / m == q && n % m == r
  {
    DivEquationUnique(m, q, r, n / m, n % m);
  }

  lemma {:induction false} DivEquationUnique(m: nat, q: int, r: int, q': int, r': int)
    requires 0 <= r < m && 0 <= r' < m && q * m + r == q' * m + r'
    ensures q == q' && r == r'
  {
    assert (q - q') * m == q * m - q' * m;
    if q > q' {
      ProductAtLeast(q - q', m);
    } else if q < q' {
      ProductAtLeast(q' - q, m);
    }
  }

  lemma {:induction false} ProductAtLeast(k: int, m: nat)
    requires k >= 1
    ensures k * m >= m
  {
  }

  lemma {:induction false} ModAddMultiple(n: int, m: nat, k: int)
    requires m > 0
    ensures (n + k * m) % m == n % m
    ensures (n + k * m) / m == n / m + k
  {
    assert n + k * m == (n / m + k) * m + n % m;
    DivModUnique(n + k * m, m, n / m + k, n % m);
  }

  /** Two integers agree modulo `m` exactly when they differ by a multiple of it. */
  lemma {:induction false} ModEqDiff(a: int, b: int, m: nat) returns (k: int)
    requires m > 0 && a % m == b % m
    ensures a == b + k * m
  {
    k := a / m - b / m;
    assert a == a / m * m + a % m && b == b / m * m + b % m;
  }

  /** Reducing modulo a multiple first does not change a remainder. */
  lemma {:induction false} ModMod(n: int, m: nat, k: nat)
    requires m > 0 && k > 0
    ensures m * k > 0
    ensures (n % (m * k)) % m == n % m
    ensures (n / m) / k == n / (m * k)
    ensures (n % (m * k)) / m == (n / m) % k
  {
    var q, r := n / m, n % m;
    var q2, r2 := q / k, q % k;
    var low := r2 * m + r;
    Regroup(q2, k, r2, m, r);
    assert low < m * k by {
      MulMono(r2, k - 1, m);
      assert (k - 1) * m == m * k - m;
    }
    ProductAtLeast(k, m);
    DivModUnique(n, m * k, q2, low);
    DivModUnique(low, m, r2, r);
  }

  lemma {:induction false} Regroup(q2: int, k: int, r2: int, m: int, r: int)
    ensures (q2 * k + r2) * m + r == q2 * (m * k) + (r2 * m + r)
  {
  }

  lemma {:induction false} MulMono(a: int, b: int, m: nat)
    requires a <= b
    ensures a * m <= b * m
  {
  }

  lemma {:induction false} AddMod(x: int, x': int, y: int, m: nat)
    requires m > 0 && x % m == x' % m
    ensures (x + y) % m == (x' + y) % m
  {
    var k := ModEqDiff(x, x', m);
    ModAddMultiple(x' + y, m, k);
  }

  lemma {:induction false} SubMod(x: int, y: int, y': int, m: nat)
    requires m > 0 && y % m == y' % m
    ensures (x - y) % m == (x - y') % m
  {
    var k := ModEqDiff(y', y, m);
    ModAddMultiple(x - y', m, k);
  }

  /** Sums and differences agree modulo `m` when their operands do. */
  lemma {:induction false} SumMod(x: int, x': int, y: int, y': int, m: nat)
    requires m > 0 && x % m == x' % m && y % m == y' % m
    ensures (x + y) % m == (x' + y') % m && (x - y) % m == (x' - y') % m
  {
    AddMod(x, x', y, m);
    AddMod(y, y', x', m);
    AddMod(x, x', 0 - y, m);
    SubMod(x', y, y', m);
  }

  lemma {:induction false} ModIdempotent(n: int, m: nat)
    requires m > 0
    ensures (n % m) % m == n % m
  {
    ModSmall(n % m, m);
  }

  lemma {:induction false} ModSmall(n: int, m: nat)
    requires 0 <= n < m
    ensures n % m == n && n / m == 0
  {
    DivModUnique(n, m, 0, n);
  }

  lemma {:induction false} ModNegative(n: int, m: nat)
    requires 0 - m <= n < 0
    ensures n % m == n + m && n / m == -1
  {
    DivModUnique(n, m, -1, n + m);
  }

  // ----- Bits of an integer (two's complement, any sign)

  predicate Bit(n: int, i: nat) {
    n / Pow2(i) % 2 == 1
  }

  lemma {:induction false} BitOfMod(n: int, w: nat, i: nat)
    requires i < w
    ensures Bit(n % Pow2(w), i) == Bit(n, i)
  {
    Pow2Add(i, w - i);
    ModMod(n, Pow2(i), Pow2(w - i));
    ModMod(n / Pow2(i), 2, Pow2(w - i - 1));
  }

  lemma {:induction false} BitModEq(n: int, m: int, w: nat, i: nat)
    requires i < w && n % Pow2(w) == m % Pow2(w)
    ensures Bit(n, i) == Bit(m, i)
  {
    BitOfMod(n, w, i);
    BitOfMod(m, w, i);
  }

  /** The low `i+1` bits are the low `i` bits plus the weight of bit `i`. */
  lemma {:induction false} ModStep(n: int, i: nat)
    ensures n % Pow2(i + 1) == n % Pow2(i) + if Bit(n, i) then Pow2(i) else 0
  {
    assert Pow2(i + 1) == Pow2(i) * 2;
    ModMod(n, Pow2(i), 2);
    var x := n % Pow2(i + 1);
    assert x == x / Pow2(i) * Pow2(i) + x % Pow2(i);
  }

  // ----- Integer readings of a vector

  /** The number whose bit `i` is set exactly where `c[i]` is `one`. */
  function Mag(c: Const, one: State): (v: nat)
    ensures v < Pow2(|c|)
  {
    if |c| == 0 then 0
    else
      var n := |c| - 1;
      Mag(c[..n], one) + if c[n] == one then Pow2(n) else 0
  }

  function UVal(c: Const): (v: nat)
    ensures v < Pow2(|c|)
  {
    Mag(c, S1)
  }

  predicate IsNeg(c: Const) {
    |c| > 0 && c[|c| - 1] == S1
  }

  function SVal(c: Const): int {
    if IsNeg(c) then UVal(c) - Pow2(|c|) else UVal(c)
  }

  function Val(c: Const, signed: bool): int {
    if signed then SVal(c) else UVal(c)
  }

  /** The low `w` bits of `n` in two's complement. */
  function FromInt(n: int, w: nat): (c: Const)
    ensures |c| == w && Defined(c)
  {
    seq(w, i requires 0 <= i => ToState(Bit(n, i)))
  }

  lemma {:induction false} MagPrefix(c: Const, one: State, k: nat)
    requires k <= |c|
    ensures Mag(c[..k], one) == Mag(c, one) % Pow2(k)
  {
    if k == |c| {
      assert c[..k] == c;
      ModSmall(Mag(c, one), Pow2(k));
    } else {
      var n := |c| - 1;
      MagPrefix(c[..n], one, k);
      assert c[..n][..k] == c[..k];
      Pow2Add(n - k, k);
      ModAddMultiple(Mag(c[..n], one), Pow2(k), Pow2(n - k));
    }
  }

  lemma {:induction false} BitOfMag(c: Const, one: State, i: nat)
    requires i < |c|
    ensures Bit(Mag(c, one), i) == (c[i] == one)
  {
    MagPrefix(c, one, i);
    MagPrefix(c, one, i + 1);
    ModStep(Mag(c, one), i);
    assert c[..i + 1][..i] == c[..i];
  }

  lemma {:induction false} UValPrefix(c: Const, k: nat)
    requires k <= |c|
    ensures UVal(c[..k]) == UVal(c) % Pow2(k)
  {
    MagPrefix(c, S1, k);
  }

  lemma {:induction false} UValFromInt(n: int, w: nat)
    ensures UVal(FromInt(n, w)) == n % Pow2(w)
  {
    if w > 0 {
      UValFromInt(n, w - 1);
      assert FromInt(n, w)[..w - 1] == FromInt(n, w - 1);
      ModStep(n, w - 1);
    }
  }

  lemma {:induction false} FromIntUVal(c: Const)
    requires Defined(c)
    ensures FromInt(UVal(c), |c|) == c
  {
    forall i | 0 <= i < |c|
      ensures FromInt(UVal(c), |c|)[i] == c[i]
    {
      BitOfMag(c, S1, i);
    }
  }

  /** Truncating to `w` bits forgets exactly the multiples of `2^w`. */
  lemma {:induction false} FromIntCong(n: int, m: int, w: nat)
    ensures FromInt(n, w) == FromInt(m, w) <==> n % Pow2(w) == m % Pow2(w)
  {
    UValFromInt(n, w);
    UValFromInt(m, w);
    if n % Pow2(w) == m % Pow2(w) {
      forall i | 0 <= i < w
        ensures FromInt(n, w)[i] == FromInt(m, w)[i]
      {
        BitModEq(n, m, w, i);
      }
    }
  }

  lemma {:induction false} SValFromInt(n: int, w: nat)
    requires w > 0 && -Pow2(w - 1) <= n < Pow2(w - 1)
    ensures SVal(FromInt(n, w)) == n
  {
    UValFromInt(n, w);
    if n >= 0 {
      ModSmall(n, Pow2(w));
    } else {
      ModNegative(n, Pow2(w));
    }
    SignFromUVal(FromInt(n, w));
  }

  /** The top bit is set exactly in the upper half of the range. */
  lemma {:induction false} SignFromUVal(c: Const)
    requires |c| > 0
    ensures IsNeg(c) <==> UVal(c) >= Pow2(|c| - 1)
    ensures -Pow2(|c| - 1) <= SVal(c) < Pow2(|c| - 1)
  {
  }

  lemma {:induction false} ValMod(c: Const, signed: bool)
    ensures Val(c, signed) % Pow2(|c|) == UVal(c)
  {
    ModSmall(UVal(c), Pow2(|c|));
    ModAddMultiple(UVal(c), Pow2(|c|), -1);
  }

  /** Bit `i` of the extension of `c` to any width: past the end, the sign bit or zero. */
  function ExtBit(c: Const, signed: bool, i: nat): State {
    if i < |c| then c[i]
    else if signed && |c| > 0 then c[|c| - 1]
    else S0
  }

  /** `c` brought to `w` bits, by truncation or by sign or zero extension. */
  function Extend(c: Const, w: nat, signed: bool): (r: Const)
    ensures |r| == w
    ensures Defined(c) ==> Defined(r)
  {
    seq(w, i requires 0 <= i => ExtBit(c, signed, i))
  }

  /** Extension keeps the value modulo `2^w`. */
  lemma {:induction false} ExtendMod(c: Const, w: nat, signed: bool)
    ensures UVal(Extend(c, w, signed)) == Val(c, signed) % Pow2(w)
  {
    var e := Extend(c, w, signed);
    if w <= |c| {
      assert e == c[..w];
      UValPrefix(c, w);
      Pow2Add(w, |c| - w);
      ModMod(Val(c, signed), Pow2(w), Pow2(|c| - w));
      ValMod(c, signed);
    } else {
      ExtendMod(c, w - 1, signed);
      assert e[..w - 1] == Extend(c, w - 1, signed);
      HighBit(c, w - 1, signed);
      ModStep(Val(c, signed), w - 1);
    }
  }

  /** Past the end of a vector, every bit of its value is the extension bit. */
  lemma {:induction false} HighBit(c: Const, i: nat, signed: bool)
    requires i >= |c|
    ensures Bit(Val(c, signed), i) == (ExtBit(c, signed, i) == S1)
  {
    Pow2Mono(|c|, i);
    var v := Val(c, signed);
    if v >= 0 {
      ModSmall(v, Pow2(i));
    } else {
      ModNegative(v, Pow2(i));
    }
  }

  lemma {:induction false} ExtendVal(c: Const, w: nat, signed: bool)
    requires w >= |c|
    ensures Val(Extend(c, w, signed), signed) == Val(c, signed)
  {
    ExtendMod(c, w, signed);
    Pow2Mono(|c|, w);
    var v := Val(c, signed);
    if v >= 0 {
      ModSmall(v, Pow2(w));
    } else {
      ModNegative(v, Pow2(w));
    }
  }

  /** A defined vector is its value, bit by bit, at every width. */
  lemma {:induction false} ExtendFromInt(c: Const, w: nat, signed: bool)
    requires Defined(c)
    ensures Extend(c, w, signed) == FromInt(Val(c, signed), w)
  {
    ExtendMod(c, w, signed);
    FromIntUVal(Extend(c, w, signed));
    ModIdempotent(Val(c, signed), Pow2(w));
    FromIntCong(Val(c, signed) % Pow2(w), Val(c, signed), w);
  }

  lemma {:induction false} ZeroBits(c: Const)
    requires forall i :: 0 <= i < |c| ==> c[i] == S0
    ensures UVal(c) == 0
  {
    if |c| > 0 {
      ZeroBits(c[..|c| - 1]);
    }
  }

  /** A vector whose low `k` bits are zero is a multiple of `2^k`. */
  lemma {:induction false} AlignedValue(c: Const, k: nat)
    requires k <= |c| && forall i :: 0 <= i < k ==> c[i] == S0
    ensures UVal(c) % Pow2(k) == 0
  {
    if |c| == k {
      ZeroBits(c);
    } else {
      var n := |c| - 1;
      AlignedValue(c[..n], k);
      var u: int := UVal(c[..n]);
      if c[n] == S1 {
        PowerStep(u, k, n);
      }
    }
  }

  lemma {:induction false} PowerStep(u: int, k: nat, n: nat)
    requires k <= n && u % Pow2(k) == 0
    ensures (u + Pow2(n)) % Pow2(k) == 0
  {
    Pow2Add(k, n - k);
    AddProduct(u, Pow2(k), Pow2(n - k), Pow2(n));
  }

  lemma {:induction false} AddProduct(u: int, m: nat, j: int, x: int)
    requires m > 0 && x == m * j && u % m == 0
    ensures (u + x) % m == 0
  {
    ModAddMultiple(u, m, j);
    assert j * m == m * j;
  }

  lemma {:induction false} FromIntZero(len: nat)
    ensures FromInt(0, len) == seq(len, _ => S0)
  {
    forall i | 0 <= i < len ensures FromInt(0, len)[i] == S0 {
      ModSmall(0, Pow2(i));
    }
  }

  // ----- Words of a memory

  /** The bit position of word `n` in a memory of `w`-bit words. */
  function Off(w: nat, n: int): int {
    n * w
  }

  lemma {:induction false} OffAdd(w: nat, a: int, b: int)
    ensures Off(w, a + b) == Off(w, a) + Off(w, b)
  {
  }

  lemma {:induction false} OffMono(w: nat, a: int, b: int)
    requires a <= b
    ensures Off(w, a) <= Off(w, b)
  {
    MulMono(a, b, w);
  }

  /** Word `s` of `n` words that follow one another. */
  function WordOf<T>(width: nat, flat: seq<T>, n: nat, s: nat): (w: seq<T>)
    requires |flat| == Off(width, n) && s < n
    ensures |w| == width
  {
    OffMono(width, 0, s);
    OffMono(width, s + 1, n);
    OffAdd(width, s, 1);
    flat[Off(width, s)..Off(width, s) + width]
  }
}
