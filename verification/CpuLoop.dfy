/** When the loop that sets the CPUs of a range comes to an end. The counter is 32 bits wide
    and the loop has no other exit than exceeding the end of the range. */
module CpuLoop {
  import opened Words
  import opened Bits
  import opened Arithmetic
  import opened CpuList

  /** The largest power of two that divides both the stride and 2^32. */
  function Granule(stride: u32): (g: nat)
    ensures 1 <= g
  {
    if stride == 0 then U32 else TwoPart(stride)
  }

  function TwoPart(n: nat): (g: nat)
    requires 0 < n
    ensures 1 <= g <= n
  {
    if n % 2 == 1 then 1 else 2 * TwoPart(n / 2)
  }

  lemma {:induction false} TwoPartFactors(n: nat, w: nat) returns (e: nat, m: nat)
    requires 0 < n < Pow2(w)
    ensures e < w && TwoPart(n) == Pow2(e) && n == Pow2(e) * m && m % 2 == 1
    decreases n
  {
    if n % 2 == 1 {
      e, m := 0, n;
    } else {
      e, m := TwoPartFactors(n / 2, w - 1);
      assert n == 2 * (Pow2(e) * m) == (2 * Pow2(e)) * m;
      e := e + 1;
    }
  }

  lemma HalveEven(x: int, r: int, p: int, q: int, h: int)
    requires x == r + p * q && q == 2 * h
    ensures x == r + (2 * p) * h
  {
    Regroup(p, 2, h);
  }

  lemma HalveOdd(m: int, k: int, r: int, p: int, q: int, h: int)
    requires m * k == r + p * q && q + m == 2 * h
    ensures m * (k + p) == r + (2 * p) * h
  {
    Distribute(m, k, p);
    Distribute(p, q, m);
    HalveEven(m * (k + p), r, p, q + m, h);
  }

  /** Multiples of an odd number reach every remainder modulo a power of two. */
  lemma {:induction false} OddReaches(m: nat, r: int, j: nat) returns (k: nat, q: int)
    requires m % 2 == 1
    ensures m * k == r + Pow2(j) * q
    decreases j
  {
    if j == 0 {
      k, q := 0, -r;
    } else {
      k, q := OddReaches(m, r, j - 1);
      if q % 2 == 0 {
        HalveEven(m * k, r, Pow2(j - 1), q, q / 2);
        q := q / 2;
      } else {
        HalveOdd(m, k, r, Pow2(j - 1), q, (q + m) / 2);
        k, q := k + Pow2(j - 1), (q + m) / 2;
      }
    }
  }

  /** Numbers that differ from a by multiples of g stay below the last such number of any
      range that g divides. */
  lemma CosetBelow(a: nat, g: nat, n: int, p: int, w: int, x: nat)
    requires 1 <= g && a + g * n == (g * p) * w + x && x < g * p
    ensures x <= g * p - g + a % g
  {
    var d, r := a / g, a % g;
    var z := d + n - p * w;
    assert a == g * d + r;
    Regroup(g, p, w);
    Distribute(g, d, n);
    Distribute(g, d + n, -(p * w));
    assert g * -(p * w) == -(g * (p * w));
    assert x == r + g * z;
    MulOrder(g, p, z);
    MulOrder(g, z, p);
  }

  /** The counter only takes values that agree with a modulo the granule; none exceeds the
      largest such value. */
  lemma CounterBelow(t: Token, k: nat, e: nat, m: nat)
    requires t.Range? && e <= 32 && t.stride == Pow2(e) * m
    ensures Counter(t, k) <= U32 - Pow2(e) + t.a % Pow2(e)
  {
    Pow2Sum(e, 32 - e);
    Pow2Of32();
    hide Pow2;
    var total := t.a + k * t.stride;
    Regroup(Pow2(e), m, k);
    assert k * t.stride == t.stride * k;
    CosetBelow(t.a, Pow2(e), m * k, Pow2(32 - e), total / U32, total % U32);
  }

  /** The last number of the range that agrees with a modulo g differs from a by a multiple
      of g, plus any multiple of the whole range. */
  lemma CosetTop(a: nat, g: nat, n: int, p: int, q: int)
    requires 1 <= g && n == p - 1 - a / g + p * q
    ensures a + g * n == (g * p) * q + (g * p - g + a % g)
  {
    var d := a / g;
    assert a == g * d + a % g;
    Distribute(g, p - 1 - d, p * q);
    Regroup(g, p, q);
    Distribute(g, p, -1 - d);
    Distribute(g, -1, -d);
    assert g * -d == -(g * d);
  }

  /** ... and that largest value is reached. */
  lemma CounterReaches(t: Token, e: nat, m: nat) returns (k: nat)
    requires t.Range? && e <= 32 && t.stride == Pow2(e) * m && m % 2 == 1
    ensures Counter(t, k) == U32 - Pow2(e) + t.a % Pow2(e)
  {
    var g, p := Pow2(e), Pow2(32 - e);
    Pow2Sum(e, 32 - e);
    Pow2Of32();
    hide Pow2;
    var q;
    k, q := OddReaches(m, p - 1 - t.a / g, 32 - e);
    CosetTop(t.a, g, m * k, p, q);
    Regroup(g, m, k);
    assert k * t.stride == t.stride * k;
    MulOrder(g, 1, p);
    DivMod(q, U32 - g + t.a % g, U32);
  }

  /** The loop never ends exactly when the end of the range is at or above the largest
      number below 2^32 that agrees with the start modulo the granule of the stride. */
  lemma HangsExactly(t: Token)
    requires Good(t)
    ensures Hangs(t) <==> U32 - Granule(t.stride) + t.a % Granule(t.stride) <= t.b
  {
    if t.stride == 0 {
      assert forall k: nat :: Counter(t, k) == t.a;
    } else {
      Pow2Of32();
      var e, m := TwoPartFactors(t.stride, 32);
      hide Counter;
      forall k: nat
        ensures Counter(t, k) <= U32 - Granule(t.stride) + t.a % Granule(t.stride)
      {
        CounterBelow(t, k, e, m);
      }
      var k := CounterReaches(t, e, m);
      assert Counter(t, k) == U32 - Granule(t.stride) + t.a % Granule(t.stride);
    }
  }

  // ---------------------------------------------------------------- what the loop sets

  /** x is one of a, a + stride, a + 2 stride, ... up to b: what the list means to say. */
  predicate Lists(t: Token, x: nat) {
    Good(t) && 1 <= t.stride && t.a <= x <= t.b && (x - t.a) % t.stride == 0
  }

  function Members(t: Token): set<nat> {
    set x: nat | 0 <= x < CPU_SETSIZE && Lists(t, x)
  }

  /** The number of the last round before the counter passes b or wraps around. */
  function Passes(t: Token): nat
    requires Good(t) && 1 <= t.stride
  {
    (t.b - t.a) / t.stride
  }

  /** The last number listed. */
  function Last(t: Token): nat
    requires Good(t) && 1 <= t.stride
  {
    RemainderBelow(t.b - t.a, t.stride);
    t.b - (t.b - t.a) % t.stride
  }

  lemma RemainderBelow(d: nat, s: nat)
    requires 1 <= s
    ensures d % s <= d
  {
    assert d == (d / s) * s + d % s;
    MulNonNegative(d / s, s);
  }

  /** The counter passes b without wrapping around. */
  predicate Unwrapped(t: Token)
    requires Good(t)
  {
    1 <= t.stride && Last(t) + t.stride < U32
  }

  /** The loop sets x after wrapping around. */
  ghost predicate Late(t: Token, x: nat)
    requires Good(t) && 1 <= t.stride
  {
    exists k: nat :: Passes(t) < k && Visits(t, k) && Counter(t, k) == x
  }

  lemma FirstPass(t: Token, i: nat)
    requires Good(t) && 1 <= t.stride && i <= Passes(t)
    ensures Counter(t, i) == t.a + i * t.stride && Lists(t, Counter(t, i))
    ensures i == Passes(t) ==> Counter(t, i) == Last(t)
  {
    var d, s, n := t.b - t.a, t.stride, Passes(t);
    assert d == n * s + d % s;
    MulOrder(s, i, n);
    assert s * i == i * s && s * n == n * s;
    MulNonNegative(i, s);
    DivMod(i, 0, s);
  }

  lemma ListedInFirstPass(t: Token, x: nat) returns (i: nat)
    requires Good(t) && Lists(t, x)
    ensures i <= Passes(t) && Counter(t, i) == x
  {
    var s := t.stride;
    i := (x - t.a) / s;
    assert x - t.a == i * s;
    QuotientOrder(x - t.a, t.b - t.a, s);
    FirstPass(t, i);
  }

  lemma QuotientOrder(x: nat, y: nat, s: nat)
    requires x <= y && 1 <= s
    ensures x / s <= y / s
  {
    var p, q := x / s, y / s;
    assert x == p * s + x % s && y == q * s + y % s;
    MulOrder(s, q, p);
    assert s * p == p * s && s * q == q * s;
  }

  /** After the first pass the counter is above b, or has wrapped around to a number below
      the last one listed. */
  lemma AfterFirstPass(t: Token)
    requires Good(t) && 1 <= t.stride
    ensures var c := Counter(t, Passes(t) + 1);
            if Unwrapped(t) then t.b < c else c == Last(t) + t.stride - U32 < Last(t) <= t.b
  {
    FirstPass(t, Passes(t));
    CounterNext(t, Passes(t));
    LastBounds(t);
    hide Counter, Passes, Last;
    WrapOnce(Last(t), t.stride);
  }

  lemma LastBounds(t: Token)
    requires Good(t) && 1 <= t.stride
    ensures Last(t) <= t.b < Last(t) + t.stride
  {
    var d := t.b - t.a;
    assert 0 <= d % t.stride < t.stride;
  }

  lemma WrapOnce(x: u32, s: u32)
    ensures (x + s) % U32 == if x + s < U32 then x + s else x + s - U32
  {
  }

  /** Every round of the first pass is visited. */
  lemma FirstPassVisited(t: Token, i: nat)
    requires Good(t) && 1 <= t.stride && i <= Passes(t)
    ensures Visits(t, i)
  {
    hide Counter, Passes, Lists;
    forall j: nat | j <= i
      ensures Counter(t, j) <= t.b
    {
      FirstPass(t, j);
      ListedBelow(t, Counter(t, j));
    }
  }

  lemma ListedBelow(t: Token, x: nat)
    requires t.Range? && Lists(t, x)
    ensures x <= t.b
  {
  }

  /** A counter that comes back while the loop runs comes back forever. */
  lemma {:induction false} Periodic(t: Token, j: nat, k: nat, m: nat)
    requires t.Range? && j < k && Counter(t, j) == Counter(t, k) && Visits(t, k)
    ensures Counter(t, m) <= t.b
    decreases m
  {
    if k < m {
      Shifted(t, j, k, m - k);
      Periodic(t, j, k, m - (k - j));
    }
  }

  lemma {:induction false} Shifted(t: Token, j: nat, k: nat, i: nat)
    requires t.Range? && Counter(t, j) == Counter(t, k)
    ensures Counter(t, j + i) == Counter(t, k + i)
    decreases i
  {
    if i != 0 {
      Shifted(t, j, k, i - 1);
      CounterNext(t, j + i - 1);
      CounterNext(t, k + i - 1);
      hide Counter;
    }
  }

  /** What the loop sets is what is listed and what it comes by after wrapping around; the
      two never meet unless the loop hangs. */
  lemma ReachedSplits(t: Token, x: nat)
    requires Good(t) && 1 <= t.stride
    ensures Reached(t, x) <==> Lists(t, x) || Late(t, x)
    ensures !Hangs(t) ==> !(Lists(t, x) && Late(t, x))
  {
    hide Counter, Passes;
    if Reached(t, x) {
      var k: nat :| Visits(t, k) && Counter(t, k) == x;
      if k <= Passes(t) {
        FirstPass(t, k);
      }
    }
    if Lists(t, x) {
      var i := ListedInFirstPass(t, x);
      FirstPassVisited(t, i);
      if Late(t, x) {
        var k: nat :| Passes(t) < k && Visits(t, k) && Counter(t, k) == x;
        forall m: nat
          ensures Counter(t, m) <= t.b
        {
          Periodic(t, i, k, m);
        }
      }
    }
  }

  /** The loop comes by something after wrapping around exactly when it wraps around at all. */
  lemma LateExactly(t: Token)
    requires Good(t) && 1 <= t.stride
    ensures Unwrapped(t) <==> forall x: nat :: !Late(t, x)
    ensures !Unwrapped(t) ==> Late(t, Last(t) + t.stride - U32)
  {
    AfterFirstPass(t);
    var n := Passes(t);
    FirstPassVisited(t, n);
    hide Counter, Passes, Unwrapped, Last;
    if Unwrapped(t) {
      forall k: nat | n < k
        ensures !Visits(t, k)
      {
        assert n + 1 <= k && !(Counter(t, n + 1) <= t.b);
      }
    } else {
      assert Visits(t, n + 1) by {
        forall j: nat | j <= n + 1
          ensures Counter(t, j) <= t.b
        {
          assert j <= n || j == n + 1;
        }
      }
      assert Late(t, Counter(t, n + 1));
    }
  }

  /** A range that ends before its counter wraps around sets exactly what it lists. */
  lemma UnwrappedEnds(t: Token, x: nat)
    requires Good(t) && Unwrapped(t)
    ensures !Hangs(t)
    ensures Reached(t, x) <==> Lists(t, x)
  {
    AfterFirstPass(t);
    LateExactly(t);
    hide Late, Counter, Lists, Passes, Unwrapped;
    ReachedSplits(t, x);
  }

  /** For a range that ends: the numbers the loop comes by are exactly the numbers listed if
      and only if the counter does not wrap around. */
  lemma ReachedExactly(t: Token)
    requires Good(t) && !Hangs(t)
    ensures (forall x: nat :: Reached(t, x) <==> Lists(t, x)) <==> Unwrapped(t)
  {
    StrideZeroHangs(t);
    LateExactly(t);
    hide Hangs, Late, Lists, Reached, Unwrapped, Last;
    forall x: nat
      ensures Reached(t, x) <==> Lists(t, x) || Late(t, x)
      ensures !(Lists(t, x) && Late(t, x))
    {
      ReachedSplits(t, x);
    }
    if !Unwrapped(t) {
      var w: nat :| Late(t, w);
      assert Reached(t, w) && !Lists(t, w);
    }
  }

  lemma StrideZeroHangs(t: Token)
    requires Good(t)
    ensures t.stride == 0 ==> Hangs(t)
  {
    if t.stride == 0 {
      assert forall k: nat :: Counter(t, k) == t.a;
    }
  }

  /** For a range that ends: nothing listed is ever left out of the mask, and the mask gains
      exactly the CPUs listed if and only if no number met after wrapping around is below the
      size of the set. For strides up to that size this means that the counter does not wrap
      around at all. */
  lemma SetsExactly(t: Token)
    requires Good(t) && !Hangs(t)
    ensures 1 <= t.stride && Members(t) <= Sets(t)
    ensures Sets(t) == Members(t) <==> forall x: nat :: x < CPU_SETSIZE ==> !Late(t, x)
    ensures t.stride <= CPU_SETSIZE ==> (Sets(t) == Members(t) <==> Unwrapped(t))
  {
    StrideZeroHangs(t);
    LateExactly(t);
    WrapsBelowStride(t);
    hide Hangs, Late, Lists, Reached, Unwrapped, Last;
    forall x: nat
      ensures Reached(t, x) <==> Lists(t, x) || Late(t, x)
      ensures !(Lists(t, x) && Late(t, x))
    {
      ReachedSplits(t, x);
    }
    assert forall x: nat :: x in Sets(t) <==> x < CPU_SETSIZE && Reached(t, x);
    assert forall x: nat :: x in Members(t) <==> x < CPU_SETSIZE && Lists(t, x);
    if x: nat :| x < CPU_SETSIZE && Late(t, x) {
      assert x in Sets(t) && x !in Members(t);
    }
  }

  lemma WrapsBelowStride(t: Token)
    requires Good(t) && 1 <= t.stride
    ensures Last(t) + t.stride - U32 < t.stride
    ensures !Unwrapped(t) ==> 0 <= Last(t) + t.stride - U32
  {
    assert 0 <= (t.b - t.a) % t.stride;
  }

  /** A range that wraps around and still ends sets a number that it does not list. */
  lemma WrapsToUnlisted(t: Token)
    requires Good(t) && !Hangs(t) && !Unwrapped(t)
    ensures 1 <= t.stride && 0 <= Last(t) + t.stride - U32 < t.stride
    ensures var w := Last(t) + t.stride - U32; Reached(t, w) && !Lists(t, w)
  {
    StrideZeroHangs(t);
    WrapsBelowStride(t);
    LateExactly(t);
    hide Hangs, Late, Lists, Reached, Unwrapped, Last;
    ReachedSplits(t, Last(t) + t.stride - U32);
  }

  const WRAPPED := Range(1, U32 - 2, 3)

  lemma WrappedRange()
    ensures Good(WRAPPED) && !Hangs(WRAPPED) && !Unwrapped(WRAPPED)
    ensures Reached(WRAPPED, 0) && !Lists(WRAPPED, 0) && Members(WRAPPED) < Sets(WRAPPED)
  {
    HangsExactly(WRAPPED);
    assert TwoPart(3) == 1;
    assert Last(WRAPPED) == U32 - 3 && !Unwrapped(WRAPPED);
    hide Hangs;
    WrapsToUnlisted(WRAPPED);
    SetsExactly(WRAPPED);
    hide Reached, Late, Lists;
    assert 0 in Sets(WRAPPED) && 0 !in Members(WRAPPED);
  }

  /** A stride of 0 always hangs; any other stride ends, without wrapping around, when the
      range leaves room for one more stride below 2^32. */
  lemma EndsWithRoom(t: Token)
    requires Good(t) && t.b + t.stride < U32
    ensures Hangs(t) <==> t.stride == 0
    ensures t.stride != 0 ==> Unwrapped(t)
  {
    HangsExactly(t);
    if t.stride != 0 {
      assert 0 <= (t.b - t.a) % t.stride;
    }
    hide Hangs, TwoPart;
  }

  // ---------------------------------------------------------------- whole lists

  /** A list none of whose tokens wraps around does not hang the parser, and the mask is
      exactly the union of what its tokens list. */
  lemma UnwrappedLists(ts: seq<Token>, x: nat)
    requires forall k :: 0 <= k < |ts| ==> Good(ts[k]) && Unwrapped(ts[k])
    ensures forall k :: 0 <= k < |ts| ==> !Hangs(ts[k])
    ensures x in Union(ts) <==> x < CPU_SETSIZE && exists k :: 0 <= k < |ts| && Lists(ts[k], x)
  {
    hide Unwrapped, Lists, Reached, Hangs;
    forall k | 0 <= k < |ts|
      ensures !Hangs(ts[k]) && (Reached(ts[k], x) <==> Lists(ts[k], x))
    {
      UnwrappedEnds(ts[k], x);
    }
  }
}
