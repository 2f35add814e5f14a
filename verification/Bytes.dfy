/**
 Byte strings and the little arithmetic that every other module leans on:
 zero padding, flattening lists of byte strings, and powers.
 */
module ByteStrings {
  newtype Byte = x: int | 0 <= x < 256
  type Bytes = seq<Byte>

  datatype Option<+T> = None | Some(value: T)

  const U64: nat := 0x1_0000_0000_0000_0000

  function Min(a: int, b: int): (m: int)
    ensures m <= a && m <= b && (m == a || m == b)
  {
    if a <= b then a else b
  }

  function Zeros(n: nat): (z: Bytes)
    ensures |z| == n
    ensures forall i :: 0 <= i < n ==> z[i] == 0
  {
    seq(n, _ => 0)
  }

  function Max(a: int, b: int): int {
    if a >= b then a else b
  }

  /** How many bytes of x lie in [from, to). */
  function SliceLength(x: Bytes, from: nat, to: nat): nat {
    if from < Min(to, |x|) then Min(to, |x|) - from else 0
  }

  /** The part of x in [from, to), cut at the end of x. */
  function Slice(x: Bytes, from: nat, to: nat): (s: Bytes)
    ensures |s| == SliceLength(x, from, to)
    ensures forall i :: 0 <= i < |s| ==> s[i] == x[from + i]
  {
    seq(SliceLength(x, from, to), i requires 0 <= i < SliceLength(x, from, to) => x[from + i])
  }

  /** In terms of Dafny's own slices. */
  lemma SliceIs(x: Bytes, from: nat, to: nat)
    requires from <= to <= |x|
    ensures Slice(x, from, to) == x[from..to]
  {
  }

  /** `d` followed by zero bytes up to `size`. */
  function Pad(d: Bytes, size: nat): (p: Bytes)
    requires |d| <= size
    ensures |p| == size && d <= p
    ensures forall i :: |d| <= i < size ==> p[i] == 0
  {
    d + Zeros(size - |d|)
  }

  /** Appending the next piece of `data` to what has been taken of it. */
  lemma TakeMore(base: Bytes, data: Bytes, a: nat, b: nat)
    requires a <= b <= |data|
    ensures base + data[..a] + data[a..b] == base + data[..b]
  {
    assert data[..a] + data[a..b] == data[..b];
  }

  function Concat(parts: seq<Bytes>): Bytes {
    if parts == [] then [] else parts[0] + Concat(parts[1..])
  }

  lemma {:induction false} ConcatSplit(a: seq<Bytes>, b: seq<Bytes>)
    ensures Concat(a + b) == Concat(a) + Concat(b)
  {
    if a == [] {
      assert a + b == b;
    } else {
      assert (a + b)[0] == a[0] && (a + b)[1..] == a[1..] + b;
      calc {
        Concat(a + b);
        a[0] + Concat(a[1..] + b);
        { ConcatSplit(a[1..], b); }
        a[0] + (Concat(a[1..]) + Concat(b));
        a[0] + Concat(a[1..]) + Concat(b);
      }
    }
  }

  lemma ConcatSingle(x: Bytes)
    ensures Concat([x]) == x
  {
    assert Concat([x]) == x + Concat([]);
  }

  ghost predicate AllSized(parts: seq<Bytes>, n: nat) {
    forall i :: 0 <= i < |parts| ==> |parts[i]| == n
  }

  lemma {:induction false} ConcatLength(parts: seq<Bytes>, n: nat)
    requires AllSized(parts, n)
    ensures |Concat(parts)| == |parts| * n
  {
    if parts != [] {
      ConcatLength(parts[1..], n);
      assert |parts| * n == n + (|parts| - 1) * n;
    }
  }

  /** Flattening fixed-size parts loses nothing. */
  lemma {:induction false} ConcatInjective(a: seq<Bytes>, b: seq<Bytes>, n: nat)
    requires AllSized(a, n) && AllSized(b, n) && |a| == |b|
    requires Concat(a) == Concat(b)
    ensures a == b
  {
    if a != [] {
      assert a[0] == Concat(a)[..n] && b[0] == Concat(b)[..n];
      assert Concat(a[1..]) == Concat(a)[n..] && Concat(b[1..]) == Concat(b)[n..];
      ConcatInjective(a[1..], b[1..], n);
      assert a == [a[0]] + a[1..] && b == [b[0]] + b[1..];
    }
  }

  function Pow(b: nat, e: nat): (p: nat)
    ensures b > 0 ==> p > 0
  {
    if e == 0 then 1 else PowPositive(b, Pow(b, e - 1)); b * Pow(b, e - 1)
  }

  lemma PowPositive(a: nat, b: nat)
    ensures a * b >= 0
    ensures a > 0 && b > 0 ==> a * b > 0
  {
  }

  lemma PowNext(b: nat, e: nat)
    ensures Pow(b, e + 1) == Pow(b, e) * b
  {
  }

  lemma {:induction false} PowAdd(b: nat, i: nat, j: nat)
    ensures Pow(b, i + j) == Pow(b, i) * Pow(b, j)
  {
    if i != 0 {
      PowAdd(b, i - 1, j);
      assert b * (Pow(b, i - 1) * Pow(b, j)) == b * Pow(b, i - 1) * Pow(b, j);
    }
  }

  lemma {:induction false} PowMonotone(b: nat, i: nat, j: nat)
    requires b > 0 && i <= j
    ensures 0 < Pow(b, i) <= Pow(b, j)
  {
    if i < j {
      PowMonotone(b, i, j - 1);
      MulMonotone(1, b, Pow(b, j - 1));
    } else if i > 0 {
      PowMonotone(b, i - 1, i - 1);
      MulMonotone(1, b, Pow(b, i - 1));
    }
  }

  /** Powers of two, by doubling. */
  function Pow2(e: nat): (p: nat)
    ensures p > 0
  {
    if e == 0 then 1 else Pow2(e - 1) + Pow2(e - 1)
  }

  lemma {:induction false} Pow2Add(i: nat, j: nat)
    ensures Pow2(i + j) == Pow2(i) * Pow2(j)
  {
    if i != 0 {
      Pow2Add(i - 1, j);
      assert (Pow2(i - 1) + Pow2(i - 1)) * Pow2(j) == Pow2(i - 1) * Pow2(j) + Pow2(i - 1) * Pow2(j);
    }
  }

  lemma {:induction false} Pow2Monotone(i: nat, j: nat)
    requires i <= j
    ensures Pow2(i) <= Pow2(j)
  {
    if i < j {
      Pow2Monotone(i, j - 1);
    }
  }

  lemma Pow2Values()
    ensures Pow2(12) == 0x1000 && Pow2(32) == 0x1_0000_0000 && Pow2(64) == 0x1_0000_0000_0000_0000
  {
    assert Pow2(4) == 16;
    assert Pow2(8) == 0x100 by { Pow2Add(4, 4); }
    assert Pow2(12) == 0x1000 by { Pow2Add(4, 8); }
    assert Pow2(16) == 0x1_0000 by { Pow2Add(8, 8); }
    assert Pow2(32) == 0x1_0000_0000 by { Pow2Add(16, 16); }
    assert Pow2(64) == 0x1_0000_0000_0000_0000 by { Pow2Add(32, 32); }
  }

  lemma MulSucc(a: int, d: int)
    ensures (a + 1) * d == a * d + d
  {
  }

  lemma MulMonotone(a: int, b: int, d: int)
    requires a <= b && d >= 0
    ensures a * d <= b * d
  {
    assert b * d - a * d == (b - a) * d;
  }

  /** Euclidean division is the only way to write n as q * d + r. */
  lemma DivUnique(n: int, d: int, q: int, r: int)
    requires d > 0 && n == q * d + r && 0 <= r < d
    ensures n / d == q && n % d == r
  {
    var q', r' := n / d, n % d;
    assert q' * d + r' == q * d + r;
    assert (q + 1) * d == q * d + d;
    assert (q' + 1) * d == q' * d + d;
    if q < q' { MulMonotone(q + 1, q', d); }
    if q' < q { MulMonotone(q' + 1, q, d); }
  }

  /** Reducing a sum's and a product's operand first does not change the result. */
  lemma ModSteps(total: nat, scale: nat, fill: nat, m: nat)
    requires m > 0
    ensures (total % m + scale % m * fill) % m == (total + scale * fill) % m
    ensures (scale % m * fill) % m == (scale * fill) % m
  {
    var t, t', s, s' := total / m, total % m, scale / m, scale % m;
    DivSplit(total, m);
    DivSplit(scale, m);
    ProductShift(s, s', fill, m);
    var p := s' * fill;
    MulShift(p, scale * fill, s * fill, m);
    SumShift(t, s * fill, m);
    MulShift(t' + p, total + scale * fill, t + s * fill, m);
  }

  lemma DivSplit(n: nat, m: nat)
    requires m > 0
    ensures n == (n / m) * m + n % m
  {
  }

  lemma ProductShift(q: nat, r: nat, fill: nat, m: nat)
    ensures (q * m + r) * fill == (q * fill) * m + r * fill
  {
  }

  lemma SumShift(a: nat, b: nat, m: nat)
    ensures (a + b) * m == a * m + b * m
  {
  }

  lemma SmallWord(n: nat)
    requires n < U64
    ensures n % U64 == n
  {
  }

  lemma MulShift(a: nat, b: nat, k: nat, m: nat)
    requires m > 0 && b == k * m + a
    ensures a % m == b % m
  {
    var q := a / m;
    assert a == q * m + a % m;
    assert b == (k + q) * m + a % m;
    DivUnique(b, m, k + q, a % m);
  }

  lemma DivDiv(n: nat, a: nat, b: nat)
    requires a > 0 && b > 0
    ensures a * b > 0 && (n / a) / b == n / (a * b)
  {
    var q, r := n / a, n % a;
    var s, t := q / b, q % b;
    assert q * a == (s * b + t) * a == s * (a * b) + t * a;
    assert t * a + a <= b * a by { MulMonotone(t + 1, b, a); }
    DivUnique(n, a * b, s, t * a + r);
  }

  // Multiplication and division by repetition. Code that walks over blocks is stated with
  // these, which keeps its proofs linear; the lemmas say that they are `*` and `/`.

  function Times(i: nat, n: nat): nat {
    if i == 0 then 0 else n + Times(i - 1, n)
  }

  lemma {:induction false} TimesIs(i: nat, n: nat)
    ensures Times(i, n) == i * n
  {
    if i > 0 {
      TimesIs(i - 1, n);
      MulSucc(i - 1, n);
    }
  }

  lemma {:induction false} TimesAdd(i: nat, j: nat, n: nat)
    ensures Times(i + j, n) == Times(i, n) + Times(j, n)
  {
    if i > 0 {
      TimesAdd(i - 1, j, n);
    }
  }

  lemma TimesMonotone(i: nat, j: nat, n: nat)
    requires i <= j
    ensures Times(i, n) <= Times(j, n)
  {
    TimesAdd(i, j - i, n);
  }

  function Quot(n: nat, d: nat): (q: nat)
    requires d > 0
    ensures Times(q, d) <= n < Times(q, d) + d
  {
    if n < d then 0 else 1 + Quot(n - d, d)
  }

  lemma QuotIs(n: nat, d: nat)
    requires d > 0
    ensures Quot(n, d) == n / d
  {
    TimesIs(Quot(n, d), d);
    DivUnique(n, d, Quot(n, d), n - Times(Quot(n, d), d));
  }

  function DivCeil(n: nat, d: nat): nat
    requires d > 0
  {
    Quot(n + d - 1, d)
  }
}
