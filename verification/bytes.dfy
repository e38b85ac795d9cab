/** Bytes, big-endian positional numbers and the byte stream the decoders read. */
module Bytes {
  import opened Outcomes

  type byte = b: int | 0 <= b < 0x100

  function Pow(base: nat, n: nat): (r: nat)
    ensures base > 0 ==> r > 0
  {
    if n == 0 then 1 else base * Pow(base, n - 1)
  }

  /** The number whose base-`base` digits, most significant first, are `ds`. */
  function FromDigits(base: nat, ds: seq<nat>): nat
  {
    if |ds| == 0 then 0 else FromDigits(base, ds[..|ds| - 1]) * base + ds[|ds| - 1]
  }

  /** The `n` least significant base-`base` digits of `v`, most significant first. */
  function ToDigits(base: nat, n: nat, v: nat): (ds: seq<nat>)
    requires base >= 2
    ensures |ds| == n
    ensures forall i :: 0 <= i < n ==> ds[i] < base
  {
    if n == 0 then [] else ToDigits(base, n - 1, v / base) + [v % base]
  }

  predicate DigitsBelow(base: nat, ds: seq<nat>) {
    forall i :: 0 <= i < |ds| ==> ds[i] < base
  }

  lemma DivModUnique(q: nat, base: nat, d: nat)
    requires 0 <= d < base
    ensures (q * base + d) / base == q
    ensures (q * base + d) % base == d
  {
    var x := q * base + d;
    var q', d' := x / base, x % base;
    assert x == q' * base + d';
    assert (q' - q) * base == d - d';
    if q' > q {
      MulAtLeast(q' - q, base);
    } else if q' < q {
      MulAtLeast(q - q', base);
    }
  }

  lemma MulAtLeast(a: int, b: nat)
    requires a >= 1
    ensures a * b >= b
  {
  }

  lemma MulMonotone(a: nat, b: nat, c: nat)
    requires a <= b
    ensures a * c <= b * c
  {
  }

  /** n digits below `base` denote a number below base^n. */
  lemma {:induction false} FromDigitsBound(base: nat, ds: seq<nat>)
    requires base >= 1
    requires DigitsBelow(base, ds)
    ensures FromDigits(base, ds) < Pow(base, |ds|)
  {
    if |ds| > 0 {
      var init := ds[..|ds| - 1];
      FromDigitsBound(base, init);
      BoundStep(FromDigits(base, init), Pow(base, |init|), ds[|ds| - 1], base);
    }
  }

  /** One more digit below `base` keeps a number below p * base. */
  lemma BoundStep(f: nat, p: nat, d: nat, base: nat)
    requires f < p && d < base
    ensures f * base + d < base * p
  {
    MulMonotone(f + 1, p, base);
  }

  /** Writing a number below base^n as n digits and reading them back gives the number. */
  lemma {:induction false} FromToDigits(base: nat, n: nat, v: nat)
    requires base >= 2
    requires v < Pow(base, n)
    ensures FromDigits(base, ToDigits(base, n, v)) == v
  {
    if n > 0 {
      var q, d := v / base, v % base;
      var init := ToDigits(base, n - 1, q);
      assert ToDigits(base, n, v) == init + [d];
      QuotientBound(base, n, v);
      FromToDigits(base, n - 1, q);
      FromDigitsSnoc(base, init, d);
      DivMod(v, base);
    }
  }

  lemma FromDigitsSnoc(base: nat, init: seq<nat>, d: nat)
    ensures FromDigits(base, init + [d]) == FromDigits(base, init) * base + d
  {
    assert (init + [d])[..|init|] == init;
  }

  lemma DivMod(v: nat, base: nat)
    requires base > 0
    ensures v == (v / base) * base + v % base
  {
  }

  lemma QuotientBound(base: nat, n: nat, v: nat)
    requires base >= 2 && n >= 1
    requires v < Pow(base, n)
    ensures v / base < Pow(base, n - 1)
  {
    var q, p := v / base, Pow(base, n - 1);
    assert Pow(base, n) == base * p;
    assert v == q * base + v % base;
    if q >= p {
      MulMonotone(p, q, base);
      assert false;
    }
  }

  /** Reading digits below `base` and writing the number back gives the same digits. */
  lemma {:induction false} ToFromDigits(base: nat, ds: seq<nat>)
    requires base >= 2
    requires DigitsBelow(base, ds)
    ensures ToDigits(base, |ds|, FromDigits(base, ds)) == ds
  {
    if |ds| > 0 {
      var init := ds[..|ds| - 1];
      var f := FromDigits(base, init);
      DivModUnique(f, base, ds[|ds| - 1]);
      ToFromDigits(base, init);
      assert init + [ds[|ds| - 1]] == ds;
    }
  }

  /** Take exactly `n` bytes from the stream `s`: the bytes read and the bytes left,
      or a read error when fewer than `n` bytes remain. */
  function ReadExactly(s: seq<byte>, n: nat): (r: Result<(seq<byte>, seq<byte>)>)
    ensures r.Ok? <==> n <= |s|
    ensures r.Err? ==> r.error == ReadError
    ensures r.Ok? ==> |r.value.0| == n && r.value.0 + r.value.1 == s
  {
    if |s| < n then Err(ReadError) else Ok((s[..n], s[n..]))
  }

  function Zeros(n: nat): (z: seq<byte>)
    ensures |z| == n
    ensures forall i :: 0 <= i < n ==> z[i] == 0
  {
    seq(n, i => 0)
  }
}
