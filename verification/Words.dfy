/** Numbers as words of bits: powers, shifts and single bits. */
module Words {
  import opened Common

  function Pow(b: nat, k: nat): nat {
    if k == 0 then 1 else b * Pow(b, k - 1)
  }

  lemma {:induction false} PowPositive(b: nat, k: nat)
    requires 0 < b
    ensures 0 < Pow(b, k)
  {
    if k > 0 {
      PowPositive(b, k - 1);
    }
  }

  lemma {:induction false} PowMono(b: nat, j: nat, k: nat)
    requires 1 <= b && j <= k
    ensures Pow(b, j) <= Pow(b, k)
    decreases k
  {
    if j < k {
      PowMono(b, j, k - 1);
      PowPositive(b, k - 1);
      MulMono(1, b, Pow(b, k - 1));
    }
  }

  lemma Regroup(q: nat, p: nat, r: nat, b: nat)
    ensures (q * p + r) * b == q * (b * p) + r * b && p * b == b * p
  {
  }

  lemma DivModProduct(n: nat, b: nat, p: nat)
    requires 0 < b && 0 < p && 0 < b * p
    ensures n / (b * p) == n / b / p
    ensures n % (b * p) == n / b % p * b + n % b
  {
    var q, r, d := n / b / p, n / b % p, n % b;
    DivMod(n, b);
    DivMod(n / b, p);
    Regroup(q, p, r, b);
    assert n == q * (b * p) + (r * b + d);
    MulMono(r + 1, p, b);
    Distribute(r, 1, b);
    DivUnique(n, b * p, q);
    DivMod(n, b * p);
  }

  /** `n >> k` */
  function Shr(n: nat, k: nat): nat {
    PowPositive(2, k);
    n / Pow(2, k)
  }

  /** Bit `i` of a number, counted from the least significant. */
  predicate Bit(n: nat, i: nat) {
    Shr(n, i) % 2 == 1
  }

  lemma Assoc(x: nat, y: nat, z: nat)
    ensures x * (y * z) == x * y * z
  {
  }

  lemma {:induction false} PowAdd(b: nat, i: nat, j: nat)
    ensures Pow(b, i + j) == Pow(b, i) * Pow(b, j)
  {
    if i > 0 {
      PowAdd(b, i - 1, j);
      Assoc(b, Pow(b, i - 1), Pow(b, j));
    }
  }

  /** Shifting twice is shifting by the sum. */
  lemma ShrAdd(n: nat, i: nat, j: nat)
    ensures Shr(Shr(n, i), j) == Shr(n, i + j)
  {
    PowAdd(2, i, j);
    PowPositive(2, i);
    PowPositive(2, j);
    DivModProduct(n, Pow(2, i), Pow(2, j));
  }

  lemma DivSum(a: nat, q: nat, low: nat)
    requires 0 < a
    ensures (a * q + low) / a == q + low / a
  {
    DivMod(low, a);
    DivUnique(a * q + low, a, q + low / a);
  }

  lemma EvenPart(q: nat, low: nat)
    ensures (2 * q + low) % 2 == low % 2
  {
  }

  lemma BitOfLow(m: nat, k: nat, low: nat, i: nat)
    requires i < m
    ensures Bit(Pow(2, m) * k + low, i) <==> Bit(low, i)
  {
    var p, rest := Pow(2, i), Pow(2, m - i - 1);
    PowPositive(2, i);
    PowAdd(2, i, m - i);
    assert Pow(2, m - i) == 2 * rest;
    Assoc(p, 2 * rest, k);
    Assoc(2, rest, k);
    DivSum(p, 2 * (rest * k), low);
    EvenPart(rest * k, low / p);
  }

  lemma BitOfHigh(m: nat, k: nat, low: nat, i: nat)
    requires low < Pow(2, m) && m <= i
    ensures Bit(Pow(2, m) * k + low, i) <==> Bit(k, i - m)
  {
    PowPositive(2, m);
    DivSum(Pow(2, m), k, low);
    DivUnique(low, Pow(2, m), 0);
    ShrAdd(Pow(2, m) * k + low, m, i - m);
  }

  /** A word made of `k` above `m` bits of `low`. */
  lemma BitOfParts(m: nat, k: nat, low: nat, i: nat)
    requires low < Pow(2, m)
    ensures Bit(Pow(2, m) * k + low, i) <==> if i < m then Bit(low, i) else Bit(k, i - m)
  {
    if i < m {
      BitOfLow(m, k, low, i);
    } else {
      BitOfHigh(m, k, low, i);
    }
  }

  lemma QuotientParts(y: nat, p: nat) returns (q: nat, r: nat)
    requires 0 < p
    ensures r == y % p < p && y == p * q + r
  {
    DivMod(y, p);
    q, r := y / p, y % p;
  }

  lemma LowPart(y: nat, n: nat, i: nat)
    requires i < n && 0 < Pow(2, n)
    ensures Bit(y % Pow(2, n), i) <==> Bit(y, i)
  {
    var q, r := QuotientParts(y, Pow(2, n));
    BitOfLow(n, q, r, i);
  }

  lemma NoBits(i: nat)
    ensures !Bit(0, i)
  {
    PowPositive(2, i);
    DivUnique(0, Pow(2, i), 0);
  }

  lemma OneBit(i: nat)
    ensures Bit(1, i) <==> i == 0
  {
    PowPositive(2, i);
    if i > 0 {
      PowPositive(2, i - 1);
      DivUnique(1, Pow(2, i), 0);
    }
  }

  lemma Powers()
    ensures Pow(2, 9) == 0x200 && Pow(2, 12) == 0x1000 && Pow(2, 21) == 0x20_0000 && Pow(2, 30) == 0x4000_0000
    ensures Pow(2, 39) == 0x80_0000_0000 && Pow(2, 51) == 0x8_0000_0000_0000 && Pow(2, 52) == 0x10_0000_0000_0000
  {
    assert Pow(2, 6) == 64;
    PowAdd(2, 6, 6);
    PowAdd(2, 3, 6);
    PowAdd(2, 9, 12);
    PowAdd(2, 9, 21);
    PowAdd(2, 9, 30);
    PowAdd(2, 12, 39);
    PowAdd(2, 1, 51);
  }
}
