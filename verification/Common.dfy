/** Constants and small facts shared by every layer of the model. */
module Common {
  const PAGE_SIZE: nat := 4096
  const PHYS_ADDR_NULL: nat := 0
  const TWO64: nat := 0x1_0000_0000_0000_0000

  datatype Option<+T> = None | Some(value: T)

  /** The value a 64-bit unsigned register keeps of `x`. */
  function Wrap64(x: int): nat {
    x % TWO64
  }

  lemma WrapOnce(x: nat)
    requires x < 2 * TWO64
    ensures Wrap64(x) == if x < TWO64 then x else x - TWO64
  {
  }

  /** A wrapped sum that passes a bound is really below it exactly when the sum did not wrap. */
  lemma WrapFitsIff(a: nat, b: nat, limit: nat)
    requires a < TWO64 && b < TWO64 && limit < TWO64 && Wrap64(a + b) <= limit
    ensures a + b <= limit <==> a + b < TWO64
  {
    if a + b < TWO64 {
      assert Wrap64(a + b) == a + b;
    }
  }

  /** `addr & ~(PAGE_SIZE - 1)`. */
  function PageBase(addr: nat): nat {
    addr - addr % PAGE_SIZE
  }

  function Min(a: nat, b: nat): nat {
    if a < b then a else b
  }

  function Max(a: nat, b: nat): nat {
    if a < b then b else a
  }

  /** The elements of a sequence, as a set. */
  function Elems<T(!new)>(s: seq<T>): (r: set<T>)
    ensures forall x :: x in r <==> x in s
  {
    if s == [] then {} else Elems(s[..|s| - 1]) + {s[|s| - 1]}
  }

  ghost predicate NoDup<T>(s: seq<T>) {
    forall i, j :: 0 <= i < j < |s| ==> s[i] != s[j]
  }

  lemma {:induction false} ElemsSize<T(!new)>(s: seq<T>)
    requires NoDup(s)
    ensures |Elems(s)| == |s|
  {
    if s == [] {
    } else {
      var init, x := s[..|s| - 1], s[|s| - 1];
      ElemsSize(init);
      assert Elems(s) == Elems(init) + {x};
    }
  }

  lemma ElemsConcat<T(!new)>(a: seq<T>, b: seq<T>)
    ensures Elems(a + b) == Elems(a) + Elems(b)
  {
    forall x ensures x in Elems(a + b) <==> x in Elems(a) + Elems(b) {
      assert x in a + b <==> x in a || x in b;
    }
  }

  lemma NoDupConcat<T(!new)>(a: seq<T>, b: seq<T>)
    requires NoDup(a) && NoDup(b) && Elems(a) !! Elems(b)
    ensures NoDup(a + b)
  {
    forall i, j | 0 <= i < j < |a + b| ensures (a + b)[i] != (a + b)[j] {
      if i < |a| <= j {
        assert a[i] in Elems(a) && b[j - |a|] in Elems(b);
      }
    }
  }

  lemma SplitApart<T>(s: seq<T>, k: nat, x: T)
    requires NoDup(s) && k <= |s| && x in s[..k]
    ensures x !in s[k..]
  {
    var i :| 0 <= i < k && s[i] == x;
    forall j | 0 <= j < |s[k..]| ensures s[k..][j] != x {
      assert s[k..][j] == s[k + j];
    }
  }

  /** Cutting a duplicate-free sequence cuts its elements into disjoint sets. */
  lemma NoDupSplit<T(!new)>(s: seq<T>, k: nat)
    requires NoDup(s) && k <= |s|
    ensures NoDup(s[..k]) && NoDup(s[k..])
    ensures Elems(s[..k]) !! Elems(s[k..]) && Elems(s[..k]) + Elems(s[k..]) == Elems(s)
  {
    assert s == s[..k] + s[k..];
    ElemsConcat(s[..k], s[k..]);
    forall x | x in s[..k] ensures x !in s[k..] {
      SplitApart(s, k, x);
    }
  }

  // ----- arithmetic over variable factors

  lemma MulMono(x: nat, y: nat, b: nat)
    requires x <= y
    ensures x * b <= y * b
  {
  }

  lemma Distribute(x: nat, y: nat, b: nat)
    ensures (x + y) * b == x * b + y * b
  {
  }

  lemma DivMod(a: nat, b: nat)
    requires 0 < b
    ensures a == a / b * b + a % b && a % b < b
  {
  }

  lemma DivUnique(a: nat, b: nat, q: nat)
    requires 0 < b && q * b <= a < q * b + b
    ensures a / b == q
  {
    DivMod(a, b);
    if a / b < q {
      MulMono(a / b + 1, q, b);
    } else if q < a / b {
      MulMono(q + 1, a / b, b);
    }
  }

  lemma DivMono(a: nat, c: nat, b: nat)
    requires 0 < b && a <= c
    ensures a / b <= c / b
  {
    DivMod(a, b);
    DivMod(c, b);
    if c / b < a / b {
      MulMono(c / b + 1, a / b, b);
    }
  }

  lemma DivSmall(a: nat, b: nat)
    requires 0 < b
    ensures a / b <= a
  {
    DivMod(a, b);
    MulMono(1, b, a / b);
  }
}
