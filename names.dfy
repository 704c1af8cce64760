/**
 Fresh variable names `X1`, `X2`, ... (`f"X{i}"`): the decimal spelling of a
 positive index after the letter X. Distinct indices give distinct names, so
 every finite set of names leaves some index free.
 */
module Names {
  import opened Grammar

  function Digit(d: nat): char
    requires d < 10
  {
    (48 + d) as char
  }

  /** The decimal spelling of `n`, without leading zeros. */
  function Decimal(n: nat): string
    decreases n
  {
    if n < 10 then [Digit(n)] else Decimal(n / 10) + [Digit(n % 10)]
  }

  /** `f"X{i}"`. */
  function Name(i: nat): Symbol
  {
    "X" + Decimal(i)
  }

  lemma {:induction false} DecimalInjective(a: nat, b: nat)
    requires Decimal(a) == Decimal(b)
    ensures a == b
    decreases a
  {
    if a >= 10 && b >= 10 {
      var da, db := Decimal(a), Decimal(b);
      assert da[..|da| - 1] == Decimal(a / 10);
      assert db[..|db| - 1] == Decimal(b / 10);
      DecimalInjective(a / 10, b / 10);
      assert Digit(a % 10) == da[|da| - 1] == Digit(b % 10);
    }
  }

  /** Different indices name different variables. */
  lemma NameInjective(i: nat, j: nat)
    requires Name(i) == Name(j)
    ensures i == j
  {
    assert Name(i)[1..] == Decimal(i);
    assert Name(j)[1..] == Decimal(j);
    DecimalInjective(i, j);
  }

  /** The names with indices 1 to n. */
  ghost function NamesUpTo(n: nat): set<Symbol>
  {
    set i | 1 <= i <= n :: Name(i)
  }

  lemma {:induction false} NamesUpToCount(n: nat)
    ensures |NamesUpTo(n)| == n
  {
    if n > 0 {
      NamesUpToCount(n - 1);
      assert NamesUpTo(n) == NamesUpTo(n - 1) + {Name(n)};
      if Name(n) in NamesUpTo(n - 1) {
        var i :| 1 <= i <= n - 1 && Name(i) == Name(n);
        NameInjective(i, n);
      }
    }
  }

  /** Whatever finite set of names is taken, some index from 1 on is free. */
  lemma FreeIndex(taken: set<Symbol>) returns (k: nat)
    ensures 1 <= k && Name(k) !in taken
  {
    var n := |taken| + 1;
    NamesUpToCount(n);
    if forall i :: 1 <= i <= n ==> Name(i) in taken {
      SubsetCard(NamesUpTo(n), taken);
      assert false;
    }
    k :| 1 <= k <= n && Name(k) !in taken;
  }
}
