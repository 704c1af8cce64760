/**
 The generating set of a grammar as a least fixpoint: a key is generating when
 one of its rules is made only of terminals and generating keys. With no
 terminals at all the same fixpoint is the nullable set: a key is nullable when
 one of its rules is made only of nullable keys (the empty rule among them).
 */
module Fixpoints {
  import opened Grammar

  /** One full pass of the scan: `g` together with every key that has a rule made
      only of symbols of `g` or of `t`. */
  ghost function GenStep(p: Productions, t: set<Symbol>, g: set<Symbol>): set<Symbol>
  {
    g + set v | v in p.Keys && AnyRuleIn(p[v], g + t)
  }

  /** Repeat `GenStep` from `g` until a pass adds nothing. */
  ghost function GenFrom(p: Productions, t: set<Symbol>, g: set<Symbol>): set<Symbol>
    requires g <= p.Keys
    decreases |p.Keys - g|
  {
    var n := GenStep(p, t, g);
    if n == g then g
    else
      GenStepShrinks(p, t, g);
      GenFrom(p, t, n)
  }

  lemma GenStepShrinks(p: Productions, t: set<Symbol>, g: set<Symbol>)
    requires g <= p.Keys && GenStep(p, t, g) != g
    ensures GenStep(p, t, g) <= p.Keys
    ensures |p.Keys - GenStep(p, t, g)| < |p.Keys - g|
  {
    var n := GenStep(p, t, g);
    var v :| v in n && v !in g;
    assert v in p.Keys - g && v !in p.Keys - n;
    ProperSubsetCard(p.Keys - n, p.Keys - g);
  }

  /** The least set of keys that have a rule made only of terminals (`t`) and of
      keys of the set. */
  ghost function Generating(p: Productions, t: set<Symbol>): set<Symbol>
  {
    GenFrom(p, t, {})
  }

  /** Nullable keys: those that derive the empty string. */
  ghost function Nullable(p: Productions): set<Symbol>
  {
    Generating(p, {})
  }

  /** `s` contains every key with a rule made only of symbols of `s` and `t`. */
  ghost predicate Closed(p: Productions, t: set<Symbol>, s: set<Symbol>)
  {
    forall v, r :: v in p && r in p[v] && AllIn(r, s + t) ==> v in s
  }

  lemma {:induction false} GenFromBounds(p: Productions, t: set<Symbol>, g: set<Symbol>)
    requires g <= p.Keys
    ensures g <= GenFrom(p, t, g) <= p.Keys
    decreases |p.Keys - g|
  {
    var n := GenStep(p, t, g);
    if n != g {
      GenStepShrinks(p, t, g);
      GenFromBounds(p, t, n);
    }
  }

  lemma {:induction false} GenFromClosed(p: Productions, t: set<Symbol>, g: set<Symbol>)
    requires g <= p.Keys
    ensures Closed(p, t, GenFrom(p, t, g))
    decreases |p.Keys - g|
  {
    var n := GenStep(p, t, g);
    if n == g {
      forall v, r | v in p && r in p[v] && AllIn(r, g + t) ensures v in g {
        assert AnyRuleIn(p[v], g + t);
        assert v in n;
      }
    } else {
      GenStepShrinks(p, t, g);
      GenFromClosed(p, t, n);
    }
  }

  lemma {:induction false} GenFromLeast(p: Productions, t: set<Symbol>, g: set<Symbol>, s: set<Symbol>)
    requires g <= p.Keys && g <= s && Closed(p, t, s)
    ensures GenFrom(p, t, g) <= s
    decreases |p.Keys - g|
  {
    var n := GenStep(p, t, g);
    if n != g {
      forall v | v in n ensures v in s {
        if v !in g {
          var r :| r in p[v] && AllIn(r, g + t);
          assert AllIn(r, s + t);
        }
      }
      GenStepShrinks(p, t, g);
      GenFromLeast(p, t, n, s);
    }
  }

  /** The generating set is made of keys and is closed. */
  lemma GeneratingClosed(p: Productions, t: set<Symbol>)
    ensures Generating(p, t) <= p.Keys
    ensures Closed(p, t, Generating(p, t))
  {
    GenFromBounds(p, t, {});
    GenFromClosed(p, t, {});
  }

  /** The generating set is contained in every closed set: it is the least one. */
  lemma GeneratingLeast(p: Productions, t: set<Symbol>, s: set<Symbol>)
    requires Closed(p, t, s)
    ensures Generating(p, t) <= s
  {
    GenFromLeast(p, t, {}, s);
  }

  /** A key is generating exactly when it has a rule made only of terminals and
      generating keys. */
  lemma GeneratingFixpoint(p: Productions, t: set<Symbol>, v: Symbol)
    ensures v in Generating(p, t) <==> v in p && AnyRuleIn(p[v], Generating(p, t) + t)
  {
    var g := Generating(p, t);
    GeneratingClosed(p, t);
    var g' := set w | w in g && AnyRuleIn(p[w], g + t);
    forall w, r | w in p && r in p[w] && AllIn(r, g' + t) ensures w in g' {
      assert AllIn(r, g + t);
      assert w in g;
    }
    GeneratingLeast(p, t, g');
    if v in p && AnyRuleIn(p[v], g + t) {
      var r :| r in p[v] && AllIn(r, g + t);
    }
  }

  /** A key with the empty rule is generating (and, with no terminals, nullable). */
  lemma EmptyRuleGenerating(p: Productions, t: set<Symbol>, v: Symbol)
    requires v in p && [] in p[v]
    ensures v in Generating(p, t)
  {
    GeneratingClosed(p, t);
    var e: Rule := [];
    assert AllIn(e, Generating(p, t) + t);
  }

  /** The Jacobi iteration: the first scan from the empty set is already a step
      towards the generating set. */
  lemma GenFromFirstStep(p: Productions, t: set<Symbol>)
    ensures GenStep(p, t, {}) <= p.Keys
    ensures GenFrom(p, t, GenStep(p, t, {})) == Generating(p, t)
  {
  }

  /** Nullable keys are keys, so a symbol that is not a key (a terminal) is never
      nullable. */
  lemma NullableAreKeys(p: Productions, x: Symbol)
    requires x !in p
    ensures x !in Nullable(p)
  {
    GeneratingClosed(p, {});
  }
}
