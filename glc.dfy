/**
 The grammar cleaner of LimpiaGramaticaLC.py: an object holding terminals,
 nonterminals, productions and a start symbol, with one method per cleaning
 pass, each rewriting the productions (and narrowing the nonterminals) in
 place.
 */
module Glc {
  import opened Grammar
  import opened Fixpoints
  import opened Graphs
  import opened Expansion
  import opened Units

  /** The productions left by LimpiaGramaticaLC.py:31-32: the entries of
      generating keys, each keeping only the rules made of terminals and
      generating symbols. */
  function KeepGenerating(p: Productions, g: set<Symbol>, t: set<Symbol>): Productions
  {
    map nt | nt in p && nt in g :: KeepRules(p[nt], g + t)
  }

  /** The kept keys are the generating keys, every kept rule uses only
      terminals and generating symbols, kept rules are in their old order, and
      no such rule is lost. */
  lemma KeepGeneratingFacts(p: Productions, g: set<Symbol>, t: set<Symbol>)
    ensures KeepGenerating(p, g, t).Keys == p.Keys * g
    ensures forall nt, r :: nt in KeepGenerating(p, g, t) && r in KeepGenerating(p, g, t)[nt] ==> AllIn(r, g + t)
    ensures forall nt :: nt in KeepGenerating(p, g, t) ==> IsSubsequence(KeepGenerating(p, g, t)[nt], p[nt])
    ensures forall nt, r :: nt in p && nt in g && r in p[nt] && AllIn(r, g + t) ==> r in KeepGenerating(p, g, t)[nt]
  {
    forall nt | nt in p && nt in g
      ensures forall r :: r in KeepRules(p[nt], g + t) <==> r in p[nt] && AllIn(r, g + t)
      ensures IsSubsequence(KeepRules(p[nt], g + t), p[nt])
    {
      KeepRulesFacts(p[nt], g + t);
    }
  }

  /** `any(all(s in s for s in regla) for regla in reglas)`, scanning the rules
      in order and stopping at the first match. */
  method FirstRuleIn(rules: seq<Rule>, s: set<Symbol>) returns (found: bool)
    ensures found <==> AnyRuleIn(rules, s)
  {
    var i := 0;
    while i < |rules|
      invariant 0 <= i <= |rules|
      invariant forall k :: 0 <= k < i ==> !AllIn(rules[k], s)
    {
      if AllIn(rules[i], s) {
        return true;
      }
      i := i + 1;
    }
    return false;
  }

  /** The unit sets built at LimpiaGramaticaLC.py:50-64, as read for each key
      of the productions: the nonterminals reached through unit rules (none for
      a key outside the nonterminals). */
  method UnitSets(p: Productions, vs: set<Symbol>) returns (sets: Edges)
    ensures sets.Keys == p.Keys
    ensures forall v :: v in p ==> sets[v] == UnitSet(p, vs, v)
  {
    var direct := CollectUnits(p, vs, vs);
    var units := CloseUnits(direct);
    sets := map v | v in p :: if v in units then units[v] else {};
    assert forall v :: v in p ==> sets[v] == UnitSet(p, vs, v);
  }

  /** The `defaultdict` filled at LimpiaGramaticaLC.py:66-73 from the rewritten
      lists `out`: a key has an entry only when something was appended for it,
      that is when it has a non-unit rule or a non-empty unit set. */
  method WrittenKeys(p: Productions, vs: set<Symbol>, sets: Edges, out: Productions) returns (q: Productions)
    requires out.Keys == p.Keys && sets.Keys == p.Keys
    requires forall v :: v in p ==> sets[v] == UnitSet(p, vs, v)
    requires forall v :: v in p ==> Inlined(out[v], p, vs, v, UnitSet(p, vs, v))
    ensures forall v :: v in q <==> v in p && (NonUnit(p[v], vs) != [] || UnitSet(p, vs, v) != {})
    ensures forall v :: v in q ==> Inlined(q[v], p, vs, v, UnitSet(p, vs, v))
  {
    q := map v | v in p && (NonUnit(p[v], vs) != [] || sets[v] != {}) :: out[v];
  }

  class GLC {
    var terminales: set<Symbol>
    var noTerminales: set<Symbol>
    var producciones: Productions
    var simboloInicial: Symbol
    /** Whether `producciones` is currently a `defaultdict(list)`, on which
        reading a missing key inserts an empty entry, rather than a plain dict,
        on which it raises KeyError. */
    var isDefaultdict: bool

    /** The terminals and nonterminals are stored as sets; the productions and
        the start symbol as given. `isDefaultdict` says which kind of dict the
        caller passed. */
    constructor (terminales: seq<Symbol>, noTerminales: seq<Symbol>, producciones: Productions, simboloInicial: Symbol, isDefaultdict: bool)
      ensures this.terminales == set x | x in terminales
      ensures this.noTerminales == set x | x in noTerminales
      ensures this.producciones == producciones && this.simboloInicial == simboloInicial
      ensures this.isDefaultdict == isDefaultdict
    {
      this.isDefaultdict := isDefaultdict;
      this.terminales := set x | x in terminales;
      this.noTerminales := set x | x in noTerminales;
      this.producciones := producciones;
      this.simboloInicial := simboloInicial;
    }

    /** One pass of the flag loop of LimpiaGramaticaLC.py:20-27 (and :85-92):
        every key not yet in the set joins it as soon as one of its rules is
        made of members and of `t`; members added during the pass count for
        the keys scanned after them. When nothing is added, `g` is closed. */
    method SaturationPass(g: set<Symbol>, t: set<Symbol>) returns (h: set<Symbol>, changed: bool)
      requires g <= Generating(producciones, t)
      ensures g <= h <= Generating(producciones, t)
      ensures changed <==> h != g
      ensures !changed ==> Closed(producciones, t, g)
    {
      GeneratingClosed(producciones, t);
      h, changed := g, false;
      var todo := producciones.Keys;
      while todo != {}
        invariant todo <= producciones.Keys
        invariant g <= h <= Generating(producciones, t)
        invariant changed <==> h != g
        invariant !changed ==> forall v :: v in producciones && v !in todo && v !in g ==> !AnyRuleIn(producciones[v], g + t)
        decreases todo
      {
        var v :| v in todo;
        if v !in h {
          var found := FirstRuleIn(producciones[v], h + t);
          if found {
            var r :| r in producciones[v] && AllIn(r, h + t);
            assert AllIn(r, Generating(producciones, t) + t);
            h := h + {v};
            changed := true;
          }
        }
        todo := todo - {v};
      }
      if !changed {
        forall v, r | v in producciones && r in producciones[v] && AllIn(r, g + t) ensures v in g {
          assert AnyRuleIn(producciones[v], g + t);
        }
      }
    }

    /** The flag loop itself: passes repeat until one adds nothing, starting from
        any `seed` inside the fixpoint, and end at the least fixpoint. */
    method Saturate(seed: set<Symbol>, t: set<Symbol>) returns (g: set<Symbol>)
      requires seed <= Generating(producciones, t)
      ensures g == Generating(producciones, t)
    {
      g := seed;
      while true
        invariant g <= Generating(producciones, t)
        decreases |Generating(producciones, t) - g|
      {
        var h, changed := SaturationPass(g, t);
        if !changed {
          GeneratingLeast(producciones, t, g);
          break;
        }
        ProperSubsetCard(Generating(producciones, t) - h, Generating(producciones, t) - g);
        g := h;
      }
    }

    /** The first scan of LimpiaGramaticaLC.py:79-82: the keys with an empty
        rule. */
    method EmptyRuleKeys() returns (s: set<Symbol>)
      ensures s == set v | v in producciones && [] in producciones[v]
    {
      s := {};
      var todo := producciones.Keys;
      while todo != {}
        invariant todo <= producciones.Keys
        invariant s == set v | v in producciones.Keys - todo && [] in producciones[v]
        decreases todo
      {
        var v :| v in todo;
        var reglas := producciones[v];
        ghost var s0 := s;
        for i := 0 to |reglas|
          invariant s == s0 + (if [] in reglas[..i] then {v} else {})
        {
          assert forall r :: r in reglas[..i + 1] <==> r in reglas[..i] || r == reglas[i];
          if reglas[i] == [] {
            s := s + {v};
          }
        }
        assert reglas[..|reglas|] == reglas;
        todo := todo - {v};
      }
    }

    /** Nonterminals and production keys are narrowed to the generating keys,
        and the rules of kept keys to those made only of terminals and
        generating symbols. The result is a plain dict. */
    method EliminarNoGenerativos()
      modifies this`noTerminales, this`producciones, this`isDefaultdict
      ensures noTerminales == old(noTerminales) * Generating(old(producciones), terminales)
      ensures producciones == KeepGenerating(old(producciones), Generating(old(producciones), terminales), terminales)
      ensures !isDefaultdict
    {
      isDefaultdict := false;
      var generativos := Saturate({}, terminales);
      noTerminales := noTerminales * generativos;
      producciones := map nt | nt in producciones && nt in generativos :: KeepRules(producciones[nt], generativos + terminales);
    }

    /** The inner loops of LimpiaGramaticaLC.py:41-44 for one rule: each
        nonterminal of the rule not yet accessible becomes accessible and is
        enqueued, once. */
    method VisitRule(regla: Rule, acc: set<Symbol>, cola: seq<Symbol>)
      returns (acc': set<Symbol>, cola': seq<Symbol>, ghost more: seq<Symbol>)
      ensures acc' == acc + set y | y in regla && y in noTerminales
      ensures cola' == cola + more && NoDup(more)
      ensures forall y :: y in more <==> y in acc' && y !in acc
    {
      acc', cola', more := acc, cola, [];
      for j := 0 to |regla|
        invariant acc' == acc + set y | y in regla[..j] && y in noTerminales
        invariant cola' == cola + more && NoDup(more)
        invariant forall y :: y in more <==> y in acc' && y !in acc
      {
        assert forall y :: y in regla[..j + 1] <==> y in regla[..j] || y == regla[j];
        var simbolo := regla[j];
        if simbolo in noTerminales && simbolo !in acc' {
          NoDupConcat(more, [simbolo]);
          acc' := acc' + {simbolo};
          cola' := cola' + [simbolo];
          more := more + [simbolo];
        }
      }
      assert regla[..|regla|] == regla;
    }

    /** The rules of one dequeued nonterminal (LimpiaGramaticaLC.py:40-44). */
    method Visit(nt: Symbol, acc: set<Symbol>, cola: seq<Symbol>)
      returns (acc': set<Symbol>, cola': seq<Symbol>, ghost added: seq<Symbol>)
      ensures acc' == acc + RuleSymbols(RulesOf(producciones, nt), noTerminales)
      ensures cola' == cola + added && NoDup(added)
      ensures forall y :: y in added <==> y in acc' && y !in acc
    {
      var reglas := RulesOf(producciones, nt);
      acc', cola', added := acc, cola, [];
      for i := 0 to |reglas|
        invariant acc' == acc + RuleSymbols(reglas[..i], noTerminales)
        invariant cola' == cola + added && NoDup(added)
        invariant forall y :: y in added <==> y in acc' && y !in acc
      {
        ghost var more;
        acc', cola', more := VisitRule(reglas[i], acc', cola');
        NoDupConcat(added, more);
        assert cola' == cola + (added + more);
        added := added + more;
        assert forall q :: q in reglas[..i + 1] <==> q in reglas[..i] || q == reglas[i];
        assert RuleSymbols(reglas[..i + 1], noTerminales)
            == RuleSymbols(reglas[..i], noTerminales) + set y | y in reglas[i] && y in noTerminales;
      }
      assert reglas[..|reglas|] == reglas;
    }

    /** The state of the breadth-first search: `enqueued` is everything ever
        queued, without repeats, and its members are the accessible symbols
        found so far, all reachable; every entry after the start symbol was
        found in a rule of an entry already dequeued before it; the first `done`
        entries have been dequeued and their successors found; the queue is the
        rest. */
    ghost predicate BfsInv(acc: set<Symbol>, cola: seq<Symbol>, enqueued: seq<Symbol>, done: nat)
      reads this
    {
      && done <= |enqueued| && cola == enqueued[done..]
      && enqueued != [] && enqueued[0] == simboloInicial
      && NoDup(enqueued) && (forall x :: x in enqueued <==> x in acc)
      && acc <= Reachable(producciones, noTerminales, simboloInicial)
      && (forall k :: 0 < k < |enqueued| ==> FoundFrom(enqueued, done, k))
      && forall k :: 0 <= k < done ==> RuleSymbols(RulesOf(producciones, enqueued[k]), noTerminales) <= acc
    }

    /** Entry `k` of `enqueued` occurs in a rule of an entry before it and
        before `done`. */
    ghost predicate FoundFrom(enqueued: seq<Symbol>, done: nat, k: int)
      reads this
      requires 0 <= k < |enqueued|
    {
      exists j :: 0 <= j < done && j < k && enqueued[k] in RuleSymbols(RulesOf(producciones, enqueued[j]), noTerminales)
    }

    /** One turn of the loop at LimpiaGramaticaLC.py:38-44: dequeue the front,
        visit its rules. The nonterminals of its rules not yet accessible become
        accessible and are appended to the queue and to the history, each once;
        nothing else is enqueued. */
    method BfsStep(acc: set<Symbol>, cola: seq<Symbol>, ghost enqueued: seq<Symbol>, ghost done: nat)
      returns (acc': set<Symbol>, cola': seq<Symbol>, ghost enqueued': seq<Symbol>, ghost done': nat, ghost added: seq<Symbol>)
      requires BfsInv(acc, cola, enqueued, done) && cola != []
      ensures BfsInv(acc', cola', enqueued', done')
      ensures acc' == acc + RuleSymbols(RulesOf(producciones, cola[0]), noTerminales)
      ensures cola' == cola[1..] + added && enqueued' == enqueued + added && done' == done + 1
      ensures forall y :: y in added <==> y in acc' && y !in acc
      ensures acc' != acc || |cola'| < |cola|
    {
      ghost var reach := Reachable(producciones, noTerminales, simboloInicial);
      var nt := cola[0];
      var rest := cola[1..];
      assert nt == enqueued[done] && nt in acc;
      assert rest == enqueued[done + 1..];
      acc', cola', added := Visit(nt, acc, rest);
      ReachableFacts(producciones, noTerminales, simboloInicial);
      forall y | y in RuleSymbols(RulesOf(producciones, nt), noTerminales) ensures y in reach {
        var r :| r in RulesOf(producciones, nt) && y in r && y in noTerminales;
      }
      NoDupConcat(enqueued, added);
      enqueued' := enqueued + added;
      assert enqueued'[done + 1..] == enqueued[done + 1..] + added;
      done' := done + 1;
      forall k | 0 <= k < done' ensures RuleSymbols(RulesOf(producciones, enqueued'[k]), noTerminales) <= acc' {
        assert enqueued'[k] == enqueued[k];
      }
      forall k | 0 < k < |enqueued'| ensures FoundFrom(enqueued', done', k) {
        if k < |enqueued| {
          assert FoundFrom(enqueued, done, k);
          var j :| 0 <= j < done && j < k && enqueued[k] in RuleSymbols(RulesOf(producciones, enqueued[j]), noTerminales);
          assert enqueued'[j] == enqueued[j] && enqueued'[k] == enqueued[k];
        } else {
          assert enqueued'[k] == added[k - |enqueued|] && added[k - |enqueued|] in added;
          assert enqueued'[done] == nt;
        }
      }
      assert added != [] ==> added[0] in added;
    }

    /** The breadth-first search of LimpiaGramaticaLC.py:36-44. Its result is
        the reachable set. `enqueued` is everything ever put in the queue, in
        order (each turn appends exactly what `BfsStep` adds): it starts with
        the start symbol, holds each accessible symbol exactly once, and every
        later entry occurs in a rule of an earlier one. */
    method Accesibles() returns (acc: set<Symbol>, ghost enqueued: seq<Symbol>)
      ensures acc == Reachable(producciones, noTerminales, simboloInicial)
      ensures NoDup(enqueued) && forall x :: x in enqueued <==> x in acc
      ensures enqueued != [] && enqueued[0] == simboloInicial
      ensures forall k :: 0 < k < |enqueued| ==>
                exists j :: 0 <= j < k && enqueued[k] in RuleSymbols(RulesOf(producciones, enqueued[j]), noTerminales)
    {
      ghost var reach := Reachable(producciones, noTerminales, simboloInicial);
      acc := {simboloInicial};
      var cola := [simboloInicial];
      enqueued := [simboloInicial];
      ghost var done: nat := 0;
      BfsStart();
      while cola != []
        invariant BfsInv(acc, cola, enqueued, done)
        decreases |reach - acc|, |cola|
      {
        ghost var acc0, cola0 := acc, cola;
        ghost var added;
        acc, cola, enqueued, done, added := BfsStep(acc, cola, enqueued, done);
        Progress(reach, acc0, acc, cola0, cola);
      }
      BfsEnd(acc, enqueued, done);
    }

    /** A turn that finds new symbols brings the accessible set closer to
        `reach`; one that finds none shortens the queue. */
    static lemma Progress(reach: set<Symbol>, acc: set<Symbol>, acc': set<Symbol>, cola: seq<Symbol>, cola': seq<Symbol>)
      requires acc <= acc' <= reach
      requires acc' != acc || |cola'| < |cola|
      ensures |reach - acc'| < |reach - acc| || (|reach - acc'| == |reach - acc| && |cola'| < |cola|)
    {
      if acc' != acc {
        ProperSubsetCard(reach - acc', reach - acc);
      }
    }

    /** The search starts with the start symbol accessible and queued. */
    lemma BfsStart()
      ensures BfsInv({simboloInicial}, [simboloInicial], [simboloInicial], 0)
    {
      ReachableFacts(producciones, noTerminales, simboloInicial);
    }

    /** Once the queue is empty every accessible symbol has been dequeued, so
        the accessible set is closed and, being inside the reachable set, is
        the reachable set. */
    lemma BfsEnd(acc: set<Symbol>, enqueued: seq<Symbol>, done: nat)
      requires BfsInv(acc, [], enqueued, done)
      ensures acc == Reachable(producciones, noTerminales, simboloInicial)
      ensures forall k :: 0 < k < |enqueued| ==>
                exists j :: 0 <= j < k && enqueued[k] in RuleSymbols(RulesOf(producciones, enqueued[j]), noTerminales)
    {
      forall k | 0 < k < |enqueued|
        ensures exists j :: 0 <= j < k && enqueued[k] in RuleSymbols(RulesOf(producciones, enqueued[j]), noTerminales)
      {
        assert FoundFrom(enqueued, done, k);
      }
      forall x, r, y | x in acc && x in producciones && r in producciones[x] && y in r && y in noTerminales
        ensures y in acc
      {
        var k :| 0 <= k < |enqueued| && enqueued[k] == x;
        assert y in RuleSymbols(RulesOf(producciones, enqueued[k]), noTerminales);
      }
      ReachableFacts(producciones, noTerminales, simboloInicial);
      ReachableLeast(producciones, noTerminales, simboloInicial, acc);
    }

    /** Nonterminals and production keys are narrowed to the accessible
        symbols; kept entries are untouched. The result is a plain dict. */
    method EliminarInaccesibles()
      modifies this`noTerminales, this`producciones, this`isDefaultdict
      ensures noTerminales == old(noTerminales) * Reachable(old(producciones), old(noTerminales), simboloInicial)
      ensures producciones == Restrict(old(producciones), Reachable(old(producciones), old(noTerminales), simboloInicial))
      ensures !isDefaultdict
    {
      isDefaultdict := false;
      var accesibles, order := Accesibles();
      noTerminales := noTerminales * accesibles;
      producciones := map nt | nt in producciones && nt in accesibles :: producciones[nt];
    }

    /** Unit rules are replaced by the rules of the nonterminals they reach
        through unit rules. The output is a `defaultdict`: a key gets an entry
        when it has a non-unit rule or a non-empty unit set. `ok` is false when
        a reached nonterminal has no entry. On a plain dict
        `producciones[unitario]` then raises KeyError and nothing changes. On a
        `defaultdict` the read inserts an empty entry for every missing member
        of the unit set of the key being rewritten, and the next step of the
        iteration over the resized dict raises RuntimeError. */
    method EliminarUnitarias() returns (ok: bool)
      modifies this`producciones, this`isDefaultdict
      ensures ok <==> UnitSetsKeyed(old(producciones), noTerminales)
      ensures isDefaultdict == (ok || old(isDefaultdict))
      ensures !ok && !old(isDefaultdict) ==> producciones == old(producciones)
      ensures !ok && old(isDefaultdict) ==>
                exists v :: (v in old(producciones) &&
                  !(UnitSet(old(producciones), noTerminales, v) <= old(producciones).Keys) &&
                  producciones == Touched(old(producciones), UnitSet(old(producciones), noTerminales, v)))
      ensures ok ==> forall v :: v in producciones <==>
                v in old(producciones) && (NonUnit(old(producciones)[v], noTerminales) != [] || UnitSet(old(producciones), noTerminales, v) != {})
      ensures ok ==> forall v :: v in producciones ==>
                Inlined(producciones[v], old(producciones), noTerminales, v, UnitSet(old(producciones), noTerminales, v))
    {
      var p := producciones;
      var sets := UnitSets(p, noTerminales);
      var out, bad;
      ok, out, bad := InlineAll(p, noTerminales, sets);
      assert ok <==> UnitSetsKeyed(p, noTerminales);
      if ok {
        producciones := WrittenKeys(p, noTerminales, sets, out);
        isDefaultdict := true;
      } else if isDefaultdict {
        ghost var c := UnitSet(p, noTerminales, bad);
        assert sets[bad] == c && !(c <= p.Keys);
        producciones := Touched(p, sets[bad]);
        assert producciones == Touched(p, c);
      }
    }

    /** Empty rules are removed by expanding nullable occurrences; only keys
        with a non-empty rule keep an entry, as the output is a `defaultdict`. */
    method EliminarVacias()
      modifies this`producciones, this`isDefaultdict
      ensures producciones == DropEmpty(old(producciones), Nullable(old(producciones)))
      ensures isDefaultdict
    {
      var seed := EmptyRuleKeys();
      forall v | v in seed ensures v in Nullable(producciones) {
        EmptyRuleGenerating(producciones, {}, v);
      }
      var nullable := Saturate(seed, {});
      var p := producciones;
      var out: Productions := map[];
      var todo := p.Keys;
      while todo != {}
        invariant todo <= p.Keys
        invariant forall v :: v in out <==> v in p && v !in todo && EpsFree(p[v], nullable) != []
        invariant forall v :: v in out ==> out[v] == EpsFree(p[v], nullable)
        decreases todo
      {
        var v :| v in todo;
        var rules := ExpandAll(p[v], nullable);
        if rules != [] {
          out := out[v := rules];
        }
        todo := todo - {v};
      }
      assert out == DropEmpty(p, nullable);
      producciones := out;
      isDefaultdict := true;
    }

    /** Non-generating elimination, then inaccessible elimination on its
        result. */
    method EliminarInutiles()
      modifies this`noTerminales, this`producciones, this`isDefaultdict
      ensures var g := Generating(old(producciones), terminales);
              var n := old(noTerminales) * g;
              var q := KeepGenerating(old(producciones), g, terminales);
              noTerminales == n * Reachable(q, n, simboloInicial) && producciones == Restrict(q, Reachable(q, n, simboloInicial))
      ensures !isDefaultdict
    {
      EliminarNoGenerativos();
      EliminarInaccesibles();
    }
  }
}
