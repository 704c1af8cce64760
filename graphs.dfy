/**
 Reachability in a finite directed graph over symbols, as a least fixpoint. It
 specifies both the reachable-symbol set of a grammar and the transitive
 closure of its unit productions.
 */
module Graphs {
  import opened Grammar

  /** Successor sets of a directed graph over symbols. */
  type Edges = map<Symbol, set<Symbol>>

  /** Every symbol that is the target of some edge. */
  ghost function Targets(e: Edges): set<Symbol>
  {
    set x, y | x in e && y in e[x] :: y
  }

  /** The successors of the members of `s`. */
  ghost function Succ(e: Edges, s: set<Symbol>): set<Symbol>
  {
    set x, y | x in s && x in e && y in e[x] :: y
  }

  /** The successors of one more member. */
  lemma SuccInsert(e: Edges, s: set<Symbol>, x: Symbol)
    ensures Succ(e, s + {x}) == Succ(e, s) + (if x in e then e[x] else {})
  {
  }

  /** Add successors to `s` until a pass adds nothing. */
  ghost function CloseFrom(e: Edges, s: set<Symbol>): set<Symbol>
    decreases |Targets(e) - s|
  {
    var n := s + Succ(e, s);
    if n == s then s
    else
      StepShrinks(e, s);
      CloseFrom(e, n)
  }

  lemma StepShrinks(e: Edges, s: set<Symbol>)
    requires s + Succ(e, s) != s
    ensures |Targets(e) - (s + Succ(e, s))| < |Targets(e) - s|
  {
    var n := s + Succ(e, s);
    var y :| y in n && y !in s;
    var x :| x in s && x in e && y in e[x];
    assert y in Targets(e) - s && y !in Targets(e) - n;
    ProperSubsetCard(Targets(e) - n, Targets(e) - s);
  }

  /** The least superset of `s` closed under the edges: everything reachable
      from `s` in zero or more steps. */
  ghost function Closure(e: Edges, s: set<Symbol>): set<Symbol>
  {
    CloseFrom(e, s)
  }

  /** Every successor of a member of `c` is in `c`. */
  ghost predicate EdgeClosed(e: Edges, c: set<Symbol>)
  {
    forall x, y :: x in c && x in e && y in e[x] ==> y in c
  }

  lemma {:induction false} CloseFromBounds(e: Edges, s: set<Symbol>)
    ensures s <= CloseFrom(e, s) <= s + Targets(e)
    decreases |Targets(e) - s|
  {
    var n := s + Succ(e, s);
    if n != s {
      StepShrinks(e, s);
      CloseFromBounds(e, n);
      assert Succ(e, s) <= Targets(e);
    }
  }

  lemma {:induction false} CloseFromClosed(e: Edges, s: set<Symbol>)
    ensures EdgeClosed(e, CloseFrom(e, s))
    decreases |Targets(e) - s|
  {
    var n := s + Succ(e, s);
    if n == s {
      forall x, y | x in s && x in e && y in e[x] ensures y in s {
        assert y in Succ(e, s);
      }
    } else {
      StepShrinks(e, s);
      CloseFromClosed(e, n);
    }
  }

  lemma {:induction false} CloseFromLeast(e: Edges, s: set<Symbol>, c: set<Symbol>)
    requires s <= c && EdgeClosed(e, c)
    ensures CloseFrom(e, s) <= c
    decreases |Targets(e) - s|
  {
    var n := s + Succ(e, s);
    if n != s {
      assert Succ(e, s) <= c;
      StepShrinks(e, s);
      CloseFromLeast(e, n, c);
    }
  }

  /** The closure contains its seeds, is closed, and adds only edge targets. */
  lemma ClosureFacts(e: Edges, s: set<Symbol>)
    ensures s <= Closure(e, s) <= s + Targets(e)
    ensures EdgeClosed(e, Closure(e, s))
  {
    CloseFromBounds(e, s);
    CloseFromClosed(e, s);
  }

  /** The closure is contained in every closed superset of the seeds. */
  lemma ClosureLeast(e: Edges, s: set<Symbol>, c: set<Symbol>)
    requires s <= c && EdgeClosed(e, c)
    ensures Closure(e, s) <= c
  {
    CloseFromLeast(e, s, c);
  }

  /** Transitivity: the closure from the successors of a reached node lies
      inside the closure that reached it. */
  lemma ClosureTransitive(e: Edges, s: set<Symbol>, x: Symbol)
    requires x in Closure(e, s) && x in e
    ensures Closure(e, e[x]) <= Closure(e, s)
  {
    ClosureFacts(e, s);
    ClosureLeast(e, e[x], Closure(e, s));
  }

  /** The symbols of `vs` that occur in some rule of `rules`. */
  ghost function RuleSymbols(rules: seq<Rule>, vs: set<Symbol>): set<Symbol>
  {
    set r, y | r in rules && y in r && y in vs :: y
  }

  /** The graph "`y` of `vs` occurs in a rule of key `x`". */
  ghost function SymbolEdges(p: Productions, vs: set<Symbol>): Edges
  {
    map x | x in p :: RuleSymbols(p[x], vs)
  }

  /** The symbols reachable from `root`: `root`, and every symbol of `vs` in a
      rule of a reachable key. */
  ghost function Reachable(p: Productions, vs: set<Symbol>, root: Symbol): set<Symbol>
  {
    Closure(SymbolEdges(p, vs), {root})
  }

  /** The reachable set contains the root, is closed under "a symbol of `vs` in a
      rule of a reachable key", holds nothing but the root and symbols of `vs`,
      and is the least such set. */
  lemma ReachableFacts(p: Productions, vs: set<Symbol>, root: Symbol)
    ensures root in Reachable(p, vs, root)
    ensures Reachable(p, vs, root) <= vs + {root}
    ensures forall x, r, y :: x in Reachable(p, vs, root) && x in p && r in p[x] && y in r && y in vs
              ==> y in Reachable(p, vs, root)
  {
    var e := SymbolEdges(p, vs);
    ClosureFacts(e, {root});
    forall x, r, y | x in Reachable(p, vs, root) && x in p && r in p[x] && y in r && y in vs
      ensures y in Reachable(p, vs, root)
    {
      assert y in e[x];
    }
  }

  lemma ReachableLeast(p: Productions, vs: set<Symbol>, root: Symbol, c: set<Symbol>)
    requires root in c
    requires forall x, r, y :: x in c && x in p && r in p[x] && y in r && y in vs ==> y in c
    ensures Reachable(p, vs, root) <= c
  {
    ClosureLeast(SymbolEdges(p, vs), {root}, c);
  }
}
