/**
 Unit productions: a rule made of exactly one symbol of the variable set. The
 unit set of a variable is the transitive closure of its direct unit targets;
 elimination keeps a key's non-unit rules and appends the rules of every member
 of its unit set, except the rule that is the key itself. Both normalisers use
 the same worklist and the same rewriting of one key.
 */
module Units {
  import opened Grammar
  import opened Graphs

  /** `len(r) == 1 and r[0] in vs`. */
  predicate IsUnit(r: Rule, vs: set<Symbol>)
  {
    |r| == 1 && r[0] in vs
  }

  /** The direct unit targets of `v`. */
  ghost function UnitTargets(p: Productions, vs: set<Symbol>, v: Symbol): set<Symbol>
  {
    set r | r in RulesOf(p, v) && IsUnit(r, vs) :: r[0]
  }

  /** The direct unit targets of every variable of `vs`. */
  ghost function DirectUnits(p: Productions, vs: set<Symbol>): Edges
  {
    map v | v in vs :: UnitTargets(p, vs, v)
  }

  /** The unit set of `x`: the variables reachable from `x` through one or more
      unit productions (empty for a symbol outside `vs`). */
  ghost function UnitSet(p: Productions, vs: set<Symbol>, x: Symbol): set<Symbol>
  {
    var d := DirectUnits(p, vs);
    if x in d then Closure(d, d[x]) else {}
  }

  /** The unit sets hold variables only, quoting their direct targets and
      closed under them. */
  lemma UnitSetFacts(p: Productions, vs: set<Symbol>, x: Symbol)
    requires x in vs
    ensures UnitTargets(p, vs, x) <= UnitSet(p, vs, x) <= vs
    ensures forall y :: y in UnitSet(p, vs, x) ==> UnitTargets(p, vs, y) <= UnitSet(p, vs, x)
  {
    var d := DirectUnits(p, vs);
    ClosureFacts(d, d[x]);
    forall z | z in Targets(d) ensures z in vs {
      var y :| y in d && z in d[y];
      var r :| r in RulesOf(p, y) && IsUnit(r, vs) && r[0] == z;
    }
    forall y | y in UnitSet(p, vs, x) ensures UnitTargets(p, vs, y) <= UnitSet(p, vs, x) {
      assert y in vs;
      assert y in d;
    }
  }

  /** The unit set is the least set containing the direct targets and closed
      under them. */
  lemma UnitSetLeast(p: Productions, vs: set<Symbol>, x: Symbol, c: set<Symbol>)
    requires x in vs
    requires UnitTargets(p, vs, x) <= c
    requires forall y :: y in c && y in vs ==> UnitTargets(p, vs, y) <= c
    ensures UnitSet(p, vs, x) <= c
  {
    var d := DirectUnits(p, vs);
    ClosureLeast(d, d[x], c);
  }

  /** The loop at FormaNormalChomsky.py:99-103: the direct unit targets of the
      variables, scanning the keys `ks` (every key in `vs`). */
  method CollectUnits(p: Productions, vs: set<Symbol>, ks: set<Symbol>) returns (d: Edges)
    requires ks <= vs
    requires forall v :: v in p && v in vs ==> v in ks
    ensures d == DirectUnits(p, vs)
  {
    d := map v | v in vs :: {};
    var todo := ks;
    while todo != {}
      invariant todo <= ks && d.Keys == vs
      invariant forall v :: v in vs && v !in todo && v in ks ==> d[v] == UnitTargets(p, vs, v)
      invariant forall v :: v in vs && (v in todo || v !in ks) ==> d[v] == {}
      decreases todo
    {
      var v :| v in todo;
      var rules := RulesOf(p, v);
      var i := 0;
      while i < |rules|
        invariant 0 <= i <= |rules| && d.Keys == vs
        invariant d[v] == set r | r in rules[..i] && IsUnit(r, vs) :: r[0]
        invariant forall w :: w in vs && w != v && w !in todo && w in ks ==> d[w] == UnitTargets(p, vs, w)
        invariant forall w :: w in vs && w != v && (w in todo || w !in ks) ==> d[w] == {}
      {
        assert forall r :: r in rules[..i + 1] <==> r in rules[..i] || r == rules[i];
        if IsUnit(rules[i], vs) {
          d := d[v := d[v] + {rules[i][0]}];
        }
        i := i + 1;
      }
      assert rules[..i] == rules;
      todo := todo - {v};
    }
    forall v | v in vs && v !in ks ensures UnitTargets(p, vs, v) == {} {
      assert v !in p;
    }
  }

  /** The loop at FormaNormalChomsky.py:105-113 (identical at
      LimpiaGramaticaLC.py:56-64): each variable's set grows, through a worklist,
      into the transitive closure of the direct sets. Sets of variables handled
      earlier are already closed, later ones are still direct; both are fine. */
  method CloseUnits(d: Edges) returns (u: Edges)
    requires forall v :: v in d ==> d[v] <= d.Keys
    ensures u.Keys == d.Keys
    ensures forall v :: v in d ==> u[v] == Closure(d, d[v])
  {
    u := d;
    var todo := d.Keys;
    forall v | v in d ensures d[v] <= Closure(d, d[v]) {
      ClosureFacts(d, d[v]);
    }
    assert Between(d, u);
    while todo != {}
      invariant todo <= d.Keys && u.Keys == d.Keys
      invariant Between(d, u)
      invariant forall v :: v in todo ==> u[v] == d[v]
      invariant forall v :: v in d && v !in todo ==> u[v] == Closure(d, d[v])
      decreases todo
    {
      var v :| v in todo;
      u := CloseOne(d, u, v);
      todo := todo - {v};
    }
  }

  /** Every set of `u` lies between the direct targets and their closure, and
      within the keys. */
  ghost predicate Between(d: Edges, u: Edges)
    requires u.Keys == d.Keys
  {
    forall w :: w in d ==> d[w] <= u[w] <= Closure(d, d[w]) && u[w] <= d.Keys
  }

  /** The worklist for one variable `v`: `to_process.pop()` takes the last item. */
  method CloseOne(d: Edges, u0: Edges, v: Symbol) returns (u: Edges)
    requires v in d && u0.Keys == d.Keys
    requires forall w :: w in d ==> d[w] <= d.Keys
    requires Between(d, u0)
    requires u0[v] == d[v]
    ensures u.Keys == d.Keys
    ensures u[v] == Closure(d, d[v]) && u[v] <= d.Keys
    ensures forall w :: w in d && w != v ==> u[w] == u0[w]
  {
    u := u0;
    var work := ListOf(u[v]);
    WorklistStart(d, u0, v, work);
    while work != []
      invariant WorklistInv(d, u0, u, v, work)
      decreases |d.Keys - u[v]|, |work|
    {
      u, work := Process(d, u0, u, v, work);
    }
    WorklistEnd(d, u0, u, v);
  }

  /** The worklist starts as the list of `v`'s direct targets. */
  lemma WorklistStart(d: Edges, u0: Edges, v: Symbol, work: seq<Symbol>)
    requires v in d && u0.Keys == d.Keys
    requires forall w :: w in d ==> d[w] <= d.Keys
    requires Between(d, u0)
    requires u0[v] == d[v]
    requires forall x :: x in work <==> x in u0[v]
    ensures WorklistInv(d, u0, u0, v, work)
  {
  }

  /** With the worklist empty, `v`'s set is closed and so is the closure. */
  lemma WorklistEnd(d: Edges, u0: Edges, u: Edges, v: Symbol)
    requires WorklistInv(d, u0, u, v, [])
    ensures u[v] == Closure(d, d[v])
  {
    forall x, y | x in u[v] && x in d && y in d[x] ensures y in u[v] {
      assert d[x] <= u[x];
    }
    ClosureLeast(d, d[v], u[v]);
  }

  /** What the worklist loop for `v` keeps: only `v`'s set changes, it stays
      between the direct targets and the closure, the worklist holds members of
      it, and every member already processed has its own set absorbed. */
  ghost predicate WorklistInv(d: Edges, u0: Edges, u: Edges, v: Symbol, work: seq<Symbol>)
  {
    && v in d && u.Keys == d.Keys && u0.Keys == d.Keys
    && (forall w :: w in d ==> d[w] <= d.Keys)
    && (forall w :: w in d ==> d[w] <= u0[w] <= Closure(d, d[w]) && u0[w] <= d.Keys)
    && (forall w :: w in d && w != v ==> u[w] == u0[w])
    && d[v] <= u[v] <= Closure(d, d[v]) && u[v] <= d.Keys
    && (forall x :: x in work ==> x in u[v])
    && (forall x :: x in u[v] && x !in work ==> u[x] <= u[v])
  }

  /** One turn of the worklist loop: pop a unit and absorb its set. */
  method Process(d: Edges, u0: Edges, u: Edges, v: Symbol, work: seq<Symbol>)
    returns (u': Edges, work': seq<Symbol>)
    requires WorklistInv(d, u0, u, v, work) && work != []
    ensures WorklistInv(d, u0, u', v, work')
    ensures |d.Keys - u'[v]| < |d.Keys - u[v]| || (u'[v] == u[v] && |work'| < |work|)
  {
    var unit := work[|work| - 1];
    work' := work[..|work| - 1];
    assert forall x :: x in work <==> x in work' || x == unit;
    u' := u;
    assert unit in u[v] && unit in d;
    ClosureTransitive(d, d[v], unit);
    if unit in u {
      assert u[unit] <= Closure(d, d[v]) by {
        if unit != v {
          assert u[unit] == u0[unit];
        }
      }
      var s, added := Absorb(d.Keys, u[v], u[unit]);
      if s != u[v] {
        ProperSubsetCard(d.Keys - s, d.Keys - u[v]);
      }
      AbsorbKeeps(d, u0, u, v, work, s, added);
      u' := u[v := s];
      work' := work' + added;
    }
  }

  /** Absorbing the popped unit's set into `v`'s, and appending the new
      symbols to the rest of the worklist, keeps the worklist invariant. */
  lemma AbsorbKeeps(d: Edges, u0: Edges, u: Edges, v: Symbol, work: seq<Symbol>, s: set<Symbol>, added: seq<Symbol>)
    requires WorklistInv(d, u0, u, v, work) && work != []
    requires work[|work| - 1] in u && u[work[|work| - 1]] <= Closure(d, d[v]) && u[work[|work| - 1]] <= d.Keys
    requires s == u[v] + u[work[|work| - 1]]
    requires forall x :: x in added <==> x in u[work[|work| - 1]] && x !in u[v]
    ensures WorklistInv(d, u0, u[v := s], v, work[..|work| - 1] + added)
  {
    var unit := work[|work| - 1];
    var rest := work[..|work| - 1];
    var u', work' := u[v := s], rest + added;
    assert forall x :: x in work <==> x in rest || x == unit;
    assert u'[v] == s && d[v] <= s <= Closure(d, d[v]) && s <= d.Keys;
    assert forall w :: w in d && w != v ==> u'[w] == u0[w];
    assert forall x :: x in work' ==> x in s;
    forall x | x in s && x !in work' ensures u'[x] <= s {
      if x != v && x != unit {
        assert x in u[v] && x !in work;
        assert u'[x] == u[x];
      } else if x == unit && x != v {
        assert u'[x] == u[unit];
      }
    }
  }

  /** `for symbol in src: if symbol not in s: s.add(symbol); to_process.append(symbol)`:
      the symbols appended to the worklist are `added`. */
  method Absorb(keys: set<Symbol>, s: set<Symbol>, src: set<Symbol>)
    returns (s': set<Symbol>, added: seq<Symbol>)
    requires s <= keys && src <= keys
    ensures s' == s + src
    ensures forall x :: x in added <==> x in src && x !in s
    ensures s' == s ==> added == []
  {
    s', added := s, [];
    var pending := src;
    while pending != {}
      invariant pending <= src
      invariant s' == s + (src - pending)
      invariant forall x :: x in added <==> x in src - pending && x !in s
      invariant s' == s ==> added == []
      decreases pending
    {
      var symbol :| symbol in pending;
      pending := pending - {symbol};
      if symbol !in s' {
        s' := s' + {symbol};
        added := added + [symbol];
      }
    }
  }

  /** `list(s)`: the members of a set in some order, each once. */
  method ListOf(s: set<Symbol>) returns (xs: seq<Symbol>)
    ensures forall x :: x in xs <==> x in s
    ensures NoDup(xs)
  {
    xs := [];
    var rest := s;
    while rest != {}
      invariant rest <= s
      invariant forall x :: x in xs <==> x in s - rest
      invariant NoDup(xs)
      decreases rest
    {
      var x :| x in rest;
      NoDupConcat(xs, [x]);
      xs := xs + [x];
      rest := rest - {x};
    }
  }

  /** Rules that are not unit productions: `len(r) != 1 or r[0] not in vs`. */
  function NonUnit(rules: seq<Rule>, vs: set<Symbol>): seq<Rule>
  {
    Filter(rules, (r: Rule) => !IsUnit(r, vs))
  }

  /** `[r for r in rules if r != x]`. */
  function WithoutRule(rules: seq<Rule>, x: Rule): seq<Rule>
  {
    Filter(rules, (r: Rule) => r != x)
  }

  /** `out` is a rewriting of key `v` with unit set `c`: its non-unit rules in
      their order, then exactly the rules other than `[v]` of the members of
      `c` (in the set's iteration order, possibly repeated). */
  ghost predicate Inlined(out: seq<Rule>, p: Productions, vs: set<Symbol>, v: Symbol, c: set<Symbol>)
    requires v in p
  {
    var head := NonUnit(p[v], vs);
    && |head| <= |out|
    && out[..|head|] == head
    && (forall r :: r in out[|head|..] ==> r != [v] && exists x :: x in c && x in p && r in p[x])
    && (forall x, r :: x in c && x in p && r in p[x] && r != [v] ==> r in out[|head|..])
  }

  /** The rewriting of one key at FormaNormalChomsky.py:117-122 (identical at
      LimpiaGramaticaLC.py:68-72); `ok` is false where `productions[unit]`
      finds no entry for a member of the unit set (KeyError on a plain dict). */
  method InlineUnits(p: Productions, vs: set<Symbol>, v: Symbol, c: set<Symbol>) returns (ok: bool, out: seq<Rule>)
    requires v in p
    ensures ok <==> c <= p.Keys
    ensures ok ==> Inlined(out, p, vs, v, c)
  {
    var rules := p[v];
    var head: seq<Rule> := [];
    for i := 0 to |rules|
      invariant head == NonUnit(rules[..i], vs)
    {
      assert rules[..i + 1] == rules[..i] + [rules[i]];
      FilterAppend(rules[..i], rules[i], (r: Rule) => !IsUnit(r, vs));
      if !IsUnit(rules[i], vs) {
        head := head + [rules[i]];
      }
    }
    assert rules[..|rules|] == rules;
    var tail: seq<Rule> := [];
    var todo := c;
    while todo != {}
      invariant todo <= c
      invariant c - todo <= p.Keys
      invariant forall r :: r in tail ==> r != [v] && exists x :: x in c && x in p && r in p[x]
      invariant forall x, r :: x in c - todo && x in p && r in p[x] && r != [v] ==> r in tail
      decreases todo
    {
      var unit :| unit in todo;
      if unit !in p {
        return false, [];
      }
      var more := WithoutRule(p[unit], [v]);
      FilterMembers(p[unit], (r: Rule) => r != [v]);
      tail := tail + more;
      todo := todo - {unit};
    }
    ok := true;
    out := head + tail;
    assert out[..|head|] == head && out[|head|..] == tail;
  }

  /** The rewriting loop of FormaNormalChomsky.py:115-123 (and
      LimpiaGramaticaLC.py:65-73) over every key, with `units[v]` the unit set
      of `v`; `ok` is false when some key's unit set holds a symbol without an
      entry, and `bad` is then the key being rewritten when the lookup failed. */
  method InlineAll(p: Productions, vs: set<Symbol>, units: Edges) returns (ok: bool, out: Productions, bad: Symbol)
    requires p.Keys <= units.Keys
    ensures ok <==> forall v, x :: v in p && x in units[v] ==> x in p
    ensures !ok ==> bad in p && !(units[bad] <= p.Keys)
    ensures ok ==> out.Keys == p.Keys
    ensures ok ==> forall v :: v in p ==> Inlined(out[v], p, vs, v, units[v])
  {
    out := map[];
    var todo := p.Keys;
    while todo != {}
      invariant todo <= p.Keys
      invariant out.Keys == p.Keys - todo
      invariant forall v :: v in out ==> Inlined(out[v], p, vs, v, units[v])
      invariant forall v, x :: v in p && v !in todo && x in units[v] ==> x in p
      decreases todo
    {
      var v :| v in todo;
      var found, rules := InlineUnits(p, vs, v, units[v]);
      if !found {
        return false, out, v;
      }
      out := out[v := rules];
      todo := todo - {v};
    }
    ok, bad := true, "";
  }

  /** Every member of every key's unit set has an entry, so that no lookup of
      FormaNormalChomsky.py:122 or LimpiaGramaticaLC.py:72 misses. */
  ghost predicate UnitSetsKeyed(p: Productions, vs: set<Symbol>)
  {
    forall v, x :: v in p && x in UnitSet(p, vs, v) ==> x in p
  }

  /** A `defaultdict(list)` after `p[x]` was read for every `x` in `c`: every
      missing key now has an empty entry. */
  function Touched(p: Productions, c: set<Symbol>): (q: Productions)
    ensures q.Keys == p.Keys + c
    ensures forall x :: x in p ==> q[x] == p[x]
    ensures forall x :: x in c && x !in p ==> q[x] == []
  {
    map x | x in p.Keys + c :: if x in p then p[x] else []
  }

  /** The rewritten list starts with the key's own rules minus its unit rules:
      none of them is a unit rule, and every non-unit rule is there, in order. */
  lemma InlinedHead(out: seq<Rule>, p: Productions, vs: set<Symbol>, v: Symbol, c: set<Symbol>)
    requires v in p && Inlined(out, p, vs, v, c)
    ensures forall i :: 0 <= i < |NonUnit(p[v], vs)| ==> !IsUnit(out[i], vs)
    ensures IsSubsequence(out[..|NonUnit(p[v], vs)|], p[v])
    ensures forall r :: r in p[v] && !IsUnit(r, vs) ==> r in out
  {
    var head := NonUnit(p[v], vs);
    FilterMembers(p[v], (q: Rule) => !IsUnit(q, vs));
    FilterIsSubsequence(p[v], (q: Rule) => !IsUnit(q, vs));
    forall i | 0 <= i < |head| ensures !IsUnit(out[i], vs) {
      assert out[i] == head[i] && head[i] in head;
    }
    assert out == out[..|head|] + out[|head|..];
  }

  /** No rewritten rule list contains the rule `[v]` of a key `v` in the
      variable set. */
  lemma InlinedNoSelf(out: seq<Rule>, p: Productions, vs: set<Symbol>, v: Symbol, c: set<Symbol>)
    requires v in p && v in vs && Inlined(out, p, vs, v, c)
    ensures [v] !in out
  {
    var head := NonUnit(p[v], vs);
    FilterMembers(p[v], (r: Rule) => !IsUnit(r, vs));
    assert out == out[..|head|] + out[|head|..];
    assert IsUnit([v], vs);
  }

  /** Every rewritten rule is a non-unit rule of the key itself or a rule of a
      member of its unit set. (A unit rule of the key can come back through the
      second disjunct when the key lies on a unit cycle and so is in its own
      unit set; see `InlinedCycle`.) */
  lemma InlinedOrigin(out: seq<Rule>, p: Productions, vs: set<Symbol>, v: Symbol, c: set<Symbol>, r: Rule)
    requires v in p && Inlined(out, p, vs, v, c) && r in out
    ensures (r in p[v] && !IsUnit(r, vs)) || exists x :: x in c && x in p && r in p[x]
  {
    var head := NonUnit(p[v], vs);
    FilterMembers(p[v], (q: Rule) => !IsUnit(q, vs));
    assert out == out[..|head|] + out[|head|..];
  }

  /** When the key is in its own unit set (it lies on a cycle of unit rules),
      every rule of its own other than `[v]` is in the rewriting, its unit rules
      to other symbols included. */
  lemma InlinedCycle(out: seq<Rule>, p: Productions, vs: set<Symbol>, v: Symbol, c: set<Symbol>)
    requires v in p && v in c && Inlined(out, p, vs, v, c)
    ensures forall r :: r in p[v] && r != [v] ==> r in out
  {
    var head := NonUnit(p[v], vs);
    assert out == out[..|head|] + out[|head|..];
  }

  /** Rewriting every key of a grammar with no empty rule introduces none. */
  lemma InlinedNoEmpty(out: Productions, p: Productions, vs: set<Symbol>)
    requires forall v :: v in p ==> [] !in p[v]
    requires out.Keys <= p.Keys
    requires forall v :: v in out ==> Inlined(out[v], p, vs, v, UnitSet(p, vs, v))
    ensures forall v :: v in out ==> [] !in out[v]
  {
    forall v | v in out ensures [] !in out[v] {
      if [] in out[v] {
        InlinedOrigin(out[v], p, vs, v, UnitSet(p, vs, v), []);
      }
    }
  }
}
