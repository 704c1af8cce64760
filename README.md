# Context-free grammar normaliser

This project models two classes of a context-free-grammar normaliser and proves properties of them in Dafny.

- `CFGtoCNF` (FormaNormalChomsky.py) converts a grammar towards Chomsky normal form (CNF). It runs these passes in order:
  1. wraps the start symbol in a new start symbol `S0`;
  2. drops the entries of keys that are not both generating and reachable;
  3. removes empty rules by expanding nullable occurrences;
  4. inlines the closure of unit productions;
  5. splits every rule longer than two symbols into a chain of fresh variables `X1`, `X2`, …
- `GLC` (LimpiaGramaticaLC.py) is a grammar cleaner with four separate passes:
  - non-generating symbols, which also filters the rule bodies;
  - inaccessible symbols, by a breadth-first search;
  - unit productions;
  - empty rules.

A grammar is modelled as follows:

- symbols are strings;
- a rule is a sequence of symbols;
- the productions map each key to its sequence of rules.

Both classes are `class`es whose fields their methods reassign: productions, variables or nonterminals, and new variables. Every `for` and `while` statement of the source is a loop with invariants in the model; list and dict comprehensions are functions (`Grammar.Filter`, `Grammar.KeepRules`, `Grammar.Restrict`). Each loop is proved to compute a specification function:

- the generating and nullable sets are one least fixpoint (`Fixpoints.Generating`). When no terminals are given, it is the nullable set.
- the reachable set and the unit closure are a graph closure (`Graphs.Closure`);
- the expansion of nullable occurrences is `Expansion.Combos`;
- the unit rewriting is `Units.Inlined`;
- binarisation is `Cnf.Binarised`, with `Cnf.Unchain` as its inverse.

Iteration order over a dict or a set is a nondeterministic choice (`:|`). Every contract holds for every order.

Several behaviours of the code are modelled as written:

- **Useless pass.** The CNF version keeps or drops whole dict entries (FormaNormalChomsky.py:63). A kept rule can still mention a dropped symbol. The GLC version also filters the rule bodies (LimpiaGramaticaLC.py:31).
- **Unit inlining.** It copies every rule of a reached variable except `[v]`, unit rules included (FormaNormalChomsky.py:122, LimpiaGramaticaLC.py:72). Textbook unit elimination copies only non-unit rules; the model follows the code. So unit rules to third symbols can survive. The model claims:
  - the head of the rewritten list is the key's own rules without its unit rules (`Units.InlinedHead`);
  - when the key lies on a cycle of unit rules it is in its own unit set, and then its own rules other than `[v]`, unit rules included, come back in the tail (`Units.InlinedCycle`);
  - `[v]` itself never appears when `v` is in the variable set (`Units.InlinedNoSelf`). A GLC key outside the nonterminals keeps a rule `[v]`, since such a rule is not a unit rule there (LimpiaGramaticaLC.py:69).
- **Failure in the unit pass.** `productions[unit]` fails when a reached variable has no entry. The CNF version also raises KeyError when a key is not a variable. The model returns `ok == false` in those cases.
  - On a plain dict the lookup raises KeyError and the productions are unchanged.
  - In GLC the productions are a `defaultdict(list)` after `eliminar_vacias` or a successful `eliminar_unitarias`. The field `isDefaultdict` records this. There the lookup at LimpiaGramaticaLC.py:72 inserts an empty entry for every missing member of the unit set of the key being rewritten. The iteration over the resized dict at line 67 then raises RuntimeError. The model states that final state (`Units.Touched`).
- **Binarisation order.** It pairs the first two symbols, so `S -> A B C` becomes `X1 -> A B` and `S -> X1 C`. This is left-branching, where textbook presentations often show a right-branching chain.
- **Fresh names.** `get_new_variable` avoids only `variables` and `new_variables`. A terminal named `X1` is not avoided. The model states exactly that freshness.
- **GLC output keys.** Its outputs are `defaultdict`s, so a key gets an entry only when something is written for it:
  - in `eliminar_vacias`, a key gets one when it has a non-empty rule;
  - in `eliminar_unitarias`, a key gets one when it has a non-unit rule or a non-empty unit set.

  The CNF passes write an entry for every key.

## Model

| member | source | states |
|---|---|---|
| Fixpoints.GeneratingClosed | FormaNormalChomsky.py:35-49 | the generating set holds only keys and is closed: a key with a rule made of terminals and generating symbols is generating |
| Fixpoints.GeneratingLeast | FormaNormalChomsky.py:35-49 | the generating set is contained in every closed set, so it is the least one |
| Fixpoints.GeneratingFixpoint | FormaNormalChomsky.py:41-47 | a symbol is generating exactly when it is a key with a rule made only of terminals and generating symbols |
| Fixpoints.EmptyRuleGenerating | FormaNormalChomsky.py:67-71 | a key with the empty rule is generating, and so (with no terminals) nullable |
| Fixpoints.NullableAreKeys | FormaNormalChomsky.py:73-81 | a symbol without an entry, such as a terminal, is never nullable |
| Graphs.ReachableFacts | FormaNormalChomsky.py:51-61 | the reachable set contains the start symbol and lies within the variables plus the start symbol. It is closed under "a variable occurring in a rule of a reachable key" |
| Graphs.ReachableLeast | FormaNormalChomsky.py:51-61 | the reachable set is contained in every set that holds the start symbol and is closed that way |
| Graphs.ClosureFacts | FormaNormalChomsky.py:105-113 | a closure contains its seed, adds only edge targets and is closed under the edges |
| Graphs.ClosureLeast | FormaNormalChomsky.py:105-113 | a closure is contained in every closed superset of its seed |
| Graphs.ClosureTransitive | FormaNormalChomsky.py:109-113 | the closure from a reached symbol's successors stays inside the closure, so an already-closed set can be merged in |
| Grammar.Restrict | FormaNormalChomsky.py:63 | the kept keys are exactly the keys that are also in the kept set, with their rule lists unchanged |
| Grammar.KeepRulesFacts | LimpiaGramaticaLC.py:31 | a rule is kept exactly when it is made only of allowed symbols; kept rules are a subsequence of the old list |
| Grammar.FilterMembers | LimpiaGramaticaLC.py:31 | an element is in a filtered list exactly when it is in the list and passes the test |
| Grammar.FilterIsSubsequence | LimpiaGramaticaLC.py:31 | filtering keeps the relative order |
| Expansion.CombosCount | FormaNormalChomsky.py:88-93 | a rule with k nullable occurrences has exactly 2^k combinations before empty ones are filtered |
| Expansion.CombosSound | FormaNormalChomsky.py:88-93 | every combination is the rule with some nullable occurrences dropped |
| Expansion.CombosComplete | FormaNormalChomsky.py:88-93 | every way of dropping nullable occurrences is among the combinations |
| Expansion.DropsNothing | FormaNormalChomsky.py:88-93 | dropping no occurrence is one of those ways |
| Expansion.DropsIsSubsequence | FormaNormalChomsky.py:88-94 | a combination is a subsequence of its rule |
| Expansion.DropsKeepsRequired | FormaNormalChomsky.py:88-94 | a combination keeps every non-nullable symbol of its rule, in order |
| Expansion.RuleAmongCombos | FormaNormalChomsky.py:87-94 | a non-empty rule is itself among its non-empty combinations |
| Expansion.ExpandRule | FormaNormalChomsky.py:88-94 | the combination loop yields the non-empty combinations of the rule |
| Expansion.ExpandAll | FormaNormalChomsky.py:85-94 | the loop over a key's rules yields the combinations of all its non-empty rules, in order |
| Expansion.EpsFreeNoEmpty | FormaNormalChomsky.py:94 | no expanded rule is empty |
| Expansion.EpsFreeSound | FormaNormalChomsky.py:86-94 | every expanded rule comes from a non-empty rule by dropping nullable occurrences |
| Expansion.EpsFreeComplete | FormaNormalChomsky.py:86-94 | every non-empty way of dropping nullable occurrences from a non-empty rule is produced |
| Expansion.EpsFreeEmpty | LimpiaGramaticaLC.py:97-106 | the expansion is empty exactly when every rule of the key is empty |
| Expansion.EmptyFreeFacts | FormaNormalChomsky.py:83-95 | every key is kept; no rule is empty; every rule comes from a non-empty rule of its key by dropping nullable occurrences; every non-empty rule survives |
| Expansion.DropEmptyFacts | LimpiaGramaticaLC.py:96-108 | a key keeps an entry exactly when it had a non-empty rule; no rule is empty; every rule comes from a non-empty rule of its key by dropping nullable occurrences; every non-empty rule survives |
| Names.NameInjective | FormaNormalChomsky.py:143-145 | different indices give different names `X{i}` |
| Names.NamesUpToCount | FormaNormalChomsky.py:143-145 | the names with indices 1 to n are n distinct names |
| Names.FreeIndex | FormaNormalChomsky.py:142-144 | every finite set of names leaves some index from 1 on free, so the search terminates |
| Units.UnitSetFacts | FormaNormalChomsky.py:105-113 | the unit set of a variable contains its direct unit targets, lies within the variables and is closed under direct unit targets |
| Units.UnitSetLeast | FormaNormalChomsky.py:105-113 | the unit set is contained in every set closed that way, so it is the transitive closure |
| Units.CollectUnits | FormaNormalChomsky.py:99-103 | the scan yields, for every variable, exactly the targets of its unit rules |
| Units.CloseUnits | FormaNormalChomsky.py:105-113 | every variable's set becomes the transitive closure of the direct unit targets |
| Units.CloseOne | FormaNormalChomsky.py:106-113 | the worklist for one variable ends with that variable's closure and leaves the other sets alone |
| Units.Process | FormaNormalChomsky.py:108-113 | one pop keeps the worklist invariant, and either the set grows or the worklist shrinks |
| Units.Absorb | FormaNormalChomsky.py:110-113 | the set becomes the union, and exactly the symbols not yet in it are appended to the worklist |
| Units.ListOf | FormaNormalChomsky.py:106 | the list holds exactly the members of the set, each once |
| Units.InlineUnits | FormaNormalChomsky.py:116-122 | one key is rewritten by `Inlined`, or the KeyError case when a member of the unit set has no entry |
| Units.InlineAll | FormaNormalChomsky.py:115-123 | fails exactly when some key's unit set holds a symbol without an entry, and then names a key whose unit set does; otherwise every key is rewritten by `Inlined` |
| Units.Touched | LimpiaGramaticaLC.py:72 | reading the given symbols from a `defaultdict(list)` adds an empty entry for each missing one and leaves every existing entry as it was |
| Units.InlinedHead | FormaNormalChomsky.py:118-120 | the rewritten list starts with the key's non-unit rules in their order; none is a unit rule and none is lost |
| Units.InlinedNoSelf | FormaNormalChomsky.py:122 | for a key `v` in the variable set, no rewritten list contains the rule `[v]` |
| Units.InlinedOrigin | FormaNormalChomsky.py:116-122 | every rewritten rule is a non-unit rule of the key or a rule of a member of its unit set |
| Units.InlinedCycle | FormaNormalChomsky.py:121-122 | when the key is in its own unit set, every rule of its own other than `[v]` is in the rewritten list, unit rules included |
| Units.InlinedNoEmpty | FormaNormalChomsky.py:115-123 | rewriting a grammar with no empty rule introduces none |
| Cnf.BinarisedShape | FormaNormalChomsky.py:125-138 | after binarisation every rule has one or two symbols when no rule was empty |
| Cnf.CFGtoCNF.constructor | FormaNormalChomsky.py:9-15 | the fields hold the arguments, the new maps and sets are empty, the new start symbol is `S0` |
| Cnf.CFGtoCNF.AddNewStartSymbol | FormaNormalChomsky.py:26-31 | `S0 -> [start]` is added to both production maps and `S0` to both variable sets; all other entries are unchanged |
| Cnf.CFGtoCNF.GenerationStep | FormaNormalChomsky.py:42-46 | one scan adds exactly the keys with a rule made of the current set and the given terminals |
| Cnf.CFGtoCNF.LeastFixpoint | FormaNormalChomsky.py:35-49 | the loop ends with the least generating set (with the terminals) or the nullable set (with none, lines 67-81) |
| Cnf.CFGtoCNF.ReachStep | FormaNormalChomsky.py:53-58 | one round adds exactly the variables occurring in rules of members |
| Cnf.CFGtoCNF.ReachableSet | FormaNormalChomsky.py:51-61 | the loop ends with the reachable set from `S0` |
| Cnf.CFGtoCNF.RemoveUselessProductions | FormaNormalChomsky.py:33-63 | the productions become the entries of keys that are both generating and reachable, rule lists unchanged; all keys are variables or `S0` |
| Cnf.CFGtoCNF.RemoveEmptyProductions | FormaNormalChomsky.py:65-95 | every key's rules become the expansion of its non-empty rules over the nullable set; the keys are kept and no rule is empty |
| Cnf.CFGtoCNF.RemoveUnitProductions | FormaNormalChomsky.py:97-123 | fails exactly when some key is not a variable or some unit set member has no entry, leaving the productions unchanged; otherwise every key is rewritten by `Inlined` with its unit set |
| Cnf.CFGtoCNF.GetNewVariable | FormaNormalChomsky.py:140-145 | the name is `X{i}` for the least i ≥ 1 that is neither a variable nor a new variable |
| Cnf.CFGtoCNF.BinarizeRule | FormaNormalChomsky.py:131-136 | the rule shrinks to at most two symbols and is unchanged if it had at most two. Each fresh variable gets one rule of two symbols, and undoing the chain gives back the rule |
| Cnf.CFGtoCNF.BinarizeKey | FormaNormalChomsky.py:128-137 | every rule of a key is binarised in order; entries of other keys are untouched |
| Cnf.CFGtoCNF.ConvertToBinary | FormaNormalChomsky.py:125-138 | each rule of each old key is binarised one for one. Each new key is a fresh variable, joins both variable sets and holds one rule of two symbols |
| Cnf.CFGtoCNF.ConvertToCnf | FormaNormalChomsky.py:18-24 | after the whole pipeline `S0` is a variable and a new variable, and the old variables are kept. It fails exactly when some unit set of the productions reaching the unit pass holds a variable without an entry. When it does not fail, every rule has one or two symbols |
| Cnf.Convert | FormaNormalChomsky.py:8-16 | constructing the object runs the conversion. The new start symbol is `S0`, a variable and a new variable; the given variables are kept; terminals and start symbol are the given ones. It fails exactly under the unit-pass condition on the productions reaching that pass; otherwise every rule has one or two symbols |
| Glc.KeepGeneratingFacts | LimpiaGramaticaLC.py:30-32 | the kept keys are the generating keys; every kept rule uses only terminals and generating symbols; kept rules keep their order; no such rule is lost |
| Glc.FirstRuleIn | LimpiaGramaticaLC.py:23-27 | the scan with `break` finds a rule exactly when some rule is made of the allowed symbols |
| Glc.UnitSets | LimpiaGramaticaLC.py:50-64 | the unit set read for each key is its transitive unit closure, empty for a key outside the nonterminals |
| Glc.WrittenKeys | LimpiaGramaticaLC.py:66-73 | a key gets an entry in the output `defaultdict` exactly when it has a non-unit rule or a non-empty unit set, and the entry is its rewriting by `Inlined` |
| Glc.GLC.constructor | LimpiaGramaticaLC.py:10-14 | terminals and nonterminals become sets of the given lists; productions and start symbol are kept as given, together with whether the dict is a `defaultdict` |
| Glc.GLC.SaturationPass | LimpiaGramaticaLC.py:20-27 | one pass stays within the least fixpoint, reports a change exactly when it added a key, and leaves a closed set when it did not |
| Glc.GLC.Saturate | LimpiaGramaticaLC.py:18-29 | the flag loop ends with the least fixpoint; it terminates because every non-final pass adds a key |
| Glc.GLC.EmptyRuleKeys | LimpiaGramaticaLC.py:78-82 | the first scan yields exactly the keys with an empty rule |
| Glc.GLC.EliminarNoGenerativos | LimpiaGramaticaLC.py:16-32 | the nonterminals are narrowed to the generating set, and the productions to generating keys and to rules made only of terminals and generating symbols; the result is a plain dict |
| Glc.GLC.VisitRule | LimpiaGramaticaLC.py:41-44 | the nonterminals of a rule become accessible, and exactly the new ones are enqueued, once each |
| Glc.GLC.Visit | LimpiaGramaticaLC.py:40-44 | the nonterminals in the rules of the dequeued symbol become accessible, and exactly the new ones are enqueued |
| Glc.GLC.BfsStep | LimpiaGramaticaLC.py:38-44 | one dequeue keeps the search invariant. The accessible set gains the nonterminals of the front's rules. The new queue is the old queue's tail followed by exactly the newly accessible symbols, each once, and these same symbols are appended to the history |
| Glc.GLC.BfsEnd | LimpiaGramaticaLC.py:38-45 | once the queue is empty the accessible set is the reachable set, and every entry of the history after the start symbol occurs in a rule of an earlier entry |
| Glc.GLC.Accesibles | LimpiaGramaticaLC.py:36-44 | the search ends with the reachable set from the start symbol. The history of the queue starts with the start symbol and holds every accessible symbol exactly once, and each later entry occurs in a rule of an earlier one |
| Glc.GLC.EliminarInaccesibles | LimpiaGramaticaLC.py:34-46 | nonterminals and production keys are narrowed to the accessible symbols; kept rule lists are unchanged; the result is a plain dict |
| Glc.GLC.EliminarUnitarias | LimpiaGramaticaLC.py:48-74 | fails exactly when some unit set member has no entry. On a plain dict the productions are then unchanged (KeyError). On a `defaultdict` they gain an empty entry for each missing member of one key's unit set (RuntimeError). Otherwise a key keeps an entry exactly when it has a non-unit rule or a non-empty unit set, is rewritten by `Inlined`, and the result is a `defaultdict` |
| Glc.GLC.EliminarVacias | LimpiaGramaticaLC.py:76-108 | the productions become the expansion over the nullable set, with entries only for keys that had a non-empty rule; the result is a `defaultdict` |
| Glc.GLC.EliminarInutiles | LimpiaGramaticaLC.py:110-113 | non-generating elimination followed by inaccessible elimination on its result |

## Left out

- `display_cnf` and `mostrar_gramatica`: they only print to the console.
- `get_cnf` is a plain read of the `productions` field.
- The `if __name__ == "__main__"` example blocks: they only build grammars and print.
- Language equivalence of the grammar before and after each pass: the code neither states nor checks it.
- Input validation: the code does none, so unknown symbols and a start symbol outside the nonterminals are simply carried along.
- Aliasing: the caller's `variables` set and `productions` dict are mutated by `add_new_start_symbol` and `convert_to_binary` (FormaNormalChomsky.py:30-31, 134). `GLC` likewise keeps the caller's dict (LimpiaGramaticaLC.py:13): when it is a `defaultdict` and `eliminar_unitarias` fails before another pass has rebuilt it, the empty entries of line 72 are added to the caller's object too. The model owns these collections as fields of the object, so the caller's copy is not modelled.
- Iteration order: the order of dict and set iteration is a nondeterministic choice, so no contract depends on it.
- Units.InlineUnits: the inlined tail is specified by membership only. The order of the unit-set members and repeated rules (several closure members can contribute the same rule) are not fixed.
- Units.InlineAll: each key's inlined tail is specified by membership only, as for `Units.InlineUnits`.
- Cnf.CFGtoCNF.RemoveUnitProductions: each key's inlined tail is specified by membership only, as for `Units.InlineUnits`.
- Glc.GLC.EliminarUnitarias: each key's inlined tail is specified by membership only, as for `Units.InlineUnits`. In the `defaultdict` failure case, which key's unit set is read depends on the dict's iteration order, so the model says only that it is one key whose unit set has a missing member.
- Cnf.CFGtoCNF.RemoveUnitProductions: when it reports a KeyError, it does not say which of lines 103, 121 or 122 raised it, since no state change is visible either way.
- Cnf.CFGtoCNF.ConvertToBinary: it requires every production key to be a variable. Inside the pipeline this always holds after `remove_useless_productions`, because every reachable key is a variable. Without it, a fresh name could coincide with a key that is not a variable.
- Cnf.CFGtoCNF.ConvertToCnf: the end result is stated as the one-or-two-symbol shape, the start-symbol and variable facts and the failure condition; the final productions are not given as one function of the input. What each stage does is stated on that stage.
- Cnf.Convert: the same as for `Cnf.CFGtoCNF.ConvertToCnf`. The final productions are stated only by their shape, and the failure condition is stated on the intermediate productions (`Cnf.BeforeUnits`), not on the input grammar directly.
- Exceptions are modelled only for the unit passes: the KeyError of both versions and the RuntimeError of the GLC version on a `defaultdict`. No other line of the modelled code can raise on the inputs the model admits.
