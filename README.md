# parsers-ruby in Dafny

This project models the core of `parsers`, a Ruby library that does two things:

- It matches text against a grammar. A grammar is a tree of patterns: String,
  character Range, Alternation, Concatenation, Repetition and Recursion.
  There is a plain recursive-descent matcher, and a packrat matcher that
  caches its results per position.
- It reads grammars written in BNF, ISO EBNF and W3C EBNF into such pattern
  trees. Along the way it eliminates direct left, right and both-sided
  recursion. The EBNF and W3C readers also proxy indirect recursion through
  `Grammar::Recursion`; the BNF reader has no such step, and a BNF rule on a
  reference cycle is never converted.
  It can also write a set of named rules back out as Ruby, after breaking the
  cycles between them.

The model follows the library file by file:

- `grammar.dfy` (`Grammar`) holds the pattern and match-tree values that all the
  other modules share.
- `matching.dfy` (`Matching`) gives the meaning of `RecursiveDescent#visit` as
  functions. They take a fuel bound: a repetition that matches the empty
  string forever never returns in Ruby, and here it runs out of fuel. The
  module also proves what a match promises: cursor bounds, the longest
  alternative, all-or-nothing concatenation and repetition counts.
- `recursive_descent.dfy` (`RecursiveDescent`) is the matcher as a class. It has
  a `Scanner` whose cursor the methods move in place, and each method is proved
  equal to the `Matching` function.
- `packrat.dfy` (`Packrat`) is the caching matcher. The cache is a map field,
  and it is proved sound: every cached entry is what the pattern means at that
  position.
- `context.dfy` (`Contexts`) is the chain of variable scopes, as a class with a
  parent pointer.
- `conversion.dfy` (`Conversion`) holds the code that the readers share:
  - reference counting (all three readers);
  - the classification of a self-reference as left, right, both or center
    (all three);
  - the elimination of direct recursion (BNF and W3C; EBNF pools its
    remainders in `Ebnf.Pool` instead);
  - the sort by reference count (`SortByCount` for BNF, and `ByCount` over it
    for EBNF and W3C);
  - the path expansion that finds indirect recursion, and the proxy fix-up
    (EBNF and W3C only).
- `bnf.dfy` (`Bnf`), `ebnf.dfy` (`Ebnf`) and `w3c_ebnf.dfy` (`W3cEbnf`) model
  the three `read` functions. They work from the parsed rules, not from the
  text.
- `named_rules.dfy` (`NamedRules`) models `NamedRules`:
  - the ordered rule table and its accessors;
  - `references`, `find_referers` and the depth-first `sorted_names`;
  - the cycle breaking and reparenting of `break_cycles`;
  - the choice and order of the rules that `to_ruby` writes.

A Ruby `Hash` is modelled as a sequence of keys in insertion order together with a
map. `nil` is `None` or the `Nil` pattern. A raised exception is an error value:
`Raised`, `Fail(UnknownRuleType)` or `Fail(UndefinedRule(name))`.

Some facts about `break_cycles` are proved rather than assumed:

- Its walk removes only the reference that closes a recorded cycle, and leaves
  no cycle other than a rule that refers to itself. The proof uses ghost entry
  and finishing clocks.
- Its "has no referers" raise is unreachable.
- `external_references_for_node` terminates, because every internal rule was
  entered after its root.

## Model

| member | source | states |
|---|---|---|
| Grammar.Dedup | lib/parsers/named_rules.rb:44 | `uniq` keeps exactly the elements of the list, each once |
| Grammar.ToA | lib/parsers/bnf.rb:131 | `to_a` of a converted alternative has at least one element unless it is a Concatenation |
| Matching.Visit | lib/parsers/recursive_descent.rb:34-133 | the meaning of `visit`: a String compares at the cursor, a Range tests one character, the other kinds run their loops below (an Alternation or Concatenation match records its pattern and its start, as `pattern.new(..., location:)` does), and an unknown pattern raises; properties in the lemmas below |
| Matching.AltLoop | lib/parsers/recursive_descent.rb:44-66 | the `each` over the branches, each tried from the start, keeping the furthest match; properties in `AltLoopSucceeds`, `AltLoopFurthest` and `AltLoopChoice` |
| Matching.CatLoop | lib/parsers/recursive_descent.rb:68-78 | the `map` over the elements, rewinding to the start on a failed element that is not tolerated; properties in `CatLoopShape` |
| Matching.RepeatMinimum | lib/parsers/recursive_descent.rb:82-93 | the `minimum.times` loop, failing on a failed attempt that alone is rewound, then the bounded or unbounded loop; properties in `RepeatMinimumCount` and `RepeatStops` |
| Matching.RepeatUpTo | lib/parsers/recursive_descent.rb:95-105 | the `(maximum - minimum).times` loop, which ends at the first failed attempt; properties in `RepeatUpToCount` and `RepeatUpToStops` |
| Matching.RepeatUnbounded | lib/parsers/recursive_descent.rb:106-119 | the `loop do`, which ends at a failed attempt or at the end of the input; properties in `RepeatUnboundedCount` and `RepeatUnboundedStops` |
| Matching.ParseRoots | lib/parsers/recursive_descent.rb:14-21 | `parse`: every root visited in turn on one cursor, failures dropped, and an empty forest nil; the matchers' `Parse` methods are proved against it |
| Matching.VisitStaysWithin | lib/parsers/recursive_descent.rb:34-133 | a successful visit never moves the cursor back, and never past the end of the input |
| Matching.AltLoopSucceeds | lib/parsers/recursive_descent.rb:44-66 | the alternation loop matches iff it already holds a match, or some later branch is `''` or matches a non-empty prefix |
| Matching.AltLoopFurthest | lib/parsers/recursive_descent.rb:44-66 | the kept match ends at least as far as every non-empty branch that matched |
| Matching.AltLoopChoice | lib/parsers/recursive_descent.rb:44-66 | the kept match is the first branch that reaches its end position, wrapped with the start position |
| Matching.AlternationLongestMatch | lib/parsers/recursive_descent.rb:44-66 | an Alternation matches iff some branch is `''` or advances; it keeps the furthest match, and among equals the first |
| Matching.CatLoopShape | lib/parsers/recursive_descent.rb:68-78 | the concatenation loop rewinds to the start on failure; on success it has one part per element, and only tolerated elements are nil |
| Matching.ConcatenationAllOrNothing | lib/parsers/recursive_descent.rb:68-78 | a failed Concatenation leaves the cursor where it began; a successful one has one part per element, and only Recursions and optional elements are nil |
| Matching.RepeatUpToCount | lib/parsers/recursive_descent.rb:95-105 | the bounded loop adds at most `maximum - minimum` matches |
| Matching.RepeatUnboundedCount | lib/parsers/recursive_descent.rb:106-119 | the unbounded loop never loses a match already collected |
| Matching.RepeatMinimumCount | lib/parsers/recursive_descent.rb:82-93 | the minimum loop either fails or collects at least `minimum` matches |
| Matching.RepetitionCount | lib/parsers/recursive_descent.rb:80-125 | a nil result needs a non-zero minimum or an optional repetition; a list result holds between `minimum` and `maximum` matches; a nil result leaves the cursor at (not before) the attempt that failed; a list short of its maximum ends at an attempt that fails from the final cursor, and one without a maximum ends there or at the end of the input |
| Matching.RepeatUpToStops | lib/parsers/recursive_descent.rb:95-105 | the bounded loop either makes all its attempts or ends at an attempt that fails from the cursor it leaves, the earlier matches kept in order |
| Matching.RepeatUnboundedStops | lib/parsers/recursive_descent.rb:106-119 | the unbounded loop ends only at an attempt that fails from the cursor it leaves, or after a match that reaches the end of the input |
| Matching.RepeatStops | lib/parsers/recursive_descent.rb:82-119 | a repetition short of its minimum rewinds only the failing attempt, so the cursor stays after the earlier successes; a list short of its maximum, or without one short of the end of the input, ends at an attempt that fails there |
| RecursiveDescent.RecursiveDescent.constructor | lib/parsers/recursive_descent.rb:9-12 | starts with the grammar as the only root, or with none |
| RecursiveDescent.RecursiveDescent.Push | lib/parsers/recursive_descent.rb:24-26 | appends a root |
| RecursiveDescent.RecursiveDescent.Parse | lib/parsers/recursive_descent.rb:14-22 | visits every root in turn on one scanner, keeps the successes, and gives nil for an empty forest |
| RecursiveDescent.RecursiveDescent.Visit | lib/parsers/recursive_descent.rb:34-133 | the in-place visit returns the meaning of the pattern, and leaves the cursor after the match |
| RecursiveDescent.RecursiveDescent.VisitAlternation | lib/parsers/recursive_descent.rb:44-66 | the branch loop equals the alternation loop; the cursor ends after the kept match |
| RecursiveDescent.RecursiveDescent.VisitConcatenation | lib/parsers/recursive_descent.rb:68-78 | the element loop equals the concatenation loop, including the rewind on failure |
| RecursiveDescent.RecursiveDescent.VisitRepetition | lib/parsers/recursive_descent.rb:80-125 | the three repetition loops equal the repetition meaning, including the rewinds |
| Packrat.Packrat.constructor | lib/parsers/recursive_descent.rb:9-12 | starts with the roots of a recursive-descent matcher and an empty, sound cache |
| Packrat.Packrat.Push | lib/parsers/recursive_descent.rb:24-26 | appends a root and leaves the cache alone |
| Packrat.Packrat.Parse | lib/parsers/packrat.rb:5-9 | starts from a fresh cache; the result is the uncached parse whenever that finishes |
| Packrat.Packrat.Visit | lib/parsers/packrat.rb:11-27 | a String bypasses the cache and leaves it unchanged; a hit replays the stored length and result with the cache unchanged; a miss that finishes stores its cursor advance and its result, nil included; every earlier entry is kept; a failed Concatenation is stored with advance 0; the cache stays sound |
| Packrat.Packrat.VisitPattern | lib/parsers/recursive_descent.rb:34-133 | the matcher's own case analysis, with nested visits going through the cache, agrees with the meaning |
| Packrat.Packrat.VisitAlternation | lib/parsers/recursive_descent.rb:44-66 | the cached branch loop agrees with the alternation loop |
| Packrat.Packrat.VisitConcatenation | lib/parsers/recursive_descent.rb:68-78 | the cached element loop agrees with the concatenation loop |
| Packrat.Packrat.VisitRepetition | lib/parsers/recursive_descent.rb:80-125 | the cached minimum loop, then the bounded or unbounded loop, agree with the repetition meaning; earlier cache entries are kept |
| Packrat.Packrat.VisitUpTo | lib/parsers/recursive_descent.rb:95-105 | the cached loop up to the maximum agrees with the bounded loop, rewind included; earlier cache entries are kept |
| Packrat.Packrat.VisitUnbounded | lib/parsers/recursive_descent.rb:106-119 | the cached `loop do` agrees with the unbounded loop, rewind included; earlier cache entries are kept |
| Contexts.Nearest | lib/parsers/context.rb:8-10 | `fetch` with the parent's `[]` as fallback, over the chain of scopes; characterised by `NearestIsFirstBinding` and `NearestFindsAnyBinding` |
| Contexts.NearestIsFirstBinding | lib/parsers/context.rb:8-10 | lookup finds `v` iff some scope binds the key to `v` and no inner scope binds it |
| Contexts.NearestFindsAnyBinding | lib/parsers/context.rb:16-18 | lookup finds something iff some scope binds the key |
| Contexts.Context.constructor | lib/parsers/context.rb:3-6 | a nil local is an empty scope; the parent is kept |
| Contexts.Context.Get | lib/parsers/context.rb:8-10 | `[]` is the binding in the nearest scope that has one |
| Contexts.Context.HasKey | lib/parsers/context.rb:16-18 | `key?` holds iff `[]` finds a binding |
| Contexts.Context.Set | lib/parsers/context.rb:12-14 | `[]=` binds the key in this scope; every other key reads as before |
| Contexts.Context.Pop | lib/parsers/context.rb:20-22 | `pop` is the enclosing scope chain |
| Contexts.Context.Push | lib/parsers/context.rb:24-26 | `push` gives a new scope in front; its own keys shadow, all others read through |
| Contexts.Context.PushPattern | lib/parsers/context.rb:28-35 | a new scope only for a non-empty pattern context, otherwise this one |
| Conversion.Tally.Bump | lib/parsers/bnf.rb:82 | `+= 1` raises one count, leaves the others, and records the key |
| Conversion.Tally.Touch | lib/parsers/bnf.rb:196 | records the key with 0 when absent; no count changes |
| Conversion.ClassifyKind | lib/parsers/bnf.rb:85-97 | left iff first; both iff last after a left mark; right iff last otherwise; center iff neither |
| Conversion.Finish | lib/parsers/bnf.rb:170-177 | several alternatives are an Alternation; one is itself; none (or nil) means not converted |
| Conversion.Others | lib/parsers/bnf.rb:123 | the alternatives other than the recursive one, in order |
| Conversion.Eliminate | lib/parsers/bnf.rb:114-168 | both: a two-element recursive alternative is dropped and the others become one-or-more; right: the others get `any(remainder)` in front; left: a Concatenation gets it appended, other alternatives get it in front; an alternative equal to the remainder becomes one-or-more |
| Conversion.SortByCount | lib/parsers/bnf.rb:211 | the sort is a permutation, ordered by ascending count |
| Conversion.Insert | lib/parsers/bnf.rb:211 | inserting a name gives the list with that name added, as a multiset |
| Conversion.InsertKeepsDistinct | lib/parsers/bnf.rb:211 | inserting a name not yet listed keeps the names distinct |
| Conversion.SortedHeadIsLeast | lib/parsers/bnf.rb:211 | the head of a sorted list has the least count |
| Conversion.InsertKeepsSorted | lib/parsers/bnf.rb:211 | inserting by count keeps the list sorted |
| Conversion.SortKeepsDistinct | lib/parsers/bnf.rb:211 | sorting keeps distinct names distinct |
| Conversion.ByCount | lib/parsers/ebnf.rb:186 | `sort_by.to_h` lists every name once, with its entry, by ascending count |
| Conversion.ByCountListsEachName | lib/parsers/ebnf.rb:186 | the sorted hash built from the declared names holds each of them once, with its entry |
| Conversion.EntriesHoldTheNames | lib/parsers/ebnf.rb:186 | entries built from a reordering of the names hold each name with its rule, and no other name |
| Conversion.EntriesKeepTheOrder | lib/parsers/ebnf.rb:186 | entries built from distinct names sorted by count have distinct keys and ascending counts |
| Conversion.ExpandPaths | lib/parsers/ebnf.rb:155-174 | the `reduce` of path expansion: a new path per rule, paths ending in it extended by its references, and a path back to its first rule gives that rule a proxy; `ProxiesLieOnCycles` proves each proxy lies on a cycle |
| Conversion.Fan | lib/parsers/ebnf.rb:167-172 | each reference extends the path by one name |
| Conversion.StepExtendsChain | lib/parsers/ebnf.rb:167-172 | a chain extended by a reference of its last rule is still a chain |
| Conversion.ExtendKeepsChains | lib/parsers/ebnf.rb:165-173 | path expansion only ever builds chains of references |
| Conversion.ClosedLieOnCycles | lib/parsers/ebnf.rb:168-170 | a path that returns to its first rule shows that rule on a cycle |
| Conversion.ProxiesLieOnCycles | lib/parsers/ebnf.rb:155-174 | every Recursion proxy is for a rule on a cycle of references |
| Conversion.FixUp | lib/parsers/ebnf.rb:180-182 | every proxy gets the final pattern of its rule |
| Bnf.MapTerms | lib/parsers/bnf.rb:73-104 | one pattern per term, each the term's literal, its converted rule or a self-reference |
| Bnf.MapAlts | lib/parsers/bnf.rb:71-112 | one pattern per alternative, each the join of its mapped terms |
| Bnf.ConvertList | lib/parsers/bnf.rb:73-104 | the term walk bails iff some term is unresolvable; otherwise it maps every term, and only a self-reference in this alternative moves the tag |
| Bnf.ConvertAlts | lib/parsers/bnf.rb:71-112 | the alternative walk bails iff some term anywhere is unresolvable; otherwise it maps every alternative |
| Bnf.ConvertExpression | lib/parsers/bnf.rb:66-178 | nil on an unresolvable term; otherwise the recursion elimination of the mapped alternatives under the recorded tag |
| Bnf.ListCounts | lib/parsers/bnf.rb:80-83 | a successful walk adds exactly one count per reference to a converted rule |
| Bnf.AltsCounts | lib/parsers/bnf.rb:71-112 | the alternative walk only adds counts, at most one per reference and only for rules; on success exactly one per reference to a converted rule |
| Bnf.ReferenceCounts | lib/parsers/bnf.rb:66-178 | counts only grow, by at most one per reference; a conversion adds exactly its references to converted rules |
| Bnf.ConvertIgnoresCounts | lib/parsers/bnf.rb:66-178 | whether and how a rule converts never depends on the counts |
| Bnf.LastSelfIn | lib/parsers/bnf.rb:84-97 | the last self-reference before a position, if any |
| Bnf.TagIsLastSelfReference | lib/parsers/bnf.rb:84-97 | the recorded tag is the one of the last self-reference, classified within its own alternative |
| Bnf.LeftRecursionPrependsToLoneElement | lib/parsers/bnf.rb:161-165 | under left recursion, a base alternative that is a lone element gets the repetition in front, as written |
| Bnf.ConvertKeepsValid | lib/parsers/bnf.rb:194-197 | an attempt keeps the rule table and the counts consistent |
| Bnf.Pass | lib/parsers/bnf.rb:190-199 | one `reject` pass keeps the state consistent and keeps at most the rules it was given |
| Bnf.UnproductivePass | lib/parsers/bnf.rb:190-201 | a pass that keeps every rule changes nothing, and every kept rule fails against the rules it started with |
| Bnf.Fixpoint | lib/parsers/bnf.rb:189-204 | the loop ends with a consistent state |
| Bnf.KeptFirst | lib/parsers/bnf.rb:194-197 | in a pass that keeps every rule, the first rule fails to convert and only its counts carry into the rest of the pass |
| Bnf.PassKeepsSubsequence | lib/parsers/bnf.rb:190-199 | a pass gives back only rules it was given |
| Bnf.FixpointIsStable | lib/parsers/bnf.rb:201 | when the loop stops, no leftover rule converts against the final rules, whatever the counts |
| Bnf.SortedNamesAreTheRules | lib/parsers/bnf.rb:211 | the sorted count keys are exactly the converted rules, once each |
| Bnf.Listing | lib/parsers/bnf.rb:211-213 | every converted rule once, with its pattern, by ascending count |
| Bnf.RunPass | lib/parsers/bnf.rb:190-199 | the imperative pass equals `Pass` |
| Bnf.Read | lib/parsers/bnf.rb:185-213 | `read` after parsing is the listing of the loop's fixpoint, which holds only the converted rules (there is no indirect-recursion pass) |
| Bnf.PassKeepsUnresolved | lib/parsers/bnf.rb:189-199 | a pass over rules that each hold an unresolvable reference keeps them all, in order, and converts none |
| Bnf.UnresolvedRulesNeverConvert | lib/parsers/bnf.rb:185-204 | when every rule refers to a rule not yet converted, the loop stops after one pass with nothing converted |
| Bnf.IndirectCycleIsDropped | lib/parsers/bnf.rb:181-214 | the three-rule cycle `r1 → r2 → r3 → r1` converts no rule, and `read` lists nothing |
| Ebnf.Resolve | lib/parsers/ebnf.rb:223-255 | nil iff the reference bails; converted rules and proxies add a count; only a self-reference marks the alternative |
| Ebnf.ConvertLists | lib/parsers/ebnf.rb:212-275 | a successful walk gives one pattern and one recursion mark per alternative |
| Ebnf.ConvertList | lib/parsers/ebnf.rb:216-255 | a successful inner walk gives one pattern per expression |
| Ebnf.ConvertRhs | lib/parsers/ebnf.rb:207-359 | `convert_rhs`: nil when some alternative bails, otherwise the pooled and `:both`-adjusted alternatives, joined by `Finish`; properties in `RhsBails`, `RhsCounts` and the pooling lemmas |
| Ebnf.Pool | lib/parsers/ebnf.rb:286-336 | with some recursive alternative, the non-recursive and `:both` alternatives are kept and wrapped; otherwise the list is unchanged; properties in the `PoolBeside` lemmas |
| Ebnf.Wrap | lib/parsers/ebnf.rb:318-334 | an alternative equal to a pool becomes `at_least(1)`, a Concatenation gets the repetitions inserted around its elements, anything else is concatenated between them |
| Ebnf.Gather | lib/parsers/ebnf.rb:304-315 | several parts become an Alternation, one part itself, none nil |
| Ebnf.FirstBoth | lib/parsers/ebnf.rb:342 | `find_index(:both)` is the first both mark |
| Ebnf.RhsBails | lib/parsers/ebnf.rb:254-273 | an unresolvable reference at any depth makes the conversion nil |
| Ebnf.RhsCounts | lib/parsers/ebnf.rb:220-255 | counts only grow, by at most one per reference |
| Ebnf.References | lib/parsers/ebnf.rb:60-93 | `references` lists each name once |
| Ebnf.ReferencesAreTheOtherRulesUsed | lib/parsers/ebnf.rb:60-93 | a name is a reference iff it is another rule used somewhere in the rule, groups included |
| Ebnf.LastSelf | lib/parsers/ebnf.rb:230-243 | the last self-reference before a position, if any |
| Ebnf.ListsMarks | lib/parsers/ebnf.rb:212-243 | each alternative's mark is the one its last self-reference decides |
| Ebnf.MarkStep | lib/parsers/ebnf.rb:230-243 | a self-reference moves the mark as the classification says; any other expression leaves it |
| Ebnf.PoolBesideLeftRecursion | lib/parsers/ebnf.rb:286-335 | a left-recursive alternative is dropped, and the base gets the repetition of its remainder appended |
| Ebnf.PoolBesideRightRecursion | lib/parsers/ebnf.rb:286-335 | a right-recursive alternative is dropped, and the base gets the repetition of its remainder in front |
| Ebnf.PoolBesideBothRecursion | lib/parsers/ebnf.rb:318-335 | with only a both mark there is nothing to pool, and both alternatives survive |
| Ebnf.BothRecursionRepeatsTheBase | test/parsers/ebnf.rb:27-29 | `rule = "abc", "def" \| rule, rule` is one-or-more of the base |
| Ebnf.LeftRecursionAppendsTheRemainder | test/parsers/ebnf.rb:31-32 | `rule = "abc", "def" \| rule, "xyz"` appends `any("xyz")` |
| Ebnf.LeftRecursionOnItsBaseRepeatsIt | test/parsers/ebnf.rb:35 | `rule = "abc" \| rule, "abc"` is `at_least(1, "abc")` |
| Ebnf.RightRecursionPrependsTheRemainder | test/parsers/ebnf.rb:39-40 | `rule = "abc", "def" \| "xyz", rule` prepends `any("xyz")` |
| Ebnf.RepeatGroupIsAny | test/parsers/ebnf.rb:72 | `{"abc" \| "def"}` is `any` of the alternation |
| Ebnf.Pass | lib/parsers/ebnf.rb:192-195 | a pass keeps counts growing and converted rules as they were, adds no key, and keeps at most the rules it was given |
| Ebnf.UnproductivePass | lib/parsers/ebnf.rb:192-197 | a pass that keeps every rule changes no entry, and every kept rule is unconverted |
| Ebnf.Fixpoint | lib/parsers/ebnf.rb:191-200 | the `while` loop never undoes a conversion |
| Ebnf.KeptFirst | lib/parsers/ebnf.rb:192-195 | in a pass that keeps every rule, the first rule is unconverted, fails, and is set to nil |
| Ebnf.PassKeepsSubsequence | lib/parsers/ebnf.rb:192-195 | a pass gives back only rules it was given |
| Ebnf.FixpointLeftovers | lib/parsers/ebnf.rb:190-203 | the loop gives back only its own rules, still unconverted, and adds no key |
| Ebnf.Seeded | lib/parsers/ebnf.rb:139 | every declared name maps to nil |
| Ebnf.Nodes | lib/parsers/ebnf.rb:155-163 | the rules walked by path expansion, with their references |
| Ebnf.DeclaredNamesStay | lib/parsers/ebnf.rb:136-177 | every declared name keeps an entry through both loops |
| Ebnf.ProxiesAreDeclaredCycles | lib/parsers/ebnf.rb:154-174 | every proxy is a declared rule on a cycle among the rules the first loop left |
| Ebnf.ReadingFixesUpEveryProxy | lib/parsers/ebnf.rb:180-182 | one recursion per proxy, each holding its rule's final pattern |
| Ebnf.ReadingListsEveryRule | lib/parsers/ebnf.rb:186 | the result lists every declared rule once, with its final pattern or nil |
| Ebnf.ReadingSortsByCount | lib/parsers/ebnf.rb:186 | the result runs by ascending reference count |
| Ebnf.FirstConversionsStand | lib/parsers/ebnf.rb:194 | `\|\|=` never overwrites a converted rule |
| Ebnf.LeftoversStayNil | lib/parsers/ebnf.rb:177 | a rule neither loop converted stays nil |
| Ebnf.Seed | lib/parsers/ebnf.rb:139 | the seeding loop gives the seeded table |
| Ebnf.RunPass | lib/parsers/ebnf.rb:192-195 | the imperative pass equals `Pass` |
| Ebnf.ConvertRules | lib/parsers/ebnf.rb:190-203 | the imperative loop equals `Fixpoint` |
| Ebnf.Read | lib/parsers/ebnf.rb:128-187 | `read` after parsing is the reading of the grammar |
| Ebnf.ConvertAll | lib/parsers/ebnf.rb:136-177 | seeding, both loops and path expansion give the final state and proxies |
| W3cEbnf.Repeat | lib/parsers/w3c_ebnf.rb:189-193 | `?` is zero or one, `*` zero or more, `+` one or more, of the inner pattern |
| W3cEbnf.ConvertRhs | lib/parsers/w3c_ebnf.rb:241-334 | `convert_rhs`: nil when some alternative bails, otherwise the recursion elimination under the last tag, joined by `Finish`; properties in `RhsBails`, `RhsCounts`, `TagIsLastSelfReference` and the recursion lemmas |
| W3cEbnf.Resolve | lib/parsers/w3c_ebnf.rb:198-234 | nil iff the reference bails; the referenced rule's count goes up by one exactly for a converted rule without a proxy (:204-206) or a proxied rule other than the one being converted (:223-226), and the self-reference, unknown-rule and bail branches leave every count as it was; only a self-reference changes the tag, to its classification |
| W3cEbnf.ConvertExpression | lib/parsers/w3c_ebnf.rb:175-238 | only a top-level self-reference, bare or as the left operand of an exclusion, moves the tag, to its classification, and stays the raw node |
| W3cEbnf.TrailingSuffix | lib/parsers/w3c_ebnf.rb:178-186 | only a repetition or an exclusion, through its right operand, ends in a suffix |
| W3cEbnf.ConvertRepeated | lib/parsers/w3c_ebnf.rb:186-194 | the suffix branch keeps the caller's tag and gives a repetition or nil |
| W3cEbnf.ExclusionConvertsItsLeftOperand | lib/parsers/w3c_ebnf.rb:178-203 | `rule ::= Char - '-'` converts to the converted `Char`, counted once |
| W3cEbnf.ExclusionEndingInASuffixRepeats | lib/parsers/w3c_ebnf.rb:178-194 | `rule ::= "abc" - "def"*` is `any("abc")`, since the last piece ends in `*` |
| W3cEbnf.ExclusionOfItselfMarksTheRule | lib/parsers/w3c_ebnf.rb:205-218 | a self-reference on the left of an exclusion marks its alternative left-recursive |
| W3cEbnf.ExclusionOfACharacterBails | lib/parsers/w3c_ebnf.rb:186-236 | an exclusion of a `#x` character has no branch and bails |
| W3cEbnf.ConvertLists | lib/parsers/w3c_ebnf.rb:246-268 | a successful walk gives one pattern per alternative, and the tag names an alternative already walked |
| W3cEbnf.ConvertList | lib/parsers/w3c_ebnf.rb:253-264 | a successful inner walk gives one pattern per expression, and the tag stays within the alternatives walked |
| W3cEbnf.ExprCounts | lib/parsers/w3c_ebnf.rb:175-238 | converting an expression only adds counts, at most one per reference in it |
| W3cEbnf.ExprBails | lib/parsers/w3c_ebnf.rb:178-237 | an expression fails when a reference it converts cannot be resolved yet, or when its first piece is a kind with no branch (`#x` characters, ranges) |
| W3cEbnf.RhsBails | lib/parsers/w3c_ebnf.rb:246-268 | a right-hand side with such an expression in any alternative, at any depth of groups, fails |
| W3cEbnf.RhsCounts | lib/parsers/w3c_ebnf.rb:204-230 | counts only grow, by at most one per reference |
| W3cEbnf.LastTag | lib/parsers/w3c_ebnf.rb:208-222 | the mark of the last alternative with a top-level self-reference |
| W3cEbnf.TagIsLastSelfReference | lib/parsers/w3c_ebnf.rb:208-222 | the tag the walk ends with is the last top-level self-reference's |
| W3cEbnf.LastSelf | lib/parsers/w3c_ebnf.rb:208-222 | the last top-level self-reference before a position, if any |
| W3cEbnf.TagStep | lib/parsers/w3c_ebnf.rb:208-222 | a top-level self-reference moves the tag as the classification says |
| W3cEbnf.References | lib/parsers/w3c_ebnf.rb:125-132 | the references path expansion follows, each once |
| W3cEbnf.ReferencesAreTopLevelNames | lib/parsers/w3c_ebnf.rb:125-132 | a name is a reference iff some expression names it at its top level and it is another rule |
| W3cEbnf.SuffixedTerminalIsOptional | test/parsers/w3c_ebnf.rb:146 | `rule ::= "abc"?` is `optional("abc")` |
| W3cEbnf.SuffixedGroupRepeatsTheAlternation | test/parsers/w3c_ebnf.rb:154 | `("abc" \| "def")*` is `any` of the alternation |
| W3cEbnf.LeftRecursionAppendsTheRemainder | test/parsers/w3c_ebnf.rb:43 | `rule ::= "abc" "def" \| rule "xyz"` appends `any("xyz")` |
| W3cEbnf.LeftRecursionOnItsBaseRepeatsIt | test/parsers/w3c_ebnf.rb:46 | `rule ::= "abc" \| rule "abc"` is `at_least(1, "abc")` |
| W3cEbnf.RightRecursionPrependsTheRemainder | test/parsers/w3c_ebnf.rb:55 | `rule ::= "abc" "def" \| "xyz" rule` prepends `any("xyz")` |
| W3cEbnf.BothRecursionRepeatsTheBase | test/parsers/w3c_ebnf.rb:39 | `rule ::= "abc" "def" \| rule rule` is one-or-more of the base |
| W3cEbnf.SuffixedSelfReferenceStaysTagged | lib/parsers/w3c_ebnf.rb:186-194 | a suffixed self-reference keeps its `[node, tag]` pair inside the repetition |
| W3cEbnf.SeveralLeftRecursionsKeepTheLast | lib/parsers/w3c_ebnf.rb:208-222 | with two left-recursive alternatives only the last is eliminated, as the code is written |
| W3cEbnf.Pass | lib/parsers/w3c_ebnf.rb:162-165 | a pass keeps counts growing and converted rules as they were, and keeps at most its rules |
| W3cEbnf.UnproductivePass | lib/parsers/w3c_ebnf.rb:162-167 | a pass that keeps every rule changes no entry |
| W3cEbnf.Fixpoint | lib/parsers/w3c_ebnf.rb:161-170 | the `while` loop never undoes a conversion |
| W3cEbnf.KeptFirst | lib/parsers/w3c_ebnf.rb:162-165 | in a pass that keeps every rule, the first rule is unconverted, fails, and is set to nil |
| W3cEbnf.PassKeepsSubsequence | lib/parsers/w3c_ebnf.rb:162-165 | a pass gives back only rules it was given |
| W3cEbnf.FixpointLeftovers | lib/parsers/w3c_ebnf.rb:160-173 | the loop gives back only its own rules, still unconverted |
| W3cEbnf.Seeded | lib/parsers/w3c_ebnf.rb:106 | every declared name maps to nil |
| W3cEbnf.ProxiesAreDeclaredCycles | lib/parsers/w3c_ebnf.rb:117-144 | every proxy is a declared rule on a cycle among the rules the first loop left |
| W3cEbnf.Nodes | lib/parsers/w3c_ebnf.rb:118-132 | the rules walked by path expansion, with their references |
| W3cEbnf.DeclaredNamesStay | lib/parsers/w3c_ebnf.rb:104-147 | every declared name keeps an entry through both loops |
| W3cEbnf.ReadingFixesUpEveryProxy | lib/parsers/w3c_ebnf.rb:150-152 | one recursion per proxy, each holding its rule's final pattern |
| W3cEbnf.ReadingListsEveryRule | lib/parsers/w3c_ebnf.rb:156 | the result lists every declared rule once, with its final pattern or nil |
| W3cEbnf.ReadingSortsByCount | lib/parsers/w3c_ebnf.rb:156 | the result runs by ascending reference count |
| W3cEbnf.FirstConversionsStand | lib/parsers/w3c_ebnf.rb:164 | a converted rule is never overwritten |
| W3cEbnf.LeftoversStayNil | lib/parsers/w3c_ebnf.rb:147 | a rule neither loop converted stays nil |
| W3cEbnf.Seed | lib/parsers/w3c_ebnf.rb:106 | the seeding loop gives the seeded table |
| W3cEbnf.RunPass | lib/parsers/w3c_ebnf.rb:162-165 | the imperative pass equals `Pass` |
| W3cEbnf.ConvertRules | lib/parsers/w3c_ebnf.rb:160-173 | the imperative loop equals `Fixpoint` |
| W3cEbnf.Read | lib/parsers/w3c_ebnf.rb:95-157 | `read` after parsing is the reading of the grammar |
| W3cEbnf.ConvertAll | lib/parsers/w3c_ebnf.rb:104-147 | seeding, both loops and path expansion give the final state and proxies |
| NamedRules.Table.Set | lib/parsers/named_rules.rb:44 | `hash[k] = v` reads `v` at `k` and the old value elsewhere; a new key goes last |
| NamedRules.Update | lib/parsers/named_rules.rb:4 | `update` takes the argument's value for its keys and keeps the rest; the old keys keep their places and the argument's new keys follow in the argument's order |
| NamedRules.Initialize | lib/parsers/named_rules.rb:3-5 | merging the Hash arguments gives a well-formed table |
| NamedRules.InitializeKeepsTheLastEntry | lib/parsers/named_rules.rb:3-5 | each name carries the rule of the last Hash argument that defines it; other arguments are ignored |
| NamedRules.Lookup | lib/parsers/named_rules.rb:9-11 | `[]` finds a rule iff the name is present |
| NamedRules.AccessorsAgree | lib/parsers/named_rules.rb:9-23 | `names` lists each rule once, `rules` is aligned with it, and `[]` finds exactly the listed names |
| NamedRules.Found | lib/parsers/named_rules.rb:29-41 | the visit succeeds iff every node is supported, and lists exactly the names mentioned |
| NamedRules.References | lib/parsers/named_rules.rb:28-47 | `references`: the references of every rule, in key order, or nil when some node is unsupported; characterised by `ReferencesAreTheMentions` |
| NamedRules.ReferencesFrom | lib/parsers/named_rules.rb:43-46 | the reduce fails iff some remaining rule is unsupported; otherwise it keeps the key order, and each entry is the deduplicated mentions |
| NamedRules.ReferencesAreTheMentions | lib/parsers/named_rules.rb:28-47 | `references` succeeds iff every rule is supported; each rule then lists exactly the names it mentions, once each |
| NamedRules.FindReferers | lib/parsers/named_rules.rb:159-165 | `find_referers`: the rules whose references include the node, in key order; characterised by `ReferersReferToTheNode` |
| NamedRules.ReferersFrom | lib/parsers/named_rules.rb:161-164 | the reduce lists exactly the remaining rules that refer to the node |
| NamedRules.ReferersReferToTheNode | lib/parsers/named_rules.rb:159-165 | a rule is a referer iff it refers to the node; none twice |
| NamedRules.RepetitionSuffix | lib/parsers/named_rules.rb:206-228 | the suffix is nil exactly for a repetition of once (1..1) and for one with no bounds |
| NamedRules.SuffixText | lib/parsers/named_rules.rb:206-228 | the text is nil exactly for no suffix, and otherwise a method call starting with `.` |
| NamedRules.SuffixKeepsTheBounds | lib/parsers/named_rules.rb:206-228 | with a minimum, the suffix chosen records exactly the repetition's bounds |
| NamedRules.AtLeastIsWrittenAsExactly | lib/parsers/named_rules.rb:206-228 | for a minimum of 2 or more, no maximum and a maximum equal to the minimum keep different bounds but are written as one call, `.repeat(n,)` being `.repeat(n)` |
| NamedRules.BoundedSuffixIsCalledAsWritten | lib/parsers/named_rules.rb:206-216 | with both bounds, the text written never ends in an empty argument, so it is the call for its own bounds |
| NamedRules.MissingMinimumSuffix | lib/parsers/named_rules.rb:217-227 | without a minimum, a maximum of 1 is `.optional`, no bounds write nothing, and any other maximum falls to the `repeat` branch |
| NamedRules.Decimal | lib/parsers/named_rules.rb:210 | the interpolated integer is a non-empty string of digits |
| NamedRules.SortVisit | lib/parsers/named_rules.rb:55-66 | the visit keeps the walk's invariant, marks the node, only extends the result, and marks only names reached from the node |
| NamedRules.SortedNames | lib/parsers/named_rules.rb:49-70 | every rule and every reached name, once; a listed rule's references are listed; each comes before its referer unless it leads back to it; and, as the walk starts from each key in turn (:67), each key comes before every name reached neither from it nor from an earlier key |
| NamedRules.KeyBeforeUnreachedKey | lib/parsers/named_rules.rb:67 | of two keys, the earlier is listed first when the later is not reached from it or from a key before it |
| NamedRules.UnrelatedRulesKeepKeyOrder | lib/parsers/named_rules.rb:49-70 | two rules that refer to nothing come out as `rule1` then `rule2`, the order test/parsers/named_rules.rb:26-29 expects |
| NamedRules.MinusKeepsKeysFirst | lib/parsers/named_rules.rb:277 | removing the reparented rules with `-` keeps each remaining key before the names not reached from it or an earlier key |
| NamedRules.Remove | lib/parsers/named_rules.rb:97 | `delete` removes every occurrence and nothing else |
| NamedRules.BreakVisit | lib/parsers/named_rules.rb:88-105 | the cycle-breaking visit keeps the walk's invariant: each deleted reference closes a recorded cycle, and the path stays a chain |
| NamedRules.FindCycles | lib/parsers/named_rules.rb:83-108 | the walk raises iff some reference is not a rule; otherwise every rule is finished with the invariant |
| NamedRules.WalkLeavesOnlySelfCycles | lib/parsers/named_rules.rb:88-108 | after the walk, the references have no cycle except a rule referring to itself |
| NamedRules.WalkEnds | lib/parsers/named_rules.rb:107 | once every rule has been visited, all are finished and every reference is a rule |
| NamedRules.FinishingFalls | lib/parsers/named_rules.rb:88-108 | along a chain of finished rules the finishing time never rises, and stays the same only on one rule |
| NamedRules.MembersKeepAReferer | lib/parsers/named_rules.rb:92-97 | every cycle member keeps the reference from the rule before it |
| NamedRules.Memberships | lib/parsers/named_rules.rb:121-123 | the nested loops visit exactly the (root, member) pairs of the recorded cycles |
| NamedRules.Minus | lib/parsers/named_rules.rb:277 | `Array#-` keeps exactly the elements not removed, in order |
| NamedRules.ExternalReferences | lib/parsers/named_rules.rb:151-156 | a name is in the result iff it is not internal to the rule and it is a direct reference of the rule or in the external references of one of the rule's internal rules |
| NamedRules.ShouldMove | lib/parsers/named_rules.rb:124-140 | a member with exactly one referer is moved; one with several is moved iff every referer is internal to the root or among the root's external references; the "no referers" raise cannot happen |
| NamedRules.Reparent | lib/parsers/named_rules.rb:114-144 | only cycle members move into their root; the orphaned rules are the moved ones; every member with one referer moves |
| NamedRules.WalkBreaksTheCycles | lib/parsers/named_rules.rb:88-108 | the references only lose entries; each lost one closes a recorded cycle; cycles are non-empty chains back to their root; no cycle but self-references is left |
| NamedRules.WalkReadiesTheMembers | lib/parsers/named_rules.rb:121-126 | every cycle member still has a referer when reparenting starts |
| NamedRules.BreakCycles | lib/parsers/named_rules.rb:82-147 | raises for an unknown node type and for an undefined reference, exactly then; otherwise the cycles are broken and the members reparented |
| NamedRules.ReparentingReparents | lib/parsers/named_rules.rb:114-144 | the reparent loop's outcome: internal rules are cycle members, the orphaned rules are the internal ones, each member with one referer is internal |
| NamedRules.NoWayBack | lib/parsers/named_rules.rb:88-108 | once only self-cycles are left, a rule that another refers to does not lead back to it |
| NamedRules.SortedWithoutCycles | lib/parsers/named_rules.rb:49-70 | on the broken references, `sorted_names` lists each rule after every other rule it refers to |
| NamedRules.MinusRefersBackwards | lib/parsers/named_rules.rb:277 | removing the orphaned rules keeps that order among the rest |
| NamedRules.TopLevelNames | lib/parsers/named_rules.rb:274-284 | `to_ruby` writes every rule that was not moved into a cycle root, once, after the rules it refers to that are written too, and each written rule before every written name reached neither from it nor from an earlier rule |

## Left out

- Regexp patterns are not modelled. A character Range is matched as a character class, not through `Regexp`.
- Matching.Visit: a Range is turned into the regex `/[first-last]/` without escaping (lib/parsers/recursive_descent.rb:38). Endpoints such as `^`, `]`, `\` or `[` therefore change the class or make it invalid: `'^'..'z'` becomes the negated class `[^-z]`, and others raise RegexpError. The model tests `lo <= c <= hi` for every endpoint and raises only when `lo > hi`.
- Bnf.Read: `BNF.read` has no indirect-recursion pass (lib/parsers/bnf.rb:181-214): a rule on a reference cycle never converts and is missing from the result, although test/parsers/bnf.rb:47-105 expects Recursion proxies for such grammars. The model follows the code; `Bnf.IndirectCycleIsDropped` shows the three-rule cycle giving an empty listing.
- The grammar-text parsers (`BNF.parse`, `EBNF.parse`, `W3C_EBNF.parse`) and the grammars they use are left out. The readers start from the parsed rules.
- `Grammar::Latch`, skip patterns and the `context:` keyword that the packrat `visit` signature declares are left out. The cache logic is modelled over the base visit.
- File and StringIO input, and every `puts`, are left out: the unresolved-reference warning at lib/parsers/ebnf.rb:150 and the one at lib/parsers/named_rules.rb:138, which does nothing else.
- Matching.Visit: a repetition whose inner pattern matches the empty string never returns in Ruby; here every visit takes a fuel bound and gives `OutOfFuel` when it is spent.
- Matching.Visit: cursor positions count characters of the input. `StringScanner#pos` counts bytes, so the `location:` of a match (lib/parsers/recursive_descent.rb:65,78) and the lengths the packrat cache stores (lib/parsers/packrat.rb:18,23) agree with the source only on input whose characters are one byte each.
- Matching.Visit: an Alternation or Concatenation match records the pattern it came from as a value (`AltMatch`/`CatMatch`), where Ruby's `pattern.new` builds an instance of that pattern object's own class. Two structurally equal pattern objects give matches of different classes in Ruby and equal trees here. In the same way the packrat cache is keyed on the pattern's value (lib/parsers/packrat.rb:16,24), not on the object; since equal patterns have equal meanings, a hit on an equal pattern returns what the visit would.
- Conversion.SortByCount: Ruby's `sort_by` is not stable. The order among rules with equal counts is left open, and only the order between different counts is stated.
- `list.equal?(recursive_list)` identity is modelled by the alternative's index, since the skipped alternative is always the recursive one.
- Ebnf.FirstBoth: the index of the `:both` mark is used against `mapped_rhs` after pooling has dropped alternatives (lib/parsers/ebnf.rb:342-344). The model follows the code as written.
- W3cEbnf.ConvertExpression and W3cEbnf.TrailingSuffix: the W3C suffix is decided by the regex on the matched text (lib/parsers/w3c_ebnf.rb:186); the model decides it by the parse shape (`Suffixed`, or the suffix ending an exclusion's right operand, `TrailingSuffix`). The regex finds `?`, `*` or `+` anywhere in the last piece's text. Terminals and identifiers cannot hold those characters (lib/parsers/w3c_ebnf.rb:14-17), but a bracketed range can, since its characters span them (:12), and so can any other piece whose text the regex sees, such as a group with a repetition inside. Such a piece takes the suffix branch in the code; for a range like `[+]`, whose only piece is the expression itself, that branch converts the same expression again without end. The model does not follow that: it lets every range bail. Hexadecimal characters and character ranges in W3C grammars bail out of conversion, as the code's missing branches make them do. An exclusion `a - b` converts as its left operand `a`, which is the first of its flattened pieces (lib/parsers/w3c_ebnf.rb:178-203); the excluded `b` is not enforced, and when `b` ends in `?`, `*` or `+` the text regex repeats `a` with that suffix.
- W3cEbnf.SeveralLeftRecursionsKeepTheLast: the W3C test at test/parsers/w3c_ebnf.rb:50-52 expects both left recursions to be pooled. The code keeps only the last `is_recursive` mark, and the model follows the code.
- W3C inlines the raw pattern of a converted rule, where EBNF wraps it in a `RuleReference`; each model follows its own file.
- The `select` on reference counts at lib/parsers/ebnf.rb:154 and lib/parsers/w3c_ebnf.rb:117 keeps every rule, because counts are never nil there. It is modelled as keeping every rule.
- `to_a` of a match node and `to_s` of grammar nodes are not modelled; converted alternatives use `ToA` on patterns.
- An alternative that converts to nothing gives `Nil`, as the source's `mapped_list.first` does.
- NamedRules `rule_to_ruby` and `internal_rules_to_ruby` (lib/parsers/named_rules.rb:167-271) are left out: apart from the TypeError below, they format strings. `to_ruby` is modelled up to the choice and order of the rules it writes (`TopLevelNames`), and `ruby_repetition_suffix` by its choice of suffix (`RepetitionSuffix`, `SuffixText`).
- NamedRules `to_h` is a plain copy of the table and is not modelled separately.
- The `Hash.new {|h,k| h[k] = [] }` default blocks of `break_cycles` add empty entries when a missing key is read. The model reads a missing key as empty and does not add the entry.
- The "ignore cycles" branch of `sorted_names` (lib/parsers/named_rules.rb:58-59) is unreachable, because `marks` already holds every node on the path. The model omits it.
- The three nested loops of `break_cycles`' reparenting (lib/parsers/named_rules.rb:121-144) are modelled as one loop over the flattened (root, member) pairs, in the same order.
- NamedRules.SuffixKeepsTheBounds and NamedRules.TopLevelNames: `ruby_repetition_suffix` returns nil for a repetition of exactly once (1..1) and for one with no bounds (lib/parsers/named_rules.rb:207-227; `RepetitionSuffix` states exactly when). `rule_to_ruby` then appends that nil with `concat` or `+` (:254, :257, :259), which raises TypeError, so `to_ruby` raises for any rule holding such a repetition. The model does not model that raise: `TopLevelNames` only chooses and orders the rules to write, and `Bounds` reads `NoSuffix` as a pattern written once.
- NamedRules.BreakCycles and NamedRules.TopLevelNames: the contracts do not say which rule of a cycle becomes its root. The source records a cycle under the rule the depth-first walk entered first (lib/parsers/named_rules.rb:90-98, started from each key in turn at :108). The contracts state what any choice of root gives: the broken references, the recorded cycles and the reparenting. For the rules of test/parsers/named_rules.rb:41-47 they would also allow the cycle to be recorded under `rule2`, and then `rule2` would be written instead of `rule1`.
- NamedRules.Reparent: its own contract states the one-referer moves only. Whether a member with several referers moves is decided at each step by `ShouldMove`, whose contract states the source's rule (lib/parsers/named_rules.rb:133-135) against the internal rules recorded so far; `Reparent` does not restate it over the whole loop.
- NamedRules.SuffixText: for a minimum of 2 or more and no maximum, the source writes `.repeat(n,)`. Ruby ignores the trailing comma, so this is the call `.repeat(n)` that the source also writes for exactly n (`AtLeastIsWrittenAsExactly`). What the DSL's `repeat` does with one argument is not part of this model. With no minimum and a maximum other than 1, the source writes `.repeat(,n)`, which Ruby does not parse. The model keeps the source's text in both cases.
- Conversion.Eliminate and Ebnf.Wrap: shared objects are not modelled. In BNF a converted reference is the object `rules[name]` itself (lib/parsers/bnf.rb:83, 109-110), and `list.dup` is a shallow copy whose `@elements` array is shared (lib/parsers/bnf.rb:142,162; lib/parsers/w3c_ebnf.rb:298,318; lib/parsers/ebnf.rb:327). So the remainder added by `Eliminate` (used by BNF and W3C) and by the EBNF pooling (`Wrap`) can also grow, in place, a converted rule whose Concatenation was reused. The shared rule's growth is not modelled. The model works on values, and that rule keeps its own pattern.
- Contexts.Context.Push: `push(local)` keeps the caller's Hash itself as the new scope (lib/parsers/context.rb:4,24-26), so a later `[]=` on that scope also writes into the caller's Hash. The model copies `local` as a map value, so the caller's Hash is not changed. `push_pattern` passes a `dup` (:31), so it shares nothing either way.
