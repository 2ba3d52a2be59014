/** `Parsers::EBNF`: turning the rules of a parsed ISO/IEC 14977 grammar into patterns.

    A rule's right-hand side is a list of alternatives, each a list of expressions.
    Groups, `[...]` and `{...}` nest whole right-hand sides. Unlike BNF, every
    alternative records its own self-reference classification, and the remainders of
    all left- (right-) recursive alternatives are pooled into one repetition appended
    (prepended) to the others. Rules that never convert because of indirect recursion
    get a `Recursion` proxy found by path expansion, and are converted again.
 */
module Ebnf {
  import opened Grammar
  import opened Conversion

  datatype Expr =
    | Terminal(text: string)      // a quoted string
    | Identifier(name: string)    // a rule reference
    | Group(rhs: Rhs)             // ( ... )
    | OptionalGroup(rhs: Rhs)     // [ ... ]
    | RepeatGroup(rhs: Rhs)       // { ... }

  /** One alternative: expressions separated by `,`. */
  datatype List = List(exprs: seq<Expr>)

  /** Alternatives separated by `|`. */
  datatype Rhs = Rhs(lists: seq<List>)

  datatype Rule = Rule(name: string, rhs: Rhs)

  /** The converted pieces of one alternative (None once it has bailed out), its
      recursion mark, and the reference counts. */
  datatype ListWalk = ListWalk(items: Option<seq<Pattern>>, slot: Option<Kind>, counts: Tally)

  /** The converted alternatives (None once the walk has bailed out), the per-alternative
      marks of `recursives`, and the reference counts. */
  datatype Walk = Walk(items: Option<seq<Pattern>>, slots: seq<Option<Kind>>, counts: Tally)

  /** How a reference is resolved, in the order the branches are tried. */
  function Resolve(env: Env, name: string, j: nat, n: nat, slot: Option<Kind>, counts: Tally): (r: (Option<Pattern>, Option<Kind>, Tally))
    ensures r.0.None? <==> env.Unresolvable(name)
    ensures r.0.Some? && (r.0.value.RuleRef? || r.0.value.Rec?) ==> r.2 == counts.Bump(name)
    ensures !(r.0.Some? && (r.0.value.RuleRef? || r.0.value.Rec?)) ==> r.2 == counts
    ensures r.1 != slot ==> name == env.owner && env.SeesItself()
  {
    if env.Converted(name) && name !in env.proxies then
      (Some(RuleRef(name, env.rules[name].value)), slot, counts.Bump(name))
    else if name == env.owner then
      (Some(SelfRef(name)), Some(ClassifyKind(slot, j, n)), counts)
    else if name in env.proxies then
      (Some(Rec(name)), slot, counts.Bump(name))
    else if name !in env.rules then
      (Some(Number(counts.Get(env.owner))), slot, counts)
    else
      (None, slot, counts)
  }

  /** `convert_rhs`: the converted right-hand side (None to try again later) and the
      reference counts after the attempt. */
  function ConvertRhs(env: Env, rhs: Rhs, counts: Tally): (r: (Option<Pattern>, Tally))
    decreases rhs, 2
  {
    var w := ConvertLists(env, rhs, 0, [], [], counts);
    if w.items.None? then (None, w.counts)
    else (Finish(BothStep(Pool(w.items.value, w.slots), w.slots)), w.counts)
  }

  /** The `map` over the alternatives from alternative `i` on. */
  function ConvertLists(env: Env, rhs: Rhs, i: nat, mapped: seq<Pattern>, slots: seq<Option<Kind>>, counts: Tally): (w: Walk)
    requires i <= |rhs.lists| && |mapped| == |slots| == i
    ensures w.items.Some? ==> |w.items.value| == |w.slots| == |rhs.lists|
    decreases rhs, 1, |rhs.lists| - i
  {
    if i == |rhs.lists| then Walk(Some(mapped), slots, counts)
    else
      var l := ConvertList(env, rhs, i, 0, [], None, counts);
      if l.items.None? then Walk(None, slots + [l.slot], l.counts)
      else ConvertLists(env, rhs, i + 1, mapped + [Join(l.items.value)], slots + [l.slot], l.counts)
  }

  /** The inner `map.with_index` over the expressions of alternative `i`, from `j` on. */
  function ConvertList(env: Env, rhs: Rhs, i: nat, j: nat, done: seq<Pattern>, slot: Option<Kind>, counts: Tally): (w: ListWalk)
    requires i < |rhs.lists| && j <= |rhs.lists[i].exprs|
    ensures w.items.Some? ==> |w.items.value| == |done| + |rhs.lists[i].exprs| - j
    decreases rhs, 0, |rhs.lists[i].exprs| - j
  {
    if j == |rhs.lists[i].exprs| then ListWalk(Some(done), slot, counts)
    else
      var r := Step(env, rhs, i, j, slot, counts);
      if r.0.None? then ListWalk(None, r.1, r.2)
      else ConvertList(env, rhs, i, j + 1, done + [r.0.value], r.1, r.2)
  }

  /** Expression `j` of alternative `i`: a terminal is its text, a reference is
      resolved, and a group converts its own right-hand side, wrapped as optional or
      any for `[...]` and `{...}`; a nested failure fails the whole. */
  function Step(env: Env, rhs: Rhs, i: nat, j: nat, slot: Option<Kind>, counts: Tally): (r: (Option<Pattern>, Option<Kind>, Tally))
    requires i < |rhs.lists| && j < |rhs.lists[i].exprs|
    decreases rhs, 0, |rhs.lists[i].exprs| - j, 0
  {
    match rhs.lists[i].exprs[j]
    case Terminal(s) => (Some(Lit(s)), slot, counts)
    case Identifier(n) => Resolve(env, n, j, |rhs.lists[i].exprs|, slot, counts)
    case Group(inner) =>
      var g := ConvertRhs(env, inner, counts);
      (g.0, slot, g.1)
    case OptionalGroup(inner) =>
      var g := ConvertRhs(env, inner, counts);
      (if g.0.Some? then Some(Optional(g.0.value)) else None, slot, g.1)
    case RepeatGroup(inner) =>
      var g := ConvertRhs(env, inner, counts);
      (if g.0.Some? then Some(Any(g.0.value)) else None, slot, g.1)
  }

  /** `recursives.any?` */
  predicate AnyRecursive(slots: seq<Option<Kind>>)
  {
    exists k :: 0 <= k < |slots| && slots[k].Some?
  }

  /** The remainders of the left-recursive alternatives, in order: `rightmost_parts`. */
  function RightParts(mapped: seq<Pattern>, slots: seq<Option<Kind>>): (r: seq<Pattern>)
    requires |mapped| == |slots|
  {
    if mapped == [] then []
    else
      var rem := LeftRemainder(mapped[0]);
      (if slots[0] == Some(Left) && rem != Nil then [rem] else []) + RightParts(mapped[1..], slots[1..])
  }

  /** The remainders of the right-recursive alternatives, in order: `leftmost_parts`. */
  function LeftParts(mapped: seq<Pattern>, slots: seq<Option<Kind>>): (r: seq<Pattern>)
    requires |mapped| == |slots|
  {
    if mapped == [] then []
    else
      var rem := RightRemainder(mapped[0]);
      (if slots[0] == Some(Right) && rem != Nil then [rem] else []) + LeftParts(mapped[1..], slots[1..])
  }

  /** Several parts become an Alternation, a single part itself, none nil. */
  function Gather(parts: seq<Pattern>): (r: Option<Pattern>)
    ensures r.None? <==> parts == []
  {
    if |parts| > 1 then Some(Alt(parts)) else if |parts| == 1 then Some(parts[0]) else None
  }

  /** The repetition of a pool, if there is one. */
  function Repeated(pool: Option<Pattern>): (r: seq<Pattern>)
  {
    if pool.Some? then [Any(pool.value)] else []
  }

  /** A surviving alternative with the pooled repetitions around it. */
  function Wrap(leftPool: Option<Pattern>, rightPool: Option<Pattern>, list: Pattern): Pattern
  {
    if Some(list) == rightPool || Some(list) == leftPool then AtLeast(1, list)
    else if list.Cat? then Cat(Repeated(leftPool) + list.elems + Repeated(rightPool))
    else Cat(Repeated(leftPool) + [list] + Repeated(rightPool))
  }

  /** An alternative survives the pooling when it is not recursive, or is `:both`. */
  predicate Survives(slot: Option<Kind>)
  {
    slot.None? || slot == Some(Both)
  }

  function WrapSurvivors(leftPool: Option<Pattern>, rightPool: Option<Pattern>, mapped: seq<Pattern>, slots: seq<Option<Kind>>): (r: seq<Pattern>)
    requires |mapped| == |slots|
  {
    if mapped == [] then []
    else
      (if Survives(slots[0]) then [Wrap(leftPool, rightPool, mapped[0])] else []) +
      WrapSurvivors(leftPool, rightPool, mapped[1..], slots[1..])
  }

  /** The pooled elimination of direct left and right recursion, applied when some
      alternative refers to the rule itself. */
  function Pool(mapped: seq<Pattern>, slots: seq<Option<Kind>>): (r: seq<Pattern>)
    requires |mapped| == |slots|
  {
    if !AnyRecursive(slots) then mapped
    else WrapSurvivors(Gather(LeftParts(mapped, slots)), Gather(RightParts(mapped, slots)), mapped, slots)
  }

  /** `recursives.find_index(:both)` */
  function FirstBoth(slots: seq<Option<Kind>>): (r: Option<nat>)
    ensures r.Some? ==> r.value < |slots| && slots[r.value] == Some(Both) &&
                        forall k :: 0 <= k < r.value ==> slots[k] != Some(Both)
    ensures r.None? ==> forall k :: 0 <= k < |slots| ==> slots[k] != Some(Both)
  {
    if slots == [] then None
    else if slots[0] == Some(Both) then Some(0)
    else
      var t := FirstBoth(slots[1..]);
      if t.Some? then Some(t.value + 1) else None
  }

  /** With a `:both` alternative, every other alternative becomes `at_least(1)`. The
      index comes from the uncompacted marks but selects from the pooled list. */
  function BothStep(pooled: seq<Pattern>, slots: seq<Option<Kind>>): (r: seq<Pattern>)
  {
    var idx := FirstBoth(slots);
    if idx.None? then pooled
    else if idx.value < |pooled| then MapAtLeastOne(Others(pooled, idx.value))
    else MapAtLeastOne(pooled)
  }

  /** A reference in `rhs`, at any depth, that cannot be resolved yet. */
  predicate BlockedRhs(env: Env, rhs: Rhs)
    decreases rhs
  {
    exists k, m :: 0 <= k < |rhs.lists| && 0 <= m < |rhs.lists[k].exprs| && BlockedExpr(env, rhs.lists[k].exprs[m])
  }

  predicate BlockedExpr(env: Env, e: Expr)
    decreases e
  {
    match e
    case Terminal(_) => false
    case Identifier(n) => env.Unresolvable(n)
    case Group(inner) => BlockedRhs(env, inner)
    case OptionalGroup(inner) => BlockedRhs(env, inner)
    case RepeatGroup(inner) => BlockedRhs(env, inner)
  }

  /** A conversion that meets an unresolvable reference, at any depth, fails. */
  lemma {:induction false} RhsBails(env: Env, rhs: Rhs, counts: Tally)
    requires BlockedRhs(env, rhs)
    ensures ConvertRhs(env, rhs, counts).0.None?
    decreases rhs, 2
  {
    ListsBail(env, rhs, 0, [], [], counts);
  }

  lemma {:induction false} ListsBail(env: Env, rhs: Rhs, i: nat, mapped: seq<Pattern>, slots: seq<Option<Kind>>, counts: Tally)
    requires i <= |rhs.lists| && |mapped| == |slots| == i
    requires exists k, m :: i <= k < |rhs.lists| && 0 <= m < |rhs.lists[k].exprs| && BlockedExpr(env, rhs.lists[k].exprs[m])
    ensures ConvertLists(env, rhs, i, mapped, slots, counts).items.None?
    decreases rhs, 1, |rhs.lists| - i
  {
    var l := ConvertList(env, rhs, i, 0, [], None, counts);
    if exists m :: 0 <= m < |rhs.lists[i].exprs| && BlockedExpr(env, rhs.lists[i].exprs[m]) {
      ListBails(env, rhs, i, 0, [], None, counts);
    } else if l.items.Some? {
      ListsBail(env, rhs, i + 1, mapped + [Join(l.items.value)], slots + [l.slot], l.counts);
    }
  }

  lemma {:induction false} ListBails(env: Env, rhs: Rhs, i: nat, j: nat, done: seq<Pattern>, slot: Option<Kind>, counts: Tally)
    requires i < |rhs.lists| && j <= |rhs.lists[i].exprs|
    requires exists m :: j <= m < |rhs.lists[i].exprs| && BlockedExpr(env, rhs.lists[i].exprs[m])
    ensures ConvertList(env, rhs, i, j, done, slot, counts).items.None?
    decreases rhs, 0, |rhs.lists[i].exprs| - j
  {
    var r := Step(env, rhs, i, j, slot, counts);
    if BlockedExpr(env, rhs.lists[i].exprs[j]) {
      StepBails(env, rhs, i, j, slot, counts);
    } else if r.0.Some? {
      ListBails(env, rhs, i, j + 1, done + [r.0.value], r.1, r.2);
    }
  }

  lemma {:induction false} StepBails(env: Env, rhs: Rhs, i: nat, j: nat, slot: Option<Kind>, counts: Tally)
    requires i < |rhs.lists| && j < |rhs.lists[i].exprs|
    requires BlockedExpr(env, rhs.lists[i].exprs[j])
    ensures Step(env, rhs, i, j, slot, counts).0.None?
    decreases rhs, 0, |rhs.lists[i].exprs| - j, 0
  {
    match rhs.lists[i].exprs[j]
    case Identifier(n) =>
    case Group(inner) => RhsBails(env, inner, counts);
    case OptionalGroup(inner) => RhsBails(env, inner, counts);
    case RepeatGroup(inner) => RhsBails(env, inner, counts);
  }

  /** How many times `x` is referenced in `rhs`, at any depth. */
  function UsesRhs(rhs: Rhs, x: string): nat
    decreases rhs, 2
  {
    UsesLists(rhs, 0, x)
  }

  function UsesLists(rhs: Rhs, i: nat, x: string): nat
    requires i <= |rhs.lists|
    decreases rhs, 1, |rhs.lists| - i
  {
    if i == |rhs.lists| then 0 else UsesList(rhs, i, 0, x) + UsesLists(rhs, i + 1, x)
  }

  function UsesList(rhs: Rhs, i: nat, j: nat, x: string): nat
    requires i < |rhs.lists| && j <= |rhs.lists[i].exprs|
    decreases rhs, 0, |rhs.lists[i].exprs| - j
  {
    var exprs := rhs.lists[i].exprs;
    if j == |exprs| then 0
    else
      var here := match exprs[j]
        case Terminal(_) => 0
        case Identifier(n) => if n == x then 1 else 0
        case Group(inner) => UsesRhs(inner, x)
        case OptionalGroup(inner) => UsesRhs(inner, x)
        case RepeatGroup(inner) => UsesRhs(inner, x);
      here + UsesList(rhs, i, j + 1, x)
  }

  /** Counts only grow, by at most one per reference, and stay well formed; the
      increments made before a bail-out are kept. */
  lemma {:induction false} RhsCounts(env: Env, rhs: Rhs, counts: Tally)
    ensures var c := ConvertRhs(env, rhs, counts).1;
            (counts.Valid() ==> c.Valid()) &&
            forall x :: counts.Get(x) <= c.Get(x) <= counts.Get(x) + UsesRhs(rhs, x)
    decreases rhs, 2
  {
    ListsCounts(env, rhs, 0, [], [], counts);
  }

  lemma {:induction false} ListsCounts(env: Env, rhs: Rhs, i: nat, mapped: seq<Pattern>, slots: seq<Option<Kind>>, counts: Tally)
    requires i <= |rhs.lists| && |mapped| == |slots| == i
    ensures var c := ConvertLists(env, rhs, i, mapped, slots, counts).counts;
            (counts.Valid() ==> c.Valid()) &&
            forall x :: counts.Get(x) <= c.Get(x) <= counts.Get(x) + UsesLists(rhs, i, x)
    decreases rhs, 1, |rhs.lists| - i
  {
    if i < |rhs.lists| {
      var l := ConvertList(env, rhs, i, 0, [], None, counts);
      ListCounts(env, rhs, i, 0, [], None, counts);
      if l.items.Some? {
        var w := ConvertLists(env, rhs, i + 1, mapped + [Join(l.items.value)], slots + [l.slot], l.counts);
        assert ConvertLists(env, rhs, i, mapped, slots, counts) == w;
        ListsCounts(env, rhs, i + 1, mapped + [Join(l.items.value)], slots + [l.slot], l.counts);
        forall x ensures counts.Get(x) <= w.counts.Get(x) <= counts.Get(x) + UsesLists(rhs, i, x) {
          assert UsesLists(rhs, i, x) == UsesList(rhs, i, 0, x) + UsesLists(rhs, i + 1, x);
        }
      }
    }
  }

  lemma {:induction false} ListCounts(env: Env, rhs: Rhs, i: nat, j: nat, done: seq<Pattern>, slot: Option<Kind>, counts: Tally)
    requires i < |rhs.lists| && j <= |rhs.lists[i].exprs|
    ensures var c := ConvertList(env, rhs, i, j, done, slot, counts).counts;
            (counts.Valid() ==> c.Valid()) &&
            forall x :: counts.Get(x) <= c.Get(x) <= counts.Get(x) + UsesList(rhs, i, j, x)
    decreases rhs, 0, |rhs.lists[i].exprs| - j
  {
    if j < |rhs.lists[i].exprs| {
      var r := Step(env, rhs, i, j, slot, counts);
      StepCounts(env, rhs, i, j, slot, counts);
      if r.0.Some? {
        ListCounts(env, rhs, i, j + 1, done + [r.0.value], r.1, r.2);
      }
    }
  }

  lemma {:induction false} StepCounts(env: Env, rhs: Rhs, i: nat, j: nat, slot: Option<Kind>, counts: Tally)
    requires i < |rhs.lists| && j < |rhs.lists[i].exprs|
    ensures var c := Step(env, rhs, i, j, slot, counts).2;
            (counts.Valid() ==> c.Valid()) &&
            forall x :: counts.Get(x) <= c.Get(x) <= counts.Get(x) + UsesList(rhs, i, j, x) - UsesList(rhs, i, j + 1, x)
    decreases rhs, 0, |rhs.lists[i].exprs| - j, 0
  {
    match rhs.lists[i].exprs[j]
    case Terminal(_) =>
    case Identifier(n) =>
    case Group(inner) => RhsCounts(env, inner, counts);
    case OptionalGroup(inner) => RhsCounts(env, inner, counts);
    case RepeatGroup(inner) => RhsCounts(env, inner, counts);
  }

  /** The names referenced in `rhs` other than `owner`, at any depth, in order. */
  function NamesRhs(owner: string, rhs: Rhs): seq<string>
    decreases rhs, 2
  {
    NamesLists(owner, rhs, 0)
  }

  function NamesLists(owner: string, rhs: Rhs, i: nat): seq<string>
    requires i <= |rhs.lists|
    decreases rhs, 1, |rhs.lists| - i
  {
    if i == |rhs.lists| then [] else NamesList(owner, rhs, i, 0) + NamesLists(owner, rhs, i + 1)
  }

  function NamesList(owner: string, rhs: Rhs, i: nat, j: nat): seq<string>
    requires i < |rhs.lists| && j <= |rhs.lists[i].exprs|
    decreases rhs, 0, |rhs.lists[i].exprs| - j
  {
    var exprs := rhs.lists[i].exprs;
    if j == |exprs| then []
    else
      var here := match exprs[j]
        case Terminal(_) => []
        case Identifier(n) => if n != owner then [n] else []
        case Group(inner) => NamesRhs(owner, inner)
        case OptionalGroup(inner) => NamesRhs(owner, inner)
        case RepeatGroup(inner) => NamesRhs(owner, inner);
      here + NamesList(owner, rhs, i, j + 1)
  }

  /** `RHS#references(rule_name)`: every rule referenced other than the rule itself,
      once each. */
  function References(owner: string, rhs: Rhs): (r: seq<string>)
    ensures Distinct(r)
  {
    Dedup(NamesRhs(owner, rhs))
  }

  /** `Rule#references` */
  function RuleReferences(rule: Rule): seq<string>
  {
    References(rule.name, rule.rhs)
  }

  /** A name is among the references exactly when it is some other rule that is
      referenced somewhere in the right-hand side. */
  lemma ReferencesAreTheOtherRulesUsed(owner: string, rhs: Rhs, x: string)
    ensures x in References(owner, rhs) <==> x != owner && UsesRhs(rhs, x) > 0
  {
    NamesRhsAreUses(owner, rhs, x);
  }

  lemma {:induction false} NamesRhsAreUses(owner: string, rhs: Rhs, x: string)
    ensures x in NamesRhs(owner, rhs) <==> x != owner && UsesRhs(rhs, x) > 0
    decreases rhs, 2
  {
    NamesListsAreUses(owner, rhs, 0, x);
  }

  lemma {:induction false} NamesListsAreUses(owner: string, rhs: Rhs, i: nat, x: string)
    requires i <= |rhs.lists|
    ensures x in NamesLists(owner, rhs, i) <==> x != owner && UsesLists(rhs, i, x) > 0
    decreases rhs, 1, |rhs.lists| - i
  {
    if i < |rhs.lists| {
      NamesListAreUses(owner, rhs, i, 0, x);
      NamesListsAreUses(owner, rhs, i + 1, x);
    }
  }

  lemma {:induction false} NamesListAreUses(owner: string, rhs: Rhs, i: nat, j: nat, x: string)
    requires i < |rhs.lists| && j <= |rhs.lists[i].exprs|
    ensures x in NamesList(owner, rhs, i, j) <==> x != owner && UsesList(rhs, i, j, x) > 0
    decreases rhs, 0, |rhs.lists[i].exprs| - j
  {
    var exprs := rhs.lists[i].exprs;
    if j < |exprs| {
      NamesListAreUses(owner, rhs, i, j + 1, x);
      match exprs[j]
      case Terminal(_) =>
      case Identifier(n) =>
      case Group(inner) => NamesRhsAreUses(owner, inner, x);
      case OptionalGroup(inner) => NamesRhsAreUses(owner, inner, x);
      case RepeatGroup(inner) => NamesRhsAreUses(owner, inner, x);
    }
  }

  /** The position of the last reference to `owner` among the first `j` expressions. */
  function LastSelf(owner: string, exprs: seq<Expr>, j: nat): (r: Option<nat>)
    requires j <= |exprs|
    ensures r.Some? ==> r.value < j && exprs[r.value] == Identifier(owner) &&
                        forall m :: r.value < m < j ==> exprs[m] != Identifier(owner)
    ensures r.None? ==> forall m :: 0 <= m < j ==> exprs[m] != Identifier(owner)
  {
    if j == 0 then None
    else if exprs[j - 1] == Identifier(owner) then Some(j - 1)
    else LastSelf(owner, exprs, j - 1)
  }

  /** The mark an alternative carries once its first `j` expressions are converted:
      decided by the last self-reference so far, which is `:both` only when it ends
      the alternative and the one before it opens the alternative. */
  function MarkAfter(owner: string, exprs: seq<Expr>, j: nat): Option<Kind>
    requires j <= |exprs|
  {
    var p := LastSelf(owner, exprs, j);
    if p.None? then None
    else if p.value == 0 then Some(Left)
    else if p.value == |exprs| - 1 then Some(if LastSelf(owner, exprs, p.value) == Some(0) then Both else Right)
    else Some(Center)
  }

  /** Converting expression `j` moves the mark exactly as `ClassifyKind` says. */
  lemma MarkStep(owner: string, exprs: seq<Expr>, j: nat)
    requires j < |exprs|
    ensures exprs[j] == Identifier(owner) ==>
              MarkAfter(owner, exprs, j + 1) == Some(ClassifyKind(MarkAfter(owner, exprs, j), j, |exprs|))
    ensures exprs[j] != Identifier(owner) ==> MarkAfter(owner, exprs, j + 1) == MarkAfter(owner, exprs, j)
  {
    if exprs[j] == Identifier(owner) {
      assert LastSelf(owner, exprs, j + 1) == Some(j);
    }
  }

  /** Only a reference to the rule itself changes the mark, and it is classified. */
  lemma StepMark(env: Env, rhs: Rhs, i: nat, j: nat, slot: Option<Kind>, counts: Tally)
    requires env.SeesItself()
    requires i < |rhs.lists| && j < |rhs.lists[i].exprs|
    ensures var exprs := rhs.lists[i].exprs;
            Step(env, rhs, i, j, slot, counts).1 ==
              if exprs[j] == Identifier(env.owner) then Some(ClassifyKind(slot, j, |exprs|)) else slot
  {
  }

  /** The mark left on an alternative is the one its last self-reference decides. */
  lemma {:induction false} ListMark(env: Env, rhs: Rhs, i: nat, j: nat, done: seq<Pattern>, slot: Option<Kind>, counts: Tally)
    requires env.SeesItself()
    requires i < |rhs.lists| && j <= |rhs.lists[i].exprs|
    requires slot == MarkAfter(env.owner, rhs.lists[i].exprs, j)
    ensures var w := ConvertList(env, rhs, i, j, done, slot, counts);
            w.items.Some? ==> w.slot == MarkAfter(env.owner, rhs.lists[i].exprs, |rhs.lists[i].exprs|)
    decreases |rhs.lists[i].exprs| - j
  {
    if j < |rhs.lists[i].exprs| {
      var r := Step(env, rhs, i, j, slot, counts);
      StepMark(env, rhs, i, j, slot, counts);
      MarkStep(env.owner, rhs.lists[i].exprs, j);
      if r.0.Some? {
        ListMark(env, rhs, i, j + 1, done + [r.0.value], r.1, r.2);
      }
    }
  }

  lemma {:induction false} ListsMarks(env: Env, rhs: Rhs, i: nat, mapped: seq<Pattern>, slots: seq<Option<Kind>>, counts: Tally)
    requires env.SeesItself()
    requires i <= |rhs.lists| && |mapped| == |slots| == i
    requires forall k :: 0 <= k < i ==> slots[k] == MarkAfter(env.owner, rhs.lists[k].exprs, |rhs.lists[k].exprs|)
    ensures var w := ConvertLists(env, rhs, i, mapped, slots, counts);
            w.items.Some? ==>
              forall k :: 0 <= k < |rhs.lists| ==> w.slots[k] == MarkAfter(env.owner, rhs.lists[k].exprs, |rhs.lists[k].exprs|)
    decreases |rhs.lists| - i
  {
    if i < |rhs.lists| {
      var l := ConvertList(env, rhs, i, 0, [], None, counts);
      ListMark(env, rhs, i, 0, [], None, counts);
      if l.items.Some? {
        ListsMarks(env, rhs, i + 1, mapped + [Join(l.items.value)], slots + [l.slot], l.counts);
      }
    }
  }

  /** An alternative of one expression converts to that expression's pattern. */
  lemma OneExpression(env: Env, rhs: Rhs, i: nat, counts: Tally)
    requires i < |rhs.lists| && |rhs.lists[i].exprs| == 1
    ensures var a := Step(env, rhs, i, 0, None, counts);
            a.0.Some? ==> ConvertList(env, rhs, i, 0, [], None, counts) == ListWalk(Some([a.0.value]), a.1, a.2)
  {
    var a := Step(env, rhs, i, 0, None, counts);
    if a.0.Some? {
      assert [] + [a.0.value] == [a.0.value];
    }
  }

  /** An alternative of two expressions converts them in turn, the second seeing the
      mark and counts the first left. */
  lemma TwoExpressions(env: Env, rhs: Rhs, i: nat, counts: Tally)
    requires i < |rhs.lists| && |rhs.lists[i].exprs| == 2
    ensures var a := Step(env, rhs, i, 0, None, counts);
            var b := Step(env, rhs, i, 1, a.1, a.2);
            a.0.Some? && b.0.Some? ==>
              ConvertList(env, rhs, i, 0, [], None, counts) == ListWalk(Some([a.0.value, b.0.value]), b.1, b.2)
  {
    var a := Step(env, rhs, i, 0, None, counts);
    if a.0.Some? {
      var b := Step(env, rhs, i, 1, a.1, a.2);
      assert [] + [a.0.value] == [a.0.value];
      assert ConvertList(env, rhs, i, 0, [], None, counts) == ConvertList(env, rhs, i, 1, [a.0.value], a.1, a.2);
      if b.0.Some? {
        assert [a.0.value] + [b.0.value] == [a.0.value, b.0.value];
        assert ConvertList(env, rhs, i, 1, [a.0.value], a.1, a.2) ==
               ConvertList(env, rhs, i, 2, [a.0.value, b.0.value], b.1, b.2);
      }
    }
  }

  /** A right-hand side of one alternative. */
  lemma OneAlternative(env: Env, rhs: Rhs, counts: Tally)
    requires |rhs.lists| == 1
    ensures var l := ConvertList(env, rhs, 0, 0, [], None, counts);
            l.items.Some? ==>
              ConvertLists(env, rhs, 0, [], [], counts) == Walk(Some([Join(l.items.value)]), [l.slot], l.counts)
  {
    var l := ConvertList(env, rhs, 0, 0, [], None, counts);
    if l.items.Some? {
      assert [] + [Join(l.items.value)] == [Join(l.items.value)];
      assert [] + [l.slot] == [l.slot];
    }
  }

  /** A right-hand side of two alternatives. */
  lemma TwoAlternatives(env: Env, rhs: Rhs, counts: Tally)
    requires |rhs.lists| == 2
    ensures var l := ConvertList(env, rhs, 0, 0, [], None, counts);
            var m := ConvertList(env, rhs, 1, 0, [], None, l.counts);
            l.items.Some? && m.items.Some? ==>
              ConvertLists(env, rhs, 0, [], [], counts) ==
                Walk(Some([Join(l.items.value), Join(m.items.value)]), [l.slot, m.slot], m.counts)
  {
    var l := ConvertList(env, rhs, 0, 0, [], None, counts);
    if l.items.Some? {
      var m := ConvertList(env, rhs, 1, 0, [], None, l.counts);
      assert [] + [Join(l.items.value)] == [Join(l.items.value)];
      assert [] + [l.slot] == [l.slot];
      assert ConvertLists(env, rhs, 0, [], [], counts) == ConvertLists(env, rhs, 1, [Join(l.items.value)], [l.slot], l.counts);
      if m.items.Some? {
        assert [Join(l.items.value)] + [Join(m.items.value)] == [Join(l.items.value), Join(m.items.value)];
        assert [l.slot] + [m.slot] == [l.slot, m.slot];
        assert ConvertLists(env, rhs, 1, [Join(l.items.value)], [l.slot], l.counts) ==
               ConvertLists(env, rhs, 2, [Join(l.items.value), Join(m.items.value)], [l.slot, m.slot], m.counts);
      }
    }
  }

  /** A base alternative beside one left-recursive alternative: the recursive one is
      dropped and the base is wrapped with the repetition of its remainder. */
  lemma PoolBesideLeftRecursion(base: Pattern, recursive: Pattern)
    requires LeftRemainder(recursive) != Nil
    ensures Pool([base, recursive], [None, Some(Left)]) == [Wrap(None, Some(LeftRemainder(recursive)), base)]
  {
    var mapped, slots := [base, recursive], [None, Some(Left)];
    assert slots[1].Some?;
    assert mapped[1..] == [recursive] && slots[1..] == [Some(Left)];
    assert [recursive][1..] == [] && [Some(Left)][1..] == [];
    assert RightParts([recursive], [Some(Left)]) == [LeftRemainder(recursive)] + [];
    assert RightParts(mapped, slots) == [] + [LeftRemainder(recursive)];
    assert LeftParts([recursive], [Some(Left)]) == [];
    assert LeftParts(mapped, slots) == [];
    assert WrapSurvivors(None, Some(LeftRemainder(recursive)), [recursive], [Some(Left)]) == [];
    assert WrapSurvivors(None, Some(LeftRemainder(recursive)), mapped, slots) == [Wrap(None, Some(LeftRemainder(recursive)), base)];
  }

  /** A base alternative beside one right-recursive alternative: the recursive one
      is dropped and the base is wrapped with the repetition of its remainder. */
  lemma PoolBesideRightRecursion(base: Pattern, recursive: Pattern)
    requires RightRemainder(recursive) != Nil
    ensures Pool([base, recursive], [None, Some(Right)]) == [Wrap(Some(RightRemainder(recursive)), None, base)]
  {
    var mapped, slots := [base, recursive], [None, Some(Right)];
    assert slots[1].Some?;
    assert mapped[1..] == [recursive] && slots[1..] == [Some(Right)];
    assert [recursive][1..] == [] && [Some(Right)][1..] == [];
    assert LeftParts([recursive], [Some(Right)]) == [RightRemainder(recursive)] + [];
    assert LeftParts(mapped, slots) == [] + [RightRemainder(recursive)];
    assert RightParts([recursive], [Some(Right)]) == [];
    assert RightParts(mapped, slots) == [];
    assert WrapSurvivors(Some(RightRemainder(recursive)), None, [recursive], [Some(Right)]) == [];
    assert WrapSurvivors(Some(RightRemainder(recursive)), None, mapped, slots) == [Wrap(Some(RightRemainder(recursive)), None, base)];
  }

  /** A base beside one left-recursive alternative converts to the wrapped base. */
  lemma LeftRecursionFinishes(base: Pattern, recursive: Pattern)
    requires LeftRemainder(recursive) != Nil
    ensures Finish(BothStep(Pool([base, recursive], [None, Some(Left)]), [None, Some(Left)]))
            == Some(Wrap(None, Some(LeftRemainder(recursive)), base))
  {
    PoolBesideLeftRecursion(base, recursive);
    assert FirstBoth([None, Some(Left)]) == None;
  }

  /** A base beside one right-recursive alternative converts to the wrapped base. */
  lemma RightRecursionFinishes(base: Pattern, recursive: Pattern)
    requires RightRemainder(recursive) != Nil
    ensures Finish(BothStep(Pool([base, recursive], [None, Some(Right)]), [None, Some(Right)]))
            == Some(Wrap(Some(RightRemainder(recursive)), None, base))
  {
    PoolBesideRightRecursion(base, recursive);
    assert FirstBoth([None, Some(Right)]) == None;
  }

  /** Without pools, a surviving Concatenation is left as it is. */
  lemma WrapWithoutPools(list: Pattern)
    requires list.Cat?
    ensures Wrap(None, None, list) == list
  {
    assert [] + list.elems + [] == list.elems;
  }

  /** Beside a `:both` alternative and nothing else recursive, there is nothing to
      pool: both alternatives survive, only wrapped. */
  lemma PoolBesideBothRecursion(base: Pattern, recursive: Pattern)
    ensures Pool([base, recursive], [None, Some(Both)]) == [Wrap(None, None, base), Wrap(None, None, recursive)]
  {
    var mapped, slots := [base, recursive], [None, Some(Both)];
    assert slots[1].Some?;
    assert mapped[1..] == [recursive] && slots[1..] == [Some(Both)];
    assert [recursive][1..] == [] && [Some(Both)][1..] == [];
    assert LeftParts([recursive], [Some(Both)]) == [] && RightParts([recursive], [Some(Both)]) == [];
    assert LeftParts(mapped, slots) == [] && RightParts(mapped, slots) == [];
    assert WrapSurvivors(None, None, [recursive], [Some(Both)]) == [Wrap(None, None, recursive)];
  }

  /** The walk over the right-hand side of `BothRecursionRepeatsTheBase`. */
  lemma BothRecursionRepeatsTheBaseWalk(env: Env, rhs: Rhs)
    requires env == Alone("rule")
    requires rhs == Rhs([List.List([Terminal("abc"), Terminal("def")]), List.List([Identifier("rule"), Identifier("rule")])])
    ensures ConvertLists(env, rhs, 0, [], [], NoCounts) == Walk(Some([Cat([Lit("abc"), Lit("def")]), Cat([SelfRef("rule"), SelfRef("rule")])]), [None, Some(Both)], NoCounts)
  {
    TwoExpressions(env, rhs, 0, NoCounts);
    TwoExpressions(env, rhs, 1, NoCounts);
    TwoAlternatives(env, rhs, NoCounts);
  }

  /** `rule = "abc", "def" | rule, rule`: the `:both` alternative is dropped and the
      other becomes one-or-more. */
  lemma BothRecursionRepeatsTheBase()
    ensures ConvertRhs(Alone("rule"), Rhs([List.List([Terminal("abc"), Terminal("def")]),
                                          List.List([Identifier("rule"), Identifier("rule")])]), NoCounts).0
            == Some(AtLeast(1, Cat([Lit("abc"), Lit("def")])))
  {
    var env := Alone("rule");
    var rhs := Rhs([List.List([Terminal("abc"), Terminal("def")]), List.List([Identifier("rule"), Identifier("rule")])]);
    BothRecursionRepeatsTheBaseWalk(env, rhs);
    BothRecursionRepeatsTheBaseFinish(env, rhs);
  }

  /** What `BothRecursionRepeatsTheBase` makes of its walk. */
  lemma BothRecursionRepeatsTheBaseFinish(env: Env, rhs: Rhs)
    requires ConvertLists(env, rhs, 0, [], [], NoCounts) ==
             Walk(Some([Cat([Lit("abc"), Lit("def")]), Cat([SelfRef("rule"), SelfRef("rule")])]), [None, Some(Both)], NoCounts)
    ensures ConvertRhs(env, rhs, NoCounts).0 == Some(AtLeast(1, Cat([Lit("abc"), Lit("def")])))
  {
    var base, recursive := Cat([Lit("abc"), Lit("def")]), Cat([SelfRef("rule"), SelfRef("rule")]);
    PoolBesideBothRecursion(base, recursive);
    WrapWithoutPools(base);
    WrapWithoutPools(recursive);
    assert FirstBoth([None, Some(Both)]) == Some(1);
    assert Others([base, recursive], 1) == [base];
  }

  /** The walk over the right-hand side of `LeftRecursionAppendsTheRemainder`. */
  lemma LeftRecursionAppendsTheRemainderWalk(env: Env, rhs: Rhs)
    requires env == Alone("rule")
    requires rhs == Rhs([List.List([Terminal("abc"), Terminal("def")]), List.List([Identifier("rule"), Terminal("xyz")])])
    ensures ConvertLists(env, rhs, 0, [], [], NoCounts) == Walk(Some([Cat([Lit("abc"), Lit("def")]), Cat([SelfRef("rule"), Lit("xyz")])]), [None, Some(Left)], NoCounts)
  {
    TwoExpressions(env, rhs, 0, NoCounts);
    TwoExpressions(env, rhs, 1, NoCounts);
    TwoAlternatives(env, rhs, NoCounts);
  }

  /** `rule = "abc", "def" | rule, "xyz"`: the left-recursive remainder is appended
      to the base concatenation as a repetition. */
  lemma LeftRecursionAppendsTheRemainder()
    ensures ConvertRhs(Alone("rule"), Rhs([List.List([Terminal("abc"), Terminal("def")]),
                                          List.List([Identifier("rule"), Terminal("xyz")])]), NoCounts).0
            == Some(Cat([Lit("abc"), Lit("def"), Any(Lit("xyz"))]))
  {
    var env := Alone("rule");
    var rhs := Rhs([List.List([Terminal("abc"), Terminal("def")]), List.List([Identifier("rule"), Terminal("xyz")])]);
    LeftRecursionAppendsTheRemainderWalk(env, rhs);
    LeftRecursionAppendsTheRemainderFinish(env, rhs);
  }

  /** What `LeftRecursionAppendsTheRemainder` makes of its walk. */
  lemma LeftRecursionAppendsTheRemainderFinish(env: Env, rhs: Rhs)
    requires ConvertLists(env, rhs, 0, [], [], NoCounts) ==
             Walk(Some([Cat([Lit("abc"), Lit("def")]), Cat([SelfRef("rule"), Lit("xyz")])]), [None, Some(Left)], NoCounts)
    ensures ConvertRhs(env, rhs, NoCounts).0 == Some(Cat([Lit("abc"), Lit("def"), Any(Lit("xyz"))]))
  {
    var base, recursive := Cat([Lit("abc"), Lit("def")]), Cat([SelfRef("rule"), Lit("xyz")]);
    assert LeftRemainder(recursive) == Lit("xyz");
    LeftRecursionFinishes(base, recursive);
    var wrapped := Cat([Lit("abc"), Lit("def"), Any(Lit("xyz"))]);
    assert Wrap(None, Some(Lit("xyz")), base) == wrapped by {
      assert [] + base.elems + [Any(Lit("xyz"))] == wrapped.elems;
    }
  }

  /** The walk over the right-hand side of `LeftRecursionOnItsBaseRepeatsIt`. */
  lemma LeftRecursionOnItsBaseRepeatsItWalk(env: Env, rhs: Rhs)
    requires env == Alone("rule")
    requires rhs == Rhs([List.List([Terminal("abc")]), List.List([Identifier("rule"), Terminal("abc")])])
    ensures ConvertLists(env, rhs, 0, [], [], NoCounts) == Walk(Some([Lit("abc"), Cat([SelfRef("rule"), Lit("abc")])]), [None, Some(Left)], NoCounts)
  {
    OneExpression(env, rhs, 0, NoCounts);
    TwoExpressions(env, rhs, 1, NoCounts);
    TwoAlternatives(env, rhs, NoCounts);
  }

  /** `rule = "abc" | rule, "abc"`: a base equal to the remainder becomes one-or-more. */
  lemma LeftRecursionOnItsBaseRepeatsIt()
    ensures ConvertRhs(Alone("rule"), Rhs([List.List([Terminal("abc")]),
                                          List.List([Identifier("rule"), Terminal("abc")])]), NoCounts).0
            == Some(AtLeast(1, Lit("abc")))
  {
    var env := Alone("rule");
    var rhs := Rhs([List.List([Terminal("abc")]), List.List([Identifier("rule"), Terminal("abc")])]);
    LeftRecursionOnItsBaseRepeatsItWalk(env, rhs);
    LeftRecursionOnItsBaseRepeatsItFinish(env, rhs);
  }

  /** What `LeftRecursionOnItsBaseRepeatsIt` makes of its walk. */
  lemma LeftRecursionOnItsBaseRepeatsItFinish(env: Env, rhs: Rhs)
    requires ConvertLists(env, rhs, 0, [], [], NoCounts) ==
             Walk(Some([Lit("abc"), Cat([SelfRef("rule"), Lit("abc")])]), [None, Some(Left)], NoCounts)
    ensures ConvertRhs(env, rhs, NoCounts).0 == Some(AtLeast(1, Lit("abc")))
  {
    var recursive := Cat([SelfRef("rule"), Lit("abc")]);
    assert LeftRemainder(recursive) == Lit("abc");
    LeftRecursionFinishes(Lit("abc"), recursive);
  }

  /** The walk over the right-hand side of `RightRecursionPrependsTheRemainder`. */
  lemma RightRecursionPrependsTheRemainderWalk(env: Env, rhs: Rhs)
    requires env == Alone("rule")
    requires rhs == Rhs([List.List([Terminal("abc"), Terminal("def")]), List.List([Terminal("xyz"), Identifier("rule")])])
    ensures ConvertLists(env, rhs, 0, [], [], NoCounts) == Walk(Some([Cat([Lit("abc"), Lit("def")]), Cat([Lit("xyz"), SelfRef("rule")])]), [None, Some(Right)], NoCounts)
  {
    TwoExpressions(env, rhs, 0, NoCounts);
    TwoExpressions(env, rhs, 1, NoCounts);
    TwoAlternatives(env, rhs, NoCounts);
  }

  /** `rule = "abc", "def" | "xyz", rule`: the right-recursive remainder is prepended. */
  lemma RightRecursionPrependsTheRemainder()
    ensures ConvertRhs(Alone("rule"), Rhs([List.List([Terminal("abc"), Terminal("def")]),
                                          List.List([Terminal("xyz"), Identifier("rule")])]), NoCounts).0
            == Some(Cat([Any(Lit("xyz")), Lit("abc"), Lit("def")]))
  {
    var env := Alone("rule");
    var rhs := Rhs([List.List([Terminal("abc"), Terminal("def")]), List.List([Terminal("xyz"), Identifier("rule")])]);
    RightRecursionPrependsTheRemainderWalk(env, rhs);
    RightRecursionPrependsTheRemainderFinish(env, rhs);
  }

  /** What `RightRecursionPrependsTheRemainder` makes of its walk. */
  lemma RightRecursionPrependsTheRemainderFinish(env: Env, rhs: Rhs)
    requires ConvertLists(env, rhs, 0, [], [], NoCounts) ==
             Walk(Some([Cat([Lit("abc"), Lit("def")]), Cat([Lit("xyz"), SelfRef("rule")])]), [None, Some(Right)], NoCounts)
    ensures ConvertRhs(env, rhs, NoCounts).0 == Some(Cat([Any(Lit("xyz")), Lit("abc"), Lit("def")]))
  {
    var base, recursive := Cat([Lit("abc"), Lit("def")]), Cat([Lit("xyz"), SelfRef("rule")]);
    assert RightRemainder(recursive) == Lit("xyz");
    RightRecursionFinishes(base, recursive);
    var wrapped := Cat([Any(Lit("xyz")), Lit("abc"), Lit("def")]);
    assert Wrap(Some(Lit("xyz")), None, base) == wrapped by {
      assert [Any(Lit("xyz"))] + base.elems + [] == wrapped.elems;
    }
  }

  /** `rule = {"abc" | "def"}`: a repeat group converts its alternatives as a whole. */
  lemma RepeatGroupIsAny()
    ensures ConvertRhs(Alone("rule"), Rhs([List.List([RepeatGroup(Rhs([List.List([Terminal("abc")]), List.List([Terminal("def")])]))])]), NoCounts).0
            == Some(Any(Alt([Lit("abc"), Lit("def")])))
  {
    var env := Alone("rule");
    var inner := Rhs([List.List([Terminal("abc")]), List.List([Terminal("def")])]);
    var rhs := Rhs([List.List([RepeatGroup(inner)])]);
    OneExpression(env, inner, 0, NoCounts);
    OneExpression(env, inner, 1, NoCounts);
    TwoAlternatives(env, inner, NoCounts);
    assert ConvertLists(env, inner, 0, [], [], NoCounts) == Walk(Some([Lit("abc"), Lit("def")]), [None, None], NoCounts);
    assert !AnyRecursive([None, None]);
    assert ConvertRhs(env, inner, NoCounts) == (Some(Alt([Lit("abc"), Lit("def")])), NoCounts);
    OneExpression(env, rhs, 0, NoCounts);
    OneAlternative(env, rhs, NoCounts);
    assert ConvertLists(env, rhs, 0, [], [], NoCounts) == Walk(Some([Any(Alt([Lit("abc"), Lit("def")]))]), [None], NoCounts);
    assert !AnyRecursive([None]);
  }

  /** Every rule of `worklist` has an entry in `rules`. */
  predicate Declares(worklist: seq<Rule>, rules: map<string, Option<Pattern>>)
  {
    forall k :: 0 <= k < |worklist| ==> worklist[k].name in rules
  }

  /** One `reject` pass of `convert_rules` from rule `i` on. `rules[name] ||= ...`
      leaves an already converted rule alone and drops it; any other rule is converted
      and its result, nil included, stored; a rule whose result is nil is kept. */
  function Pass(worklist: seq<Rule>, i: nat, st: EState, proxies: set<string>, kept: seq<Rule>): (r: (EState, seq<Rule>))
    requires i <= |worklist|
    ensures st.counts.Valid() ==> r.0.counts.Valid()
    ensures forall x :: st.counts.Get(x) <= r.0.counts.Get(x)
    ensures forall n :: n in st.rules && st.rules[n].Some? ==> n in r.0.rules && r.0.rules[n] == st.rules[n]
    ensures Declares(worklist, st.rules) ==> r.0.rules.Keys == st.rules.Keys
    ensures |r.1| <= |kept| + |worklist| - i
    decreases |worklist| - i
  {
    if i == |worklist| then (st, kept)
    else
      var rule := worklist[i];
      if rule.name in st.rules && st.rules[rule.name].Some? then
        Pass(worklist, i + 1, st, proxies, kept)
      else
        var env := Env(rule.name, st.rules, proxies);
        var c := ConvertRhs(env, rule.rhs, st.counts);
        RhsCounts(env, rule.rhs, st.counts);
        var st' := EState(st.rules[rule.name := c.0], c.1);
        assert Declares(worklist, st.rules) ==> st'.rules.Keys == st.rules.Keys;
        if c.0.Some? then Pass(worklist, i + 1, st', proxies, kept)
        else Pass(worklist, i + 1, st', proxies, kept + [rule])
  }

  /** In a pass that keeps every rule, the first rule was not converted yet, its
      conversion failed, and it was kept. */
  lemma KeptFirst(worklist: seq<Rule>, i: nat, st: EState, proxies: set<string>, kept: seq<Rule>)
    requires i < |worklist|
    requires |Pass(worklist, i, st, proxies, kept).1| == |kept| + |worklist| - i
    ensures var rule := worklist[i];
            var c := ConvertRhs(Env(rule.name, st.rules, proxies), rule.rhs, st.counts);
            !(rule.name in st.rules && st.rules[rule.name].Some?) && c.0.None? &&
            Pass(worklist, i, st, proxies, kept) ==
              Pass(worklist, i + 1, EState(st.rules[rule.name := None], c.1), proxies, kept + [rule])
  {
    var rule := worklist[i];
    if rule.name in st.rules && st.rules[rule.name].Some? {
      assert false;
    }
    var c := ConvertRhs(Env(rule.name, st.rules, proxies), rule.rhs, st.counts);
    if c.0.Some? {
      assert false;
    }
  }

  /** A pass that keeps every rule changes no entry of the table, and each of its
      rules is still unconverted. */
  lemma {:induction false} UnproductivePass(worklist: seq<Rule>, i: nat, st: EState, proxies: set<string>, kept: seq<Rule>)
    requires i <= |worklist| && Declares(worklist, st.rules)
    requires |Pass(worklist, i, st, proxies, kept).1| == |kept| + |worklist| - i
    ensures Pass(worklist, i, st, proxies, kept).0.rules == st.rules
    ensures forall k :: i <= k < |worklist| ==> st.rules[worklist[k].name].None?
    decreases |worklist| - i
  {
    if i < |worklist| {
      var rule := worklist[i];
      KeptFirst(worklist, i, st, proxies, kept);
      var c := ConvertRhs(Env(rule.name, st.rules, proxies), rule.rhs, st.counts);
      assert st.rules[rule.name := None] == st.rules;
      UnproductivePass(worklist, i + 1, EState(st.rules, c.1), proxies, kept + [rule]);
    }
  }

  lemma {:induction false} PassKeepsSubsequence(worklist: seq<Rule>, i: nat, st: EState, proxies: set<string>, kept: seq<Rule>)
    requires i <= |worklist|
    ensures forall rule :: rule in Pass(worklist, i, st, proxies, kept).1 ==> rule in kept || rule in worklist[i..]
    decreases |worklist| - i
  {
    if i < |worklist| {
      var rule := worklist[i];
      if rule.name in st.rules && st.rules[rule.name].Some? {
        PassKeepsSubsequence(worklist, i + 1, st, proxies, kept);
      } else {
        var c := ConvertRhs(Env(rule.name, st.rules, proxies), rule.rhs, st.counts);
        var st' := EState(st.rules[rule.name := c.0], c.1);
        if c.0.Some? {
          PassKeepsSubsequence(worklist, i + 1, st', proxies, kept);
        } else {
          PassKeepsSubsequence(worklist, i + 1, st', proxies, kept + [rule]);
        }
      }
    }
  }

  /** The `while` of `convert_rules`: passes until one makes no progress. */
  function Fixpoint(worklist: seq<Rule>, st: EState, proxies: set<string>): (r: (EState, seq<Rule>))
    ensures st.counts.Valid() ==> r.0.counts.Valid()
    ensures forall x :: st.counts.Get(x) <= r.0.counts.Get(x)
    ensures forall n :: n in st.rules && st.rules[n].Some? ==> n in r.0.rules && r.0.rules[n] == st.rules[n]
    ensures |r.1| <= |worklist|
    decreases |worklist|
  {
    var p := Pass(worklist, 0, st, proxies, []);
    if |p.1| == |worklist| then p else Fixpoint(p.1, p.0, proxies)
  }

  /** When every rule has an entry, the loop adds no entry, gives back only rules it
      was given, and every rule it gives back is still unconverted. */
  lemma {:induction false} FixpointLeftovers(worklist: seq<Rule>, st: EState, proxies: set<string>)
    requires Declares(worklist, st.rules)
    ensures var r := Fixpoint(worklist, st, proxies);
            r.0.rules.Keys == st.rules.Keys &&
            (forall rule :: rule in r.1 ==> rule in worklist) &&
            forall rule :: rule in r.1 ==> r.0.rules[rule.name].None?
    decreases |worklist|
  {
    var p := Pass(worklist, 0, st, proxies, []);
    PassKeepsSubsequence(worklist, 0, st, proxies, []);
    assert forall rule :: rule in p.1 ==> rule in worklist by {
      assert worklist[0..] == worklist;
    }
    if |p.1| == |worklist| {
      assert Fixpoint(worklist, st, proxies) == p;
      UnproductivePass(worklist, 0, st, proxies, []);
      forall rule | rule in p.1 ensures p.0.rules[rule.name].None? {
        var k :| 0 <= k < |worklist| && worklist[k] == rule;
      }
    } else {
      assert Fixpoint(worklist, st, proxies) == Fixpoint(p.1, p.0, proxies);
      assert Declares(p.1, p.0.rules) by {
        forall k | 0 <= k < |p.1| ensures p.1[k].name in p.0.rules {
          assert p.1[k] in worklist;
        }
      }
      FixpointLeftovers(p.1, p.0, proxies);
    }
  }

  /** The name of each rule, in grammar order. */
  function Names(grammar: seq<Rule>): (r: seq<string>)
    ensures |r| == |grammar| && forall k :: 0 <= k < |grammar| ==> r[k] == grammar[k].name
  {
    if grammar == [] then [] else [grammar[0].name] + Names(grammar[1..])
  }

  /** `bnf_rules.each {|rule| rules[rule.rule_name] = nil}`: every declared name, each
      still unconverted. */
  function Seeded(grammar: seq<Rule>): (r: map<string, Option<Pattern>>)
    ensures Declares(grammar, r)
    ensures forall n :: n in r ==> r[n].None? && n in Names(grammar)
  {
    map n | n in Names(grammar) :: None
  }

  /** The rules that path expansion walks, each with the rules it refers to. */
  function Nodes(rules: seq<Rule>): (r: seq<Node>)
    ensures |r| == |rules| && forall k :: 0 <= k < |rules| ==> r[k] == Node(rules[k].name, RuleReferences(rules[k]))
  {
    if rules == [] then [] else [Node(rules[0].name, RuleReferences(rules[0]))] + Nodes(rules[1..])
  }

  /** A rule on a cycle of references is one of the rules walked. */
  lemma CycleStartsAtANode(nodes: seq<Node>, name: string)
    requires OnCycle(nodes, name)
    ensures exists k :: 0 <= k < |nodes| && nodes[k].name == name
  {
    var path :| IsChain(nodes, path) && |path| >= 2 && path[0] == name && path[|path| - 1] == name;
  }

  /** The first `convert_rules`, with no proxies. */
  function FirstLoop(grammar: seq<Rule>): (r: (EState, seq<Rule>))
  {
    Fixpoint(grammar, EState(Seeded(grammar), NoCounts), {})
  }

  /** The names that get a `Recursion` proxy: path expansion over the rules the first
      loop could not convert. */
  function Proxies(grammar: seq<Rule>): set<string>
  {
    ExpandPaths(Nodes(FirstLoop(grammar).1), 0, [], {})
  }

  /** The second `convert_rules`, over the leftovers, with the proxies. */
  function SecondLoop(grammar: seq<Rule>): (r: (EState, seq<Rule>))
  {
    Fixpoint(FirstLoop(grammar).1, FirstLoop(grammar).0, Proxies(grammar))
  }

  /** The first loop keeps the table's keys to the declared names, and gives back
      only declared rules. */
  lemma FirstLoopKeepsTheDeclaredNames(grammar: seq<Rule>)
    ensures FirstLoop(grammar).0.rules.Keys == Seeded(grammar).Keys
    ensures Declares(FirstLoop(grammar).1, FirstLoop(grammar).0.rules)
  {
    var first := FirstLoop(grammar);
    FixpointLeftovers(grammar, EState(Seeded(grammar), NoCounts), {});
    forall k | 0 <= k < |first.1| ensures first.1[k].name in first.0.rules {
      assert first.1[k] in grammar;
    }
  }

  /** Both loops keep the table's keys to the declared names. */
  lemma LoopsKeepTheDeclaredNames(grammar: seq<Rule>)
    ensures FirstLoop(grammar).0.rules.Keys == Seeded(grammar).Keys
    ensures Declares(FirstLoop(grammar).1, FirstLoop(grammar).0.rules)
    ensures SecondLoop(grammar).0.rules.Keys == Seeded(grammar).Keys
  {
    var first := FirstLoop(grammar);
    FirstLoopKeepsTheDeclaredNames(grammar);
    FixpointLeftovers(first.1, first.0, Proxies(grammar));
    assert SecondLoop(grammar) == Fixpoint(first.1, first.0, Proxies(grammar));
  }

  /** Every declared name has an entry in the final table. */
  lemma DeclaredNamesStay(grammar: seq<Rule>)
    ensures forall n :: n in Names(grammar) ==> n in SecondLoop(grammar).0.rules
  {
    LoopsKeepTheDeclaredNames(grammar);
  }

  /** Every proxy is for a declared rule that lies on a cycle of references among
      the rules the first loop could not convert. */
  lemma ProxiesAreDeclaredCycles(grammar: seq<Rule>)
    ensures forall r :: r in Proxies(grammar) ==> r in Seeded(grammar) && OnCycle(Nodes(FirstLoop(grammar).1), r)
  {
    var first := FirstLoop(grammar);
    FixpointLeftovers(grammar, EState(Seeded(grammar), NoCounts), {});
    var nodes := Nodes(first.1);
    ProxiesLieOnCycles(nodes, 0, [], {});
    forall r | r in Proxies(grammar) ensures r in Seeded(grammar) {
      CycleStartsAtANode(nodes, r);
      var k :| 0 <= k < |nodes| && nodes[k].name == r;
      assert first.1[k] in grammar;
    }
  }

  /** The post-parse part of `EBNF.read`, as a function of the parsed rules. */
  function Reading(grammar: seq<Rule>): Outcome
  {
    Outcome(Listing(grammar), Recursions(grammar))
  }

  /** The final sort: every declared name with its final entry. */
  function Listing(grammar: seq<Rule>): seq<(string, Option<Pattern>)>
  {
    DeclaredNamesStay(grammar);
    ByCount(Dedup(Names(grammar)), SecondLoop(grammar).0)
  }

  /** The fix-up: each proxy pointed at the final entry of its rule. */
  function Recursions(grammar: seq<Rule>): map<string, Option<Pattern>>
  {
    LoopsKeepTheDeclaredNames(grammar);
    ProxiesAreDeclaredCycles(grammar);
    map r | r in Proxies(grammar) :: SecondLoop(grammar).0.rules[r]
  }

  /** The recursion table holds one entry per proxy, each the final pattern of its
      rule. */
  lemma ReadingFixesUpEveryProxy(grammar: seq<Rule>)
    ensures var out := Reading(grammar);
            var final := SecondLoop(grammar).0;
            out.recursions.Keys == Proxies(grammar) &&
            forall r :: r in out.recursions ==> r in final.rules && out.recursions[r] == final.rules[r]
  {
    LoopsKeepTheDeclaredNames(grammar);
    ProxiesAreDeclaredCycles(grammar);
  }

  /** The listing holds every declared rule exactly once, with its final pattern
      (nil if it never converted). */
  lemma ReadingListsEveryRule(grammar: seq<Rule>)
    ensures var out := Reading(grammar);
            var final := SecondLoop(grammar).0;
            (forall k :: 0 <= k < |out.listing| ==>
               out.listing[k].0 in Names(grammar) && out.listing[k].0 in final.rules &&
               out.listing[k].1 == final.rules[out.listing[k].0]) &&
            (forall n :: n in Names(grammar) ==> exists k :: 0 <= k < |out.listing| && out.listing[k].0 == n) &&
            (forall i, j :: 0 <= i < j < |out.listing| ==> out.listing[i].0 != out.listing[j].0)
  {
    var final := SecondLoop(grammar).0;
    DeclaredNamesStay(grammar);
    ByCountListsEachName(Names(grammar), final);
    assert Reading(grammar).listing == ByCount(Dedup(Names(grammar)), final);
  }

  /** The listing runs by ascending final reference count. */
  lemma ReadingSortsByCount(grammar: seq<Rule>)
    ensures var out := Reading(grammar);
            var final := SecondLoop(grammar).0;
            forall i, j :: 0 <= i < j < |out.listing| ==>
              final.counts.Get(out.listing[i].0) <= final.counts.Get(out.listing[j].0)
  {
    var names, final := Dedup(Names(grammar)), SecondLoop(grammar).0;
    DeclaredNamesStay(grammar);
    assert Reading(grammar).listing == ByCount(names, final);
  }

  /** A rule the first loop converted keeps that pattern: later passes never
      overwrite a converted rule. */
  lemma FirstConversionsStand(grammar: seq<Rule>, n: string)
    requires n in FirstLoop(grammar).0.rules && FirstLoop(grammar).0.rules[n].Some?
    ensures n in SecondLoop(grammar).0.rules && SecondLoop(grammar).0.rules[n] == FirstLoop(grammar).0.rules[n]
  {
  }

  /** A rule that neither loop converted is listed with nil. */
  lemma LeftoversStayNil(grammar: seq<Rule>)
    ensures forall rule :: rule in SecondLoop(grammar).1 ==>
              rule.name in SecondLoop(grammar).0.rules && SecondLoop(grammar).0.rules[rule.name].None?
  {
    var first := FirstLoop(grammar);
    LoopsKeepTheDeclaredNames(grammar);
    FixpointLeftovers(first.1, first.0, Proxies(grammar));
  }

  /** `rules[rule_name] = nil` for every parsed rule. */
  method Seed(grammar: seq<Rule>) returns (rules: map<string, Option<Pattern>>)
    ensures rules == Seeded(grammar)
  {
    rules := map[];
    var i := 0;
    while i < |grammar|
      invariant i <= |grammar|
      invariant forall n :: n in rules <==> exists k :: 0 <= k < i && grammar[k].name == n
      invariant forall n :: n in rules ==> rules[n].None?
    {
      rules := rules[grammar[i].name := None];
      i := i + 1;
    }
    forall n ensures n in rules <==> n in Seeded(grammar) {
      if n in Names(grammar) {
        var k :| 0 <= k < |grammar| && Names(grammar)[k] == n;
      }
    }
  }

  /** One `reject` pass of `convert_rules`. */
  method RunPass(worklist: seq<Rule>, rules: map<string, Option<Pattern>>, counts: Tally, proxies: set<string>)
    returns (rules': map<string, Option<Pattern>>, counts': Tally, kept: seq<Rule>)
    ensures (EState(rules', counts'), kept) == Pass(worklist, 0, EState(rules, counts), proxies, [])
  {
    rules', counts', kept := rules, counts, [];
    var i := 0;
    while i < |worklist|
      invariant i <= |worklist|
      invariant Pass(worklist, i, EState(rules', counts'), proxies, kept) == Pass(worklist, 0, EState(rules, counts), proxies, [])
    {
      var rule := worklist[i];
      if !(rule.name in rules' && rules'[rule.name].Some?) {
        var c := ConvertRhs(Env(rule.name, rules', proxies), rule.rhs, counts');
        rules' := rules'[rule.name := c.0];
        counts' := c.1;
        if c.0.None? {
          kept := kept + [rule];
        }
      }
      i := i + 1;
    }
  }

  /** `convert_rules`: passes until the worklist is empty or a pass converts nothing;
      answers the rules still unconverted. */
  method ConvertRules(grammar: seq<Rule>, rules: map<string, Option<Pattern>>, counts: Tally, proxies: set<string>)
    returns (rules': map<string, Option<Pattern>>, counts': Tally, left: seq<Rule>)
    ensures (EState(rules', counts'), left) == Fixpoint(grammar, EState(rules, counts), proxies)
  {
    rules', counts', left := rules, counts, grammar;
    while left != []
      invariant Fixpoint(left, EState(rules', counts'), proxies) == Fixpoint(grammar, EState(rules, counts), proxies)
      decreases |left|
    {
      var r, c, kept := RunPass(left, rules', counts', proxies);
      assert |kept| <= |left|;
      if |kept| == |left| {
        assert Fixpoint(left, EState(rules', counts'), proxies) == (EState(r, c), kept);
        rules', counts', left := r, c, kept;
        return;
      }
      assert Fixpoint(left, EState(rules', counts'), proxies) == Fixpoint(kept, EState(r, c), proxies);
      rules', counts', left := r, c, kept;
    }
    assert Fixpoint([], EState(rules', counts'), proxies) == (EState(rules', counts'), []);
  }

  /** The post-parse part of `EBNF.read`: seed, convert, find the indirectly recursive
      rules and give them proxies, convert again, point each proxy at its rule, and
      list the rules by ascending reference count. */
  method Read(grammar: seq<Rule>) returns (out: Outcome)
    ensures out == Reading(grammar)
  {
    var rules, counts, proxies := ConvertAll(grammar);
    LoopsKeepTheDeclaredNames(grammar);
    ProxiesAreDeclaredCycles(grammar);
    var recursions := FixUp(proxies, rules);
    ReadingFixesUpEveryProxy(grammar);
    SameEntries(recursions, Recursions(grammar));
    var listing := ByCount(Dedup(Names(grammar)), EState(rules, counts));
    assert listing == Listing(grammar);
    out := Outcome(listing, recursions);
  }

  /** The conversions of `EBNF.read`: seed, convert, expand paths to find the rules
      that need a proxy, and convert the leftovers again. */
  method ConvertAll(grammar: seq<Rule>) returns (rules: map<string, Option<Pattern>>, counts: Tally, proxies: set<string>)
    ensures EState(rules, counts) == SecondLoop(grammar).0 && proxies == Proxies(grammar)
  {
    rules := Seed(grammar);
    var leftovers;
    rules, counts, leftovers := ConvertRules(grammar, rules, NoCounts, {});
    assert (EState(rules, counts), leftovers) == FirstLoop(grammar);
    proxies := ExpandPaths(Nodes(leftovers), 0, [], {});
    rules, counts, leftovers := ConvertRules(leftovers, rules, counts, proxies);
  }
}
