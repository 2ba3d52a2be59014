/** `Parsers::W3C_EBNF`: turning the rules of a parsed grammar in the notation of the
    XML specification (`rule ::= ...`) into patterns.

    A right-hand side is a list of alternatives separated by `|`, each a list of
    expressions separated by blanks. An expression is a terminal, a rule reference,
    a parenthesised group, an expression with a `?`, `*` or `+` suffix, an exclusion
    (`left - right`, which converts to its left operand), or one of the kinds the
    reader has no branch for (`#x` characters and bracketed ranges). As in BNF, one `is_recursive` mark is kept per right-hand side and
    decides how direct recursion is eliminated; a self-reference under a suffix is
    left inside the repetition as a node paired with its mark. Rules that never
    convert because of indirect recursion get a `Recursion` proxy found by path
    expansion, and are converted again.
 */
module W3cEbnf {
  import opened Grammar
  import opened Conversion

  /** The suffix of a repetition. */
  datatype Suffix = Question | Star | Plus

  datatype Expr =
    | Terminal(text: string)              // a quoted string
    | Identifier(name: string)            // a rule reference
    | Group(rhs: Rhs)                     // ( ... )
    | Suffixed(inner: Expr, suffix: Suffix)  // inner?, inner*, inner+
    | Hexadecimal(digits: string)         // #xN
    | Range(text: string)                 // [...]
    | NegatedRange(text: string)          // [^...]
    | Exclusion(left: Expr, right: Expr)  // left - right

  /** One alternative: expressions separated by blanks. */
  datatype List = List(exprs: seq<Expr>)

  /** Alternatives separated by `|`. */
  datatype Rhs = Rhs(lists: seq<List>)

  datatype Rule = Rule(name: string, rhs: Rhs)

  /** The converted pieces so far (None once the walk has bailed out), the one
      `is_recursive` mark of the right-hand side, and the reference counts. */
  datatype Walk = Walk(items: Option<seq<Pattern>>, tag: Option<Tag>, counts: Tally)

  /** `Repetition.optional`, `.any` and `.one_or_more`. */
  function Repeat(suffix: Suffix, p: Pattern): (r: Pattern)
    ensures r.Rep? && r.inner == p && r.max.None? == (suffix != Question)
    ensures r.min == Some(if suffix == Plus then 1 else 0)
  {
    match suffix
    case Question => Optional(p)
    case Star => Any(p)
    case Plus => AtLeast(1, p)
  }

  /** How a reference in expression `j` of alternative `i` (of `n` expressions) is
      resolved, in the order the branches are tried: a converted rule without a proxy
      is used as it is, the rule itself is the self-reference node and marks the
      right-hand side, a proxied rule is its proxy, an unknown rule leaves the count
      of the rule being converted behind, and anything else bails out. */
  function Resolve(env: Env, name: string, i: nat, j: nat, n: nat, tag: Option<Tag>, counts: Tally): (r: (Option<Pattern>, Option<Tag>, Tally))
    ensures r.0.None? <==> env.Unresolvable(name)
    ensures (env.Converted(name) && name !in env.proxies) || (name != env.owner && name in env.proxies) ==>
              r.2 == counts.Bump(name)
    ensures !((env.Converted(name) && name !in env.proxies) || (name != env.owner && name in env.proxies)) ==>
              r.2 == counts
    ensures r.1 != tag ==> name == env.owner && r.1 == Some(Classify(tag, i, j, n))
    ensures name == env.owner && env.SeesItself() ==> r == (Some(SelfRef(name)), Some(Classify(tag, i, j, n)), counts)
  {
    if env.Converted(name) && name !in env.proxies then
      (Some(env.rules[name].value), tag, counts.Bump(name))
    else if name == env.owner then
      (Some(SelfRef(name)), Some(Classify(tag, i, j, n)), counts)
    else if name in env.proxies then
      (Some(Rec(name)), tag, counts.Bump(name))
    else if name !in env.rules then
      (Some(Number(counts.Get(env.owner))), tag, counts)
    else
      (None, tag, counts)
  }

  /** The suffix that ends an expression's flattened pieces (`[first, *last]`, each
      operand flattened the same way), which the regex on the last piece finds: the
      suffix of a repetition, or whatever ends the right operand of an exclusion.
      Every other kind ends in a quote, a bracket, a parenthesis or a name. */
  function TrailingSuffix(e: Expr): (r: Option<Suffix>)
    ensures r.Some? ==> e.Suffixed? || e.Exclusion?
    decreases e
  {
    match e
    case Suffixed(_, s) => Some(s)
    case Exclusion(_, right) => TrailingSuffix(right)
    case _ => None
  }

  /** The kinds `convert_expression` has a branch for once no suffix ends the pieces. */
  predicate Convertible(e: Expr)
  {
    e.Terminal? || e.Identifier? || e.Group?
  }

  /** A reference to `owner` at the top of an expression, as the `Identifier` branch
      sees it: the reference itself, or the left operand of an exclusion that no
      suffix ends. */
  predicate SelfReference(owner: string, e: Expr)
  {
    e == Identifier(owner) ||
    (e.Exclusion? && e.left == Identifier(owner) && TrailingSuffix(e.right).None?)
  }

  /** `convert_expression` for expression `j` of alternative `i` (of `n` expressions),
      with the mark `tag` recorded so far: the pattern (None to bail out), the mark
      afterwards and the counts. An expression whose pieces end in a suffix converts
      its first piece as if it stood first and unmarked, and repeats it; otherwise
      the first piece is converted when it is a terminal, a reference or a group,
      so an exclusion stands for its left operand. A self-reference found under a
      suffix stays paired with its mark inside the repetition. Only a reference to
      the rule itself at the top of the alternative changes the mark. */
  function ConvertExpression(env: Env, e: Expr, i: nat, j: nat, n: nat, tag: Option<Tag>, counts: Tally): (r: (Option<Pattern>, Option<Tag>, Tally))
    ensures r.1 != tag ==> SelfReference(env.owner, e) && r.1 == Some(Classify(tag, i, j, n))
    ensures SelfReference(env.owner, e) && env.SeesItself() ==> r == (Some(SelfRef(env.owner)), Some(Classify(tag, i, j, n)), counts)
    decreases e, 0
  {
    match e
    case Terminal(s) => (Some(Lit(s)), tag, counts)
    case Identifier(name) => Resolve(env, name, i, j, n, tag, counts)
    case Group(inner) =>
      var g := ConvertRhs(env, inner, counts);
      (g.0, tag, g.1)
    case Suffixed(inner, suffix) => ConvertRepeated(env, inner, suffix, i, tag, counts)
    case Exclusion(left, right) =>
      var s := TrailingSuffix(right);
      if s.Some? then ConvertRepeated(env, left, s.value, i, tag, counts)
      else if Convertible(left) then ConvertExpression(env, left, i, j, n, tag, counts)
      else (None, tag, counts)
    case Hexadecimal(_) => (None, tag, counts)
    case Range(_) => (None, tag, counts)
    case NegatedRange(_) => (None, tag, counts)
  }

  /** The suffix branch: the first piece converted at index 0 with no mark and no
      list, then made optional, any or one-or-more; nil when the piece is nil. */
  function ConvertRepeated(env: Env, inner: Expr, suffix: Suffix, i: nat, tag: Option<Tag>, counts: Tally): (r: (Option<Pattern>, Option<Tag>, Tally))
    ensures r.1 == tag
    ensures r.0.Some? ==> r.0.value.Rep?
    decreases inner, 1
  {
    var g := ConvertExpression(env, inner, i, 0, 1, None, counts);
    if g.0.None? then (None, tag, g.2)
    else
      var p := if g.1.Some? then Tagged(g.0.value, g.1.value.list, g.1.value.kind) else g.0.value;
      (Some(Repeat(suffix, p)), tag, g.2)
  }

  /** `convert_rhs`: the converted right-hand side (None to try again later) and the
      reference counts after the attempt. */
  function ConvertRhs(env: Env, rhs: Rhs, counts: Tally): (r: (Option<Pattern>, Tally))
    decreases rhs, 2
  {
    var w := ConvertLists(env, rhs, 0, [], None, counts);
    if w.items.None? then (None, w.counts)
    else (Finish(Eliminate(w.items.value, w.tag)), w.counts)
  }

  /** The `map` over the alternatives from alternative `i` on. */
  function ConvertLists(env: Env, rhs: Rhs, i: nat, mapped: seq<Pattern>, tag: Option<Tag>, counts: Tally): (w: Walk)
    requires i <= |rhs.lists| && |mapped| == i
    requires tag.Some? ==> tag.value.list < i
    ensures w.items.Some? ==> |w.items.value| == |rhs.lists| && (w.tag.Some? ==> w.tag.value.list < |rhs.lists|)
    decreases rhs, 1, |rhs.lists| - i
  {
    if i == |rhs.lists| then Walk(Some(mapped), tag, counts)
    else
      var l := ConvertList(env, rhs, i, 0, [], tag, counts);
      if l.items.None? then Walk(None, l.tag, l.counts)
      else ConvertLists(env, rhs, i + 1, mapped + [Join(l.items.value)], l.tag, l.counts)
  }

  /** The inner `map.with_index` over the expressions of alternative `i`, from `j` on. */
  function ConvertList(env: Env, rhs: Rhs, i: nat, j: nat, done: seq<Pattern>, tag: Option<Tag>, counts: Tally): (w: Walk)
    requires i < |rhs.lists| && j <= |rhs.lists[i].exprs|
    requires tag.Some? ==> tag.value.list <= i
    ensures w.items.Some? ==> |w.items.value| == |done| + |rhs.lists[i].exprs| - j
    ensures w.tag.Some? ==> w.tag.value.list <= i
    decreases rhs, 0, |rhs.lists[i].exprs| - j
  {
    var exprs := rhs.lists[i].exprs;
    if j == |exprs| then Walk(Some(done), tag, counts)
    else
      var r := ConvertExpression(env, exprs[j], i, j, |exprs|, tag, counts);
      if r.0.None? then Walk(None, r.1, r.2)
      else ConvertList(env, rhs, i, j + 1, done + [r.0.value], r.1, r.2)
  }

  /** An expression that makes its conversion bail out: a reference that cannot be
      resolved yet, at any depth, or a kind that no branch converts. */
  predicate BlockedExpr(env: Env, e: Expr)
    decreases e
  {
    match e
    case Terminal(_) => false
    case Identifier(n) => env.Unresolvable(n)
    case Group(inner) => BlockedRhs(env, inner)
    case Suffixed(inner, _) => BlockedExpr(env, inner)
    case Hexadecimal(_) => true
    case Range(_) => true
    case NegatedRange(_) => true
    case Exclusion(left, right) =>
      if TrailingSuffix(right).Some? || Convertible(left) then BlockedExpr(env, left) else true
  }

  predicate BlockedRhs(env: Env, rhs: Rhs)
    decreases rhs
  {
    exists k, m :: 0 <= k < |rhs.lists| && 0 <= m < |rhs.lists[k].exprs| && BlockedExpr(env, rhs.lists[k].exprs[m])
  }

  /** A blocked expression fails to convert, whatever the mark and the counts. */
  lemma {:induction false} ExprBails(env: Env, e: Expr, i: nat, j: nat, n: nat, tag: Option<Tag>, counts: Tally)
    requires BlockedExpr(env, e)
    ensures ConvertExpression(env, e, i, j, n, tag, counts).0.None?
    decreases e
  {
    match e
    case Identifier(_) =>
    case Group(inner) => RhsBails(env, inner, counts);
    case Suffixed(inner, _) => ExprBails(env, inner, i, 0, 1, None, counts);
    case Hexadecimal(_) =>
    case Range(_) =>
    case NegatedRange(_) =>
    case Exclusion(left, right) =>
      if TrailingSuffix(right).Some? {
        ExprBails(env, left, i, 0, 1, None, counts);
      } else if Convertible(left) {
        ExprBails(env, left, i, j, n, tag, counts);
      }
  }

  /** A right-hand side with a blocked expression anywhere in it fails to convert. */
  lemma {:induction false} RhsBails(env: Env, rhs: Rhs, counts: Tally)
    requires BlockedRhs(env, rhs)
    ensures ConvertRhs(env, rhs, counts).0.None?
    decreases rhs, 2
  {
    ListsBail(env, rhs, 0, [], None, counts);
  }

  lemma {:induction false} ListsBail(env: Env, rhs: Rhs, i: nat, mapped: seq<Pattern>, tag: Option<Tag>, counts: Tally)
    requires i <= |rhs.lists| && |mapped| == i
    requires tag.Some? ==> tag.value.list < i
    requires exists k, m :: i <= k < |rhs.lists| && 0 <= m < |rhs.lists[k].exprs| && BlockedExpr(env, rhs.lists[k].exprs[m])
    ensures ConvertLists(env, rhs, i, mapped, tag, counts).items.None?
    decreases rhs, 1, |rhs.lists| - i
  {
    var l := ConvertList(env, rhs, i, 0, [], tag, counts);
    if exists m :: 0 <= m < |rhs.lists[i].exprs| && BlockedExpr(env, rhs.lists[i].exprs[m]) {
      ListBails(env, rhs, i, 0, [], tag, counts);
    } else if l.items.Some? {
      ListsBail(env, rhs, i + 1, mapped + [Join(l.items.value)], l.tag, l.counts);
    }
  }

  lemma {:induction false} ListBails(env: Env, rhs: Rhs, i: nat, j: nat, done: seq<Pattern>, tag: Option<Tag>, counts: Tally)
    requires i < |rhs.lists| && j <= |rhs.lists[i].exprs|
    requires tag.Some? ==> tag.value.list <= i
    requires exists m :: j <= m < |rhs.lists[i].exprs| && BlockedExpr(env, rhs.lists[i].exprs[m])
    ensures ConvertList(env, rhs, i, j, done, tag, counts).items.None?
    decreases rhs, 0, |rhs.lists[i].exprs| - j
  {
    var exprs := rhs.lists[i].exprs;
    var r := ConvertExpression(env, exprs[j], i, j, |exprs|, tag, counts);
    if BlockedExpr(env, exprs[j]) {
      ExprBails(env, exprs[j], i, j, |exprs|, tag, counts);
    } else if r.0.Some? {
      ListBails(env, rhs, i, j + 1, done + [r.0.value], r.1, r.2);
    }
  }

  /** How many times `x` is referenced in `e`, at any depth. */
  function UsesExpr(e: Expr, x: string): nat
    decreases e
  {
    match e
    case Identifier(n) => if n == x then 1 else 0
    case Group(inner) => UsesRhs(inner, x)
    case Suffixed(inner, _) => UsesExpr(inner, x)
    case Exclusion(left, _) => UsesExpr(left, x)
    case _ => 0
  }

  function UsesRhs(rhs: Rhs, x: string): nat
    decreases rhs, 2
  {
    UsesLists(rhs, 0, x)
  }

  function UsesLists(rhs: Rhs, i: nat, x: string): nat
    requires i <= |rhs.lists|
    decreases rhs, 1, |rhs.lists| - i
  {
    if i == |rhs.lists| then 0 else UsesList(rhs, i, 0, x) + UsesLists(rhs, i + 1, x)
  }

  function UsesList(rhs: Rhs, i: nat, j: nat, x: string): nat
    requires i < |rhs.lists| && j <= |rhs.lists[i].exprs|
    decreases rhs, 0, |rhs.lists[i].exprs| - j
  {
    if j == |rhs.lists[i].exprs| then 0 else UsesExpr(rhs.lists[i].exprs[j], x) + UsesList(rhs, i, j + 1, x)
  }

  /** Counts only grow, by at most one per reference, and stay well formed; the
      increments made before a bail-out are kept. */
  lemma {:induction false} ExprCounts(env: Env, e: Expr, i: nat, j: nat, n: nat, tag: Option<Tag>, counts: Tally)
    ensures var c := ConvertExpression(env, e, i, j, n, tag, counts).2;
            (counts.Valid() ==> c.Valid()) &&
            forall x :: counts.Get(x) <= c.Get(x) <= counts.Get(x) + UsesExpr(e, x)
    decreases e
  {
    match e
    case Terminal(_) =>
    case Identifier(_) =>
    case Group(inner) => RhsCounts(env, inner, counts);
    case Suffixed(inner, _) => ExprCounts(env, inner, i, 0, 1, None, counts);
    case Hexadecimal(_) =>
    case Range(_) =>
    case NegatedRange(_) =>
    case Exclusion(left, right) =>
      if TrailingSuffix(right).Some? {
        ExprCounts(env, left, i, 0, 1, None, counts);
      } else if Convertible(left) {
        ExprCounts(env, left, i, j, n, tag, counts);
      }
  }

  lemma {:induction false} RhsCounts(env: Env, rhs: Rhs, counts: Tally)
    ensures var c := ConvertRhs(env, rhs, counts).1;
            (counts.Valid() ==> c.Valid()) &&
            forall x :: counts.Get(x) <= c.Get(x) <= counts.Get(x) + UsesRhs(rhs, x)
    decreases rhs, 2
  {
    ListsCounts(env, rhs, 0, [], None, counts);
  }

  lemma {:induction false} ListsCounts(env: Env, rhs: Rhs, i: nat, mapped: seq<Pattern>, tag: Option<Tag>, counts: Tally)
    requires i <= |rhs.lists| && |mapped| == i
    requires tag.Some? ==> tag.value.list < i
    ensures var c := ConvertLists(env, rhs, i, mapped, tag, counts).counts;
            (counts.Valid() ==> c.Valid()) &&
            forall x :: counts.Get(x) <= c.Get(x) <= counts.Get(x) + UsesLists(rhs, i, x)
    decreases rhs, 1, |rhs.lists| - i
  {
    if i < |rhs.lists| {
      var l := ConvertList(env, rhs, i, 0, [], tag, counts);
      ListCounts(env, rhs, i, 0, [], tag, counts);
      if l.items.Some? {
        var w := ConvertLists(env, rhs, i + 1, mapped + [Join(l.items.value)], l.tag, l.counts);
        assert ConvertLists(env, rhs, i, mapped, tag, counts) == w;
        ListsCounts(env, rhs, i + 1, mapped + [Join(l.items.value)], l.tag, l.counts);
        forall x ensures counts.Get(x) <= w.counts.Get(x) <= counts.Get(x) + UsesLists(rhs, i, x) {
          assert UsesLists(rhs, i, x) == UsesList(rhs, i, 0, x) + UsesLists(rhs, i + 1, x);
        }
      }
    }
  }

  lemma {:induction false} ListCounts(env: Env, rhs: Rhs, i: nat, j: nat, done: seq<Pattern>, tag: Option<Tag>, counts: Tally)
    requires i < |rhs.lists| && j <= |rhs.lists[i].exprs|
    requires tag.Some? ==> tag.value.list <= i
    ensures var c := ConvertList(env, rhs, i, j, done, tag, counts).counts;
            (counts.Valid() ==> c.Valid()) &&
            forall x :: counts.Get(x) <= c.Get(x) <= counts.Get(x) + UsesList(rhs, i, j, x)
    decreases rhs, 0, |rhs.lists[i].exprs| - j
  {
    var exprs := rhs.lists[i].exprs;
    if j < |exprs| {
      var r := ConvertExpression(env, exprs[j], i, j, |exprs|, tag, counts);
      ExprCounts(env, exprs[j], i, j, |exprs|, tag, counts);
      if r.0.Some? {
        ListCounts(env, rhs, i, j + 1, done + [r.0.value], r.1, r.2);
      }
    }
  }

  /** The position of the last top-level reference to `owner` among the first `j`
      expressions. */
  function LastSelf(owner: string, exprs: seq<Expr>, j: nat): (r: Option<nat>)
    requires j <= |exprs|
    ensures r.Some? ==> r.value < j && SelfReference(owner, exprs[r.value]) &&
                        forall m :: r.value < m < j ==> !SelfReference(owner, exprs[m])
    ensures r.None? ==> forall m :: 0 <= m < j ==> !SelfReference(owner, exprs[m])
  {
    if j == 0 then None
    else if SelfReference(owner, exprs[j - 1]) then Some(j - 1)
    else LastSelf(owner, exprs, j - 1)
  }

  /** The kind an alternative's own self-references give it after its first `j`
      expressions: decided by the last one, which is `:both` only when it ends the
      alternative and the one before it opens the alternative. */
  function MarkAfter(owner: string, exprs: seq<Expr>, j: nat): Option<Kind>
    requires j <= |exprs|
  {
    var p := LastSelf(owner, exprs, j);
    if p.None? then None
    else if p.value == 0 then Some(Left)
    else if p.value == |exprs| - 1 then Some(if LastSelf(owner, exprs, p.value) == Some(0) then Both else Right)
    else Some(Center)
  }

  /** The mark of the last alternative before `i` with a top-level self-reference. */
  function LastTag(owner: string, rhs: Rhs, i: nat): (r: Option<Tag>)
    requires i <= |rhs.lists|
    ensures r.Some? ==> r.value.list < i
  {
    if i == 0 then None
    else
      var exprs := rhs.lists[i - 1].exprs;
      var m := MarkAfter(owner, exprs, |exprs|);
      if m.Some? then Some(Tag(i - 1, m.value)) else LastTag(owner, rhs, i - 1)
  }

  /** The mark in force after expression `j` of alternative `i`. */
  function TagAfter(owner: string, rhs: Rhs, i: nat, j: nat): Option<Tag>
    requires i < |rhs.lists| && j <= |rhs.lists[i].exprs|
  {
    var m := MarkAfter(owner, rhs.lists[i].exprs, j);
    if m.Some? then Some(Tag(i, m.value)) else LastTag(owner, rhs, i)
  }

  /** A self-reference at `j` moves the mark exactly as `Classify` says. */
  lemma TagStep(owner: string, rhs: Rhs, i: nat, j: nat)
    requires i < |rhs.lists| && j < |rhs.lists[i].exprs|
    requires SelfReference(owner, rhs.lists[i].exprs[j])
    ensures TagAfter(owner, rhs, i, j + 1) == Some(Classify(TagAfter(owner, rhs, i, j), i, j, |rhs.lists[i].exprs|))
  {
    var exprs := rhs.lists[i].exprs;
    assert LastSelf(owner, exprs, j + 1) == Some(j);
    var before := LastSelf(owner, exprs, j);
    if before.Some? {
      assert MarkAfter(owner, exprs, j) == Some(Left) <==> before.value == 0;
    }
  }

  /** Any other expression leaves the mark alone. */
  lemma TagKept(owner: string, rhs: Rhs, i: nat, j: nat)
    requires i < |rhs.lists| && j < |rhs.lists[i].exprs|
    requires !SelfReference(owner, rhs.lists[i].exprs[j])
    ensures TagAfter(owner, rhs, i, j + 1) == TagAfter(owner, rhs, i, j)
  {
    assert LastSelf(owner, rhs.lists[i].exprs, j + 1) == LastSelf(owner, rhs.lists[i].exprs, j);
  }

  lemma {:induction false} ListTag(env: Env, rhs: Rhs, i: nat, j: nat, done: seq<Pattern>, counts: Tally)
    requires env.SeesItself()
    requires i < |rhs.lists| && j <= |rhs.lists[i].exprs|
    requires var t := TagAfter(env.owner, rhs, i, j); t.Some? ==> t.value.list <= i
    ensures var w := ConvertList(env, rhs, i, j, done, TagAfter(env.owner, rhs, i, j), counts);
            w.items.Some? ==> w.tag == TagAfter(env.owner, rhs, i, |rhs.lists[i].exprs|)
    decreases |rhs.lists[i].exprs| - j
  {
    var exprs := rhs.lists[i].exprs;
    if j < |exprs| {
      var tag := TagAfter(env.owner, rhs, i, j);
      var r := ConvertExpression(env, exprs[j], i, j, |exprs|, tag, counts);
      if SelfReference(env.owner, exprs[j]) {
        TagStep(env.owner, rhs, i, j);
      } else {
        TagKept(env.owner, rhs, i, j);
      }
      if r.0.Some? {
        ListTag(env, rhs, i, j + 1, done + [r.0.value], r.2);
      }
    }
  }

  lemma {:induction false} ListsTag(env: Env, rhs: Rhs, i: nat, mapped: seq<Pattern>, counts: Tally)
    requires env.SeesItself()
    requires i <= |rhs.lists| && |mapped| == i
    ensures var w := ConvertLists(env, rhs, i, mapped, LastTag(env.owner, rhs, i), counts);
            w.items.Some? ==> w.tag == LastTag(env.owner, rhs, |rhs.lists|)
    decreases |rhs.lists| - i
  {
    if i < |rhs.lists| {
      var tag := LastTag(env.owner, rhs, i);
      assert TagAfter(env.owner, rhs, i, 0) == tag;
      ListTag(env, rhs, i, 0, [], counts);
      var l := ConvertList(env, rhs, i, 0, [], tag, counts);
      if l.items.Some? {
        ListsTag(env, rhs, i + 1, mapped + [Join(l.items.value)], l.counts);
      }
    }
  }

  /** Only the last top-level self-reference of a rule decides how its recursion is
      eliminated: the recorded mark names the last alternative that refers to the
      rule itself at its top level, with the kind that alternative's own
      self-references give it. A self-reference under a suffix or inside a group
      never marks the rule. */
  lemma TagIsLastSelfReference(env: Env, rhs: Rhs, counts: Tally)
    requires env.SeesItself()
    ensures var w := ConvertLists(env, rhs, 0, [], None, counts);
            w.items.Some? ==> w.tag == LastTag(env.owner, rhs, |rhs.lists|)
  {
    ListsTag(env, rhs, 0, [], counts);
  }

  /** The name an expression refers to at its top level, as `expression.to_a.first`
      sees it: a reference, or the first operand of a suffix or an exclusion when
      that is a reference. */
  function TopName(e: Expr): Option<string>
  {
    match e
    case Identifier(n) => Some(n)
    case Suffixed(Identifier(n), _) => Some(n)
    case Exclusion(Identifier(n), _) => Some(n)
    case _ => None
  }

  /** The top-level names in `exprs` other than `owner`, in order. */
  function ListNames(owner: string, exprs: seq<Expr>): seq<string>
  {
    if exprs == [] then []
    else
      var t := TopName(exprs[0]);
      (if t.Some? && t.value != owner then [t.value] else []) + ListNames(owner, exprs[1..])
  }

  function RhsNames(owner: string, lists: seq<List>): seq<string>
  {
    if lists == [] then [] else ListNames(owner, lists[0].exprs) + RhsNames(owner, lists[1..])
  }

  /** The references that path expansion follows from a rule: the top-level names
      other than the rule itself, once each. */
  function References(owner: string, rhs: Rhs): (r: seq<string>)
    ensures Distinct(r)
  {
    Dedup(RhsNames(owner, rhs.lists))
  }

  lemma {:induction false} ListNamesAreTopNames(owner: string, exprs: seq<Expr>, x: string)
    ensures x in ListNames(owner, exprs) <==> x != owner && exists m :: 0 <= m < |exprs| && TopName(exprs[m]) == Some(x)
  {
    if exprs != [] {
      ListNamesAreTopNames(owner, exprs[1..], x);
      if exists m :: 0 <= m < |exprs| && TopName(exprs[m]) == Some(x) {
        var m :| 0 <= m < |exprs| && TopName(exprs[m]) == Some(x);
        if m > 0 {
          assert TopName(exprs[1..][m - 1]) == Some(x);
        }
      }
      if exists m :: 0 <= m < |exprs[1..]| && TopName(exprs[1..][m]) == Some(x) {
        var m :| 0 <= m < |exprs[1..]| && TopName(exprs[1..][m]) == Some(x);
        assert TopName(exprs[m + 1]) == Some(x);
      }
    }
  }

  lemma {:induction false} RhsNamesAreTopNames(owner: string, lists: seq<List>, x: string)
    ensures x in RhsNames(owner, lists) <==>
              x != owner && exists k, m :: 0 <= k < |lists| && 0 <= m < |lists[k].exprs| && TopName(lists[k].exprs[m]) == Some(x)
  {
    if lists != [] {
      ListNamesAreTopNames(owner, lists[0].exprs, x);
      RhsNamesAreTopNames(owner, lists[1..], x);
      if exists k, m :: 0 <= k < |lists| && 0 <= m < |lists[k].exprs| && TopName(lists[k].exprs[m]) == Some(x) {
        var k, m :| 0 <= k < |lists| && 0 <= m < |lists[k].exprs| && TopName(lists[k].exprs[m]) == Some(x);
        if k > 0 {
          assert TopName(lists[1..][k - 1].exprs[m]) == Some(x);
        }
      }
      if exists k, m :: 0 <= k < |lists[1..]| && 0 <= m < |lists[1..][k].exprs| && TopName(lists[1..][k].exprs[m]) == Some(x) {
        var k, m :| 0 <= k < |lists[1..]| && 0 <= m < |lists[1..][k].exprs| && TopName(lists[1..][k].exprs[m]) == Some(x);
        assert TopName(lists[k + 1].exprs[m]) == Some(x);
      }
    }
  }

  /** A name is among the references exactly when some expression of the rule names
      it at its top level and it is not the rule itself. */
  lemma ReferencesAreTopLevelNames(owner: string, rhs: Rhs, x: string)
    ensures x in References(owner, rhs) <==>
              x != owner && exists k, m :: 0 <= k < |rhs.lists| && 0 <= m < |rhs.lists[k].exprs| && TopName(rhs.lists[k].exprs[m]) == Some(x)
  {
    RhsNamesAreTopNames(owner, rhs.lists, x);
  }

  /** An alternative of one expression converts to that expression's pattern. */
  lemma OneExpression(env: Env, rhs: Rhs, i: nat, tag: Option<Tag>, counts: Tally)
    requires i < |rhs.lists| && |rhs.lists[i].exprs| == 1
    requires tag.Some? ==> tag.value.list <= i
    ensures var a := ConvertExpression(env, rhs.lists[i].exprs[0], i, 0, 1, tag, counts);
            a.0.Some? ==> ConvertList(env, rhs, i, 0, [], tag, counts) == Walk(Some([a.0.value]), a.1, a.2)
  {
    var a := ConvertExpression(env, rhs.lists[i].exprs[0], i, 0, 1, tag, counts);
    if a.0.Some? {
      assert [] + [a.0.value] == [a.0.value];
    }
  }

  /** An alternative of two expressions converts them in turn, the second seeing the
      mark and the counts the first left. */
  lemma TwoExpressions(env: Env, rhs: Rhs, i: nat, tag: Option<Tag>, counts: Tally)
    requires i < |rhs.lists| && |rhs.lists[i].exprs| == 2
    requires tag.Some? ==> tag.value.list <= i
    ensures var a := ConvertExpression(env, rhs.lists[i].exprs[0], i, 0, 2, tag, counts);
            var b := ConvertExpression(env, rhs.lists[i].exprs[1], i, 1, 2, a.1, a.2);
            a.0.Some? && b.0.Some? ==>
              ConvertList(env, rhs, i, 0, [], tag, counts) == Walk(Some([a.0.value, b.0.value]), b.1, b.2)
  {
    var a := ConvertExpression(env, rhs.lists[i].exprs[0], i, 0, 2, tag, counts);
    if a.0.Some? {
      var b := ConvertExpression(env, rhs.lists[i].exprs[1], i, 1, 2, a.1, a.2);
      assert [] + [a.0.value] == [a.0.value];
      assert ConvertList(env, rhs, i, 0, [], tag, counts) == ConvertList(env, rhs, i, 1, [a.0.value], a.1, a.2);
      if b.0.Some? {
        assert [a.0.value] + [b.0.value] == [a.0.value, b.0.value];
        assert ConvertList(env, rhs, i, 1, [a.0.value], a.1, a.2) ==
               ConvertList(env, rhs, i, 2, [a.0.value, b.0.value], b.1, b.2);
      }
    }
  }

  /** A right-hand side of one alternative. */
  lemma OneAlternative(env: Env, rhs: Rhs, counts: Tally)
    requires |rhs.lists| == 1
    ensures var l := ConvertList(env, rhs, 0, 0, [], None, counts);
            l.items.Some? ==> ConvertLists(env, rhs, 0, [], None, counts) == Walk(Some([Join(l.items.value)]), l.tag, l.counts)
  {
    var l := ConvertList(env, rhs, 0, 0, [], None, counts);
    if l.items.Some? {
      assert [] + [Join(l.items.value)] == [Join(l.items.value)];
    }
  }

  /** A right-hand side of two alternatives, the second seeing the mark and the
      counts the first left. */
  lemma TwoAlternatives(env: Env, rhs: Rhs, counts: Tally)
    requires |rhs.lists| == 2
    ensures var l := ConvertList(env, rhs, 0, 0, [], None, counts);
            var m := ConvertList(env, rhs, 1, 0, [], l.tag, l.counts);
            l.items.Some? && m.items.Some? ==>
              ConvertLists(env, rhs, 0, [], None, counts) ==
                Walk(Some([Join(l.items.value), Join(m.items.value)]), m.tag, m.counts)
  {
    var l := ConvertList(env, rhs, 0, 0, [], None, counts);
    if l.items.Some? {
      var m := ConvertList(env, rhs, 1, 0, [], l.tag, l.counts);
      assert [] + [Join(l.items.value)] == [Join(l.items.value)];
      assert ConvertLists(env, rhs, 0, [], None, counts) == ConvertLists(env, rhs, 1, [Join(l.items.value)], l.tag, l.counts);
      if m.items.Some? {
        assert [Join(l.items.value)] + [Join(m.items.value)] == [Join(l.items.value), Join(m.items.value)];
        assert ConvertLists(env, rhs, 1, [Join(l.items.value)], l.tag, l.counts) ==
               ConvertLists(env, rhs, 2, [Join(l.items.value), Join(m.items.value)], m.tag, m.counts);
      }
    }
  }

  /** `rule ::= "abc"?` */
  lemma SuffixedTerminalIsOptional()
    ensures ConvertRhs(Alone("rule"), Rhs([List.List([Suffixed(Terminal("abc"), Question)])]), NoCounts).0
            == Some(Optional(Lit("abc")))
  {
    var env, rhs := Alone("rule"), Rhs([List.List([Suffixed(Terminal("abc"), Question)])]);
    OneExpression(env, rhs, 0, None, NoCounts);
    OneAlternative(env, rhs, NoCounts);
  }

  /** `"abc" | "def"` converts to the alternation of the two literals. */
  lemma TwoTerminalsAlternate(env: Env, inner: Rhs)
    requires inner == Rhs([List.List([Terminal("abc")]), List.List([Terminal("def")])])
    ensures ConvertRhs(env, inner, NoCounts) == (Some(Alt([Lit("abc"), Lit("def")])), NoCounts)
  {
    OneExpression(env, inner, 0, None, NoCounts);
    OneExpression(env, inner, 1, None, NoCounts);
    TwoAlternatives(env, inner, NoCounts);
  }

  /** `rule ::= ("abc" | "def")*`: a suffixed group repeats the group's alternation. */
  lemma SuffixedGroupRepeatsTheAlternation()
    ensures ConvertRhs(Alone("rule"), Rhs([List.List([Suffixed(Group(Rhs([List.List([Terminal("abc")]), List.List([Terminal("def")])])), Star)])]), NoCounts).0
            == Some(Any(Alt([Lit("abc"), Lit("def")])))
  {
    var env := Alone("rule");
    var inner := Rhs([List.List([Terminal("abc")]), List.List([Terminal("def")])]);
    var rhs := Rhs([List.List([Suffixed(Group(inner), Star)])]);
    TwoTerminalsAlternate(env, inner);
    OneExpression(env, rhs, 0, None, NoCounts);
    OneAlternative(env, rhs, NoCounts);
  }

  /** `rule ::= Char - '-'`, with `Char` already converted: the exclusion stands for
      its left operand, which is used as it is and counted. */
  lemma ExclusionConvertsItsLeftOperand()
    ensures var env := Env("rule", map["rule" := None, "Char" := Some(Lit("c"))], {});
            ConvertRhs(env, Rhs([List.List([Exclusion(Identifier("Char"), Terminal("-"))])]), NoCounts)
            == (Some(Lit("c")), NoCounts.Bump("Char"))
  {
    var env := Env("rule", map["rule" := None, "Char" := Some(Lit("c"))], {});
    var rhs := Rhs([List.List([Exclusion(Identifier("Char"), Terminal("-"))])]);
    assert env.Converted("Char");
    OneExpression(env, rhs, 0, None, NoCounts);
    OneAlternative(env, rhs, NoCounts);
  }

  /** `rule ::= "abc" - "def"*`: when the right operand ends in a suffix, the left
      operand is repeated by it. */
  lemma ExclusionEndingInASuffixRepeats()
    ensures ConvertRhs(Alone("rule"), Rhs([List.List([Exclusion(Terminal("abc"), Suffixed(Terminal("def"), Star))])]), NoCounts).0
            == Some(Any(Lit("abc")))
  {
    var env, rhs := Alone("rule"), Rhs([List.List([Exclusion(Terminal("abc"), Suffixed(Terminal("def"), Star))])]);
    OneExpression(env, rhs, 0, None, NoCounts);
    OneAlternative(env, rhs, NoCounts);
  }

  /** `rule ::= "abc" | rule - "def"`: a self-reference on the left of an exclusion
      marks the rule left-recursive, as a bare one does. */
  lemma ExclusionOfItselfMarksTheRule()
    ensures ConvertLists(Alone("rule"), Rhs([List.List([Terminal("abc")]),
                                             List.List([Exclusion(Identifier("rule"), Terminal("def"))])]), 0, [], None, NoCounts)
            == Walk(Some([Lit("abc"), SelfRef("rule")]), Some(Tag(1, Left)), NoCounts)
  {
    var env := Alone("rule");
    var rhs := Rhs([List.List([Terminal("abc")]), List.List([Exclusion(Identifier("rule"), Terminal("def"))])]);
    OneExpression(env, rhs, 0, None, NoCounts);
    OneExpression(env, rhs, 1, None, NoCounts);
    TwoAlternatives(env, rhs, NoCounts);
  }

  /** `rule ::= #x20 - "abc"`: a left operand with no branch of its own bails out. */
  lemma ExclusionOfACharacterBails()
    ensures ConvertRhs(Alone("rule"), Rhs([List.List([Exclusion(Hexadecimal("20"), Terminal("abc"))])]), NoCounts).0.None?
  {
    var env, rhs := Alone("rule"), Rhs([List.List([Exclusion(Hexadecimal("20"), Terminal("abc"))])]);
    assert BlockedExpr(env, rhs.lists[0].exprs[0]);
    RhsBails(env, rhs, NoCounts);
  }


  /** `rule ::= "abc" "def" | rule "xyz"`: the left-recursive remainder is appended to
      the base concatenation as a repetition. */
  lemma LeftRecursionAppendsTheRemainder()
    ensures ConvertRhs(Alone("rule"), Rhs([List.List([Terminal("abc"), Terminal("def")]),
                                          List.List([Identifier("rule"), Terminal("xyz")])]), NoCounts).0
            == Some(Cat([Lit("abc"), Lit("def"), Any(Lit("xyz"))]))
  {
    var env := Alone("rule");
    var rhs := Rhs([List.List([Terminal("abc"), Terminal("def")]), List.List([Identifier("rule"), Terminal("xyz")])]);
    TwoExpressions(env, rhs, 0, None, NoCounts);
    TwoExpressions(env, rhs, 1, None, NoCounts);
    TwoAlternatives(env, rhs, NoCounts);
    var base, recursive := Cat([Lit("abc"), Lit("def")]), Cat([SelfRef("rule"), Lit("xyz")]);
    assert ConvertLists(env, rhs, 0, [], None, NoCounts) == Walk(Some([base, recursive]), Some(Tag(1, Left)), NoCounts);
    assert LeftRemainder(recursive) == Lit("xyz");
    assert Others([base, recursive], 1) == [base];
    assert base.elems + [Any(Lit("xyz"))] == [Lit("abc"), Lit("def"), Any(Lit("xyz"))];
  }

  /** `rule ::= "abc" | rule "abc"`: a base equal to the remainder becomes one-or-more. */
  lemma LeftRecursionOnItsBaseRepeatsIt()
    ensures ConvertRhs(Alone("rule"), Rhs([List.List([Terminal("abc")]),
                                          List.List([Identifier("rule"), Terminal("abc")])]), NoCounts).0
            == Some(AtLeast(1, Lit("abc")))
  {
    var env := Alone("rule");
    var rhs := Rhs([List.List([Terminal("abc")]), List.List([Identifier("rule"), Terminal("abc")])]);
    OneExpression(env, rhs, 0, None, NoCounts);
    TwoExpressions(env, rhs, 1, None, NoCounts);
    TwoAlternatives(env, rhs, NoCounts);
    var recursive := Cat([SelfRef("rule"), Lit("abc")]);
    assert ConvertLists(env, rhs, 0, [], None, NoCounts) == Walk(Some([Lit("abc"), recursive]), Some(Tag(1, Left)), NoCounts);
    assert LeftRemainder(recursive) == Lit("abc");
    assert Others([Lit("abc"), recursive], 1) == [Lit("abc")];
  }

  /** `rule ::= "abc" "def" | "xyz" rule`: the right-recursive remainder is prepended. */
  lemma RightRecursionPrependsTheRemainder()
    ensures ConvertRhs(Alone("rule"), Rhs([List.List([Terminal("abc"), Terminal("def")]),
                                          List.List([Terminal("xyz"), Identifier("rule")])]), NoCounts).0
            == Some(Cat([Any(Lit("xyz")), Lit("abc"), Lit("def")]))
  {
    var env := Alone("rule");
    var rhs := Rhs([List.List([Terminal("abc"), Terminal("def")]), List.List([Terminal("xyz"), Identifier("rule")])]);
    TwoExpressions(env, rhs, 0, None, NoCounts);
    TwoExpressions(env, rhs, 1, None, NoCounts);
    TwoAlternatives(env, rhs, NoCounts);
    var base, recursive := Cat([Lit("abc"), Lit("def")]), Cat([Lit("xyz"), SelfRef("rule")]);
    assert ConvertLists(env, rhs, 0, [], None, NoCounts) == Walk(Some([base, recursive]), Some(Tag(1, Right)), NoCounts);
    assert RightRemainder(recursive) == Lit("xyz");
    assert Others([base, recursive], 1) == [base];
    assert [Any(Lit("xyz"))] + ToA(base) == [Any(Lit("xyz")), Lit("abc"), Lit("def")];
  }

  /** `rule ::= "abc" "def" | rule rule`: the `:both` alternative is dropped and the
      other becomes one-or-more. */
  lemma BothRecursionRepeatsTheBase()
    ensures ConvertRhs(Alone("rule"), Rhs([List.List([Terminal("abc"), Terminal("def")]),
                                          List.List([Identifier("rule"), Identifier("rule")])]), NoCounts).0
            == Some(AtLeast(1, Cat([Lit("abc"), Lit("def")])))
  {
    var env := Alone("rule");
    var rhs := Rhs([List.List([Terminal("abc"), Terminal("def")]), List.List([Identifier("rule"), Identifier("rule")])]);
    TwoExpressions(env, rhs, 0, None, NoCounts);
    TwoExpressions(env, rhs, 1, None, NoCounts);
    TwoAlternatives(env, rhs, NoCounts);
    var base, recursive := Cat([Lit("abc"), Lit("def")]), Cat([SelfRef("rule"), SelfRef("rule")]);
    assert ConvertLists(env, rhs, 0, [], None, NoCounts) == Walk(Some([base, recursive]), Some(Tag(1, Both)), NoCounts);
    assert Others([base, recursive], 1) == [base];
  }

  /** `rule ::= "abc" | rule?`: a self-reference under a suffix does not mark the
      rule recursive; it stays in the repetition, paired with the `:left` mark it
      would have had as the first expression. */
  lemma SuffixedSelfReferenceStaysTagged()
    ensures ConvertRhs(Alone("rule"), Rhs([List.List([Terminal("abc")]),
                                          List.List([Suffixed(Identifier("rule"), Question)])]), NoCounts).0
            == Some(Alt([Lit("abc"), Optional(Tagged(SelfRef("rule"), 1, Left))]))
  {
    var env := Alone("rule");
    var rhs := Rhs([List.List([Terminal("abc")]), List.List([Suffixed(Identifier("rule"), Question)])]);
    OneExpression(env, rhs, 0, None, NoCounts);
    OneExpression(env, rhs, 1, None, NoCounts);
    TwoAlternatives(env, rhs, NoCounts);
    assert ConvertLists(env, rhs, 0, [], None, NoCounts) ==
           Walk(Some([Lit("abc"), Optional(Tagged(SelfRef("rule"), 1, Left))]), None, NoCounts);
  }

  /** A right-hand side of three alternatives. */
  lemma ThreeAlternatives(env: Env, rhs: Rhs, counts: Tally)
    requires |rhs.lists| == 3
    ensures var l := ConvertList(env, rhs, 0, 0, [], None, counts);
            var m := ConvertList(env, rhs, 1, 0, [], l.tag, l.counts);
            var o := ConvertList(env, rhs, 2, 0, [], m.tag, m.counts);
            l.items.Some? && m.items.Some? && o.items.Some? ==>
              ConvertLists(env, rhs, 0, [], None, counts) ==
                Walk(Some([Join(l.items.value), Join(m.items.value), Join(o.items.value)]), o.tag, o.counts)
  {
    var l := ConvertList(env, rhs, 0, 0, [], None, counts);
    if l.items.Some? {
      var m := ConvertList(env, rhs, 1, 0, [], l.tag, l.counts);
      assert [] + [Join(l.items.value)] == [Join(l.items.value)];
      assert ConvertLists(env, rhs, 0, [], None, counts) == ConvertLists(env, rhs, 1, [Join(l.items.value)], l.tag, l.counts);
      if m.items.Some? {
        var o := ConvertList(env, rhs, 2, 0, [], m.tag, m.counts);
        var two := [Join(l.items.value), Join(m.items.value)];
        assert [Join(l.items.value)] + [Join(m.items.value)] == two;
        assert ConvertLists(env, rhs, 1, [Join(l.items.value)], l.tag, l.counts) == ConvertLists(env, rhs, 2, two, m.tag, m.counts);
        if o.items.Some? {
          var three := [Join(l.items.value), Join(m.items.value), Join(o.items.value)];
          assert two + [Join(o.items.value)] == three;
          assert ConvertLists(env, rhs, 2, two, m.tag, m.counts) == ConvertLists(env, rhs, 3, three, o.tag, o.counts);
        }
      }
    }
  }

  /** The walk over `rule ::= "abc" | rule "def" | rule "xyz"`: the mark is left on
      the last alternative. */
  lemma SeveralLeftRecursionsWalk(env: Env, rhs: Rhs)
    requires env == Alone("rule")
    requires rhs == Rhs([List.List([Terminal("abc")]), List.List([Identifier("rule"), Terminal("def")]),
                         List.List([Identifier("rule"), Terminal("xyz")])])
    ensures ConvertLists(env, rhs, 0, [], None, NoCounts) ==
            Walk(Some([Lit("abc"), Cat([SelfRef("rule"), Lit("def")]), Cat([SelfRef("rule"), Lit("xyz")])]), Some(Tag(2, Left)), NoCounts)
  {
    OneExpression(env, rhs, 0, None, NoCounts);
    TwoExpressions(env, rhs, 1, None, NoCounts);
    TwoExpressions(env, rhs, 2, Some(Tag(1, Left)), NoCounts);
    ThreeAlternatives(env, rhs, NoCounts);
  }

  /** `rule ::= "abc" | rule "def" | rule "xyz"`: with several left-recursive
      alternatives only the last one is eliminated; its remainder is appended to
      the others, the earlier recursive alternative included, and put in front of
      the lone base element. */
  lemma SeveralLeftRecursionsKeepTheLast()
    ensures ConvertRhs(Alone("rule"), Rhs([List.List([Terminal("abc")]),
                                          List.List([Identifier("rule"), Terminal("def")]),
                                          List.List([Identifier("rule"), Terminal("xyz")])]), NoCounts).0
            == Some(Alt([Cat([Any(Lit("xyz")), Lit("abc")]), Cat([SelfRef("rule"), Lit("def"), Any(Lit("xyz"))])]))
  {
    var env := Alone("rule");
    var rhs := Rhs([List.List([Terminal("abc")]), List.List([Identifier("rule"), Terminal("def")]),
                    List.List([Identifier("rule"), Terminal("xyz")])]);
    SeveralLeftRecursionsWalk(env, rhs);
    SeveralLeftRecursionsFinish(env, rhs);
  }

  /** What `SeveralLeftRecursionsKeepTheLast` makes of its walk. */
  lemma SeveralLeftRecursionsFinish(env: Env, rhs: Rhs)
    requires ConvertLists(env, rhs, 0, [], None, NoCounts) ==
             Walk(Some([Lit("abc"), Cat([SelfRef("rule"), Lit("def")]), Cat([SelfRef("rule"), Lit("xyz")])]), Some(Tag(2, Left)), NoCounts)
    ensures ConvertRhs(env, rhs, NoCounts).0
            == Some(Alt([Cat([Any(Lit("xyz")), Lit("abc")]), Cat([SelfRef("rule"), Lit("def"), Any(Lit("xyz"))])]))
  {
    var first, last := Cat([SelfRef("rule"), Lit("def")]), Cat([SelfRef("rule"), Lit("xyz")]);
    assert LeftRemainder(last) == Lit("xyz");
    assert Others([Lit("abc"), first, last], 2) == [Lit("abc"), first];
    assert first.elems + [Any(Lit("xyz"))] == [SelfRef("rule"), Lit("def"), Any(Lit("xyz"))];
    var eliminated := Eliminate([Lit("abc"), first, last], Some(Tag(2, Left)));
    var expected := [Cat([Any(Lit("xyz")), Lit("abc")]), Cat([SelfRef("rule"), Lit("def"), Any(Lit("xyz"))])];
    assert eliminated[0] == expected[0] && eliminated[1] == expected[1];
    assert eliminated == expected;
  }


  /** Every rule of `worklist` has an entry in `rules`. */
  predicate Declares(worklist: seq<Rule>, rules: map<string, Option<Pattern>>)
  {
    forall k :: 0 <= k < |worklist| ==> worklist[k].name in rules
  }

  /** One `reject` pass of `convert_rules` from rule `i` on. `rules[name] ||= ...`
      leaves an already converted rule alone and drops it; any other rule is converted
      and its result, nil included, stored; a rule whose result is nil is kept. */
  function Pass(worklist: seq<Rule>, i: nat, st: EState, proxies: set<string>, kept: seq<Rule>): (r: (EState, seq<Rule>))
    requires i <= |worklist|
    ensures st.counts.Valid() ==> r.0.counts.Valid()
    ensures forall x :: st.counts.Get(x) <= r.0.counts.Get(x)
    ensures forall n :: n in st.rules && st.rules[n].Some? ==> n in r.0.rules && r.0.rules[n] == st.rules[n]
    ensures Declares(worklist, st.rules) ==> r.0.rules.Keys == st.rules.Keys
    ensures |r.1| <= |kept| + |worklist| - i
    decreases |worklist| - i
  {
    if i == |worklist| then (st, kept)
    else
      var rule := worklist[i];
      if rule.name in st.rules && st.rules[rule.name].Some? then
        Pass(worklist, i + 1, st, proxies, kept)
      else
        var env := Env(rule.name, st.rules, proxies);
        var c := ConvertRhs(env, rule.rhs, st.counts);
        RhsCounts(env, rule.rhs, st.counts);
        var st' := EState(st.rules[rule.name := c.0], c.1);
        assert Declares(worklist, st.rules) ==> st'.rules.Keys == st.rules.Keys;
        if c.0.Some? then Pass(worklist, i + 1, st', proxies, kept)
        else Pass(worklist, i + 1, st', proxies, kept + [rule])
  }

  /** In a pass that keeps every rule, the first rule was not converted yet, its
      conversion failed, and it was kept. */
  lemma KeptFirst(worklist: seq<Rule>, i: nat, st: EState, proxies: set<string>, kept: seq<Rule>)
    requires i < |worklist|
    requires |Pass(worklist, i, st, proxies, kept).1| == |kept| + |worklist| - i
    ensures var rule := worklist[i];
            var c := ConvertRhs(Env(rule.name, st.rules, proxies), rule.rhs, st.counts);
            !(rule.name in st.rules && st.rules[rule.name].Some?) && c.0.None? &&
            Pass(worklist, i, st, proxies, kept) ==
              Pass(worklist, i + 1, EState(st.rules[rule.name := None], c.1), proxies, kept + [rule])
  {
    var rule := worklist[i];
    if rule.name in st.rules && st.rules[rule.name].Some? {
      assert false;
    }
    var c := ConvertRhs(Env(rule.name, st.rules, proxies), rule.rhs, st.counts);
    if c.0.Some? {
      assert false;
    }
  }

  /** A pass that keeps every rule changes no entry of the table, and each of its
      rules is still unconverted. */
  lemma {:induction false} UnproductivePass(worklist: seq<Rule>, i: nat, st: EState, proxies: set<string>, kept: seq<Rule>)
    requires i <= |worklist| && Declares(worklist, st.rules)
    requires |Pass(worklist, i, st, proxies, kept).1| == |kept| + |worklist| - i
    ensures Pass(worklist, i, st, proxies, kept).0.rules == st.rules
    ensures forall k :: i <= k < |worklist| ==> st.rules[worklist[k].name].None?
    decreases |worklist| - i
  {
    if i < |worklist| {
      var rule := worklist[i];
      KeptFirst(worklist, i, st, proxies, kept);
      var c := ConvertRhs(Env(rule.name, st.rules, proxies), rule.rhs, st.counts);
      assert st.rules[rule.name := None] == st.rules;
      UnproductivePass(worklist, i + 1, EState(st.rules, c.1), proxies, kept + [rule]);
    }
  }

  lemma {:induction false} PassKeepsSubsequence(worklist: seq<Rule>, i: nat, st: EState, proxies: set<string>, kept: seq<Rule>)
    requires i <= |worklist|
    ensures forall rule :: rule in Pass(worklist, i, st, proxies, kept).1 ==> rule in kept || rule in worklist[i..]
    decreases |worklist| - i
  {
    if i < |worklist| {
      var rule := worklist[i];
      if rule.name in st.rules && st.rules[rule.name].Some? {
        PassKeepsSubsequence(worklist, i + 1, st, proxies, kept);
      } else {
        var c := ConvertRhs(Env(rule.name, st.rules, proxies), rule.rhs, st.counts);
        var st' := EState(st.rules[rule.name := c.0], c.1);
        if c.0.Some? {
          PassKeepsSubsequence(worklist, i + 1, st', proxies, kept);
        } else {
          PassKeepsSubsequence(worklist, i + 1, st', proxies, kept + [rule]);
        }
      }
    }
  }

  /** The `while` of `convert_rules`: passes until one makes no progress. */
  function Fixpoint(worklist: seq<Rule>, st: EState, proxies: set<string>): (r: (EState, seq<Rule>))
    ensures st.counts.Valid() ==> r.0.counts.Valid()
    ensures forall x :: st.counts.Get(x) <= r.0.counts.Get(x)
    ensures forall n :: n in st.rules && st.rules[n].Some? ==> n in r.0.rules && r.0.rules[n] == st.rules[n]
    ensures |r.1| <= |worklist|
    decreases |worklist|
  {
    var p := Pass(worklist, 0, st, proxies, []);
    if |p.1| == |worklist| then p else Fixpoint(p.1, p.0, proxies)
  }

  /** When every rule has an entry, the loop adds no entry, gives back only rules it
      was given, and every rule it gives back is still unconverted. */
  lemma {:induction false} FixpointLeftovers(worklist: seq<Rule>, st: EState, proxies: set<string>)
    requires Declares(worklist, st.rules)
    ensures var r := Fixpoint(worklist, st, proxies);
            r.0.rules.Keys == st.rules.Keys &&
            (forall rule :: rule in r.1 ==> rule in worklist) &&
            forall rule :: rule in r.1 ==> r.0.rules[rule.name].None?
    decreases |worklist|
  {
    var p := Pass(worklist, 0, st, proxies, []);
    PassKeepsSubsequence(worklist, 0, st, proxies, []);
    assert forall rule :: rule in p.1 ==> rule in worklist by {
      assert worklist[0..] == worklist;
    }
    if |p.1| == |worklist| {
      assert Fixpoint(worklist, st, proxies) == p;
      UnproductivePass(worklist, 0, st, proxies, []);
      forall rule | rule in p.1 ensures p.0.rules[rule.name].None? {
        var k :| 0 <= k < |worklist| && worklist[k] == rule;
      }
    } else {
      assert Fixpoint(worklist, st, proxies) == Fixpoint(p.1, p.0, proxies);
      assert Declares(p.1, p.0.rules) by {
        forall k | 0 <= k < |p.1| ensures p.1[k].name in p.0.rules {
          assert p.1[k] in worklist;
        }
      }
      FixpointLeftovers(p.1, p.0, proxies);
    }
  }

  /** The name of each rule, in grammar order. */
  function Names(grammar: seq<Rule>): (r: seq<string>)
    ensures |r| == |grammar| && forall k :: 0 <= k < |grammar| ==> r[k] == grammar[k].name
  {
    if grammar == [] then [] else [grammar[0].name] + Names(grammar[1..])
  }

  /** `bnf_rules.each {|rule| rules[rule.rule_name] = nil}`: every declared name, each
      still unconverted. */
  function Seeded(grammar: seq<Rule>): (r: map<string, Option<Pattern>>)
    ensures Declares(grammar, r)
    ensures forall n :: n in r ==> r[n].None? && n in Names(grammar)
  {
    map n | n in Names(grammar) :: None
  }

  /** The rules that path expansion walks, each with the rules it refers to. */
  function Nodes(rules: seq<Rule>): (r: seq<Node>)
    ensures |r| == |rules| && forall k :: 0 <= k < |rules| ==> r[k] == Node(rules[k].name, References(rules[k].name, rules[k].rhs))
  {
    if rules == [] then [] else [Node(rules[0].name, References(rules[0].name, rules[0].rhs))] + Nodes(rules[1..])
  }

  /** A rule on a cycle of references is one of the rules walked. */
  lemma CycleStartsAtANode(nodes: seq<Node>, name: string)
    requires OnCycle(nodes, name)
    ensures exists k :: 0 <= k < |nodes| && nodes[k].name == name
  {
    var path :| IsChain(nodes, path) && |path| >= 2 && path[0] == name && path[|path| - 1] == name;
  }

  /** The first `convert_rules`, with no proxies. */
  function FirstLoop(grammar: seq<Rule>): (r: (EState, seq<Rule>))
  {
    Fixpoint(grammar, EState(Seeded(grammar), NoCounts), {})
  }

  /** The names that get a `Recursion` proxy: path expansion over the rules the first
      loop could not convert. */
  function Proxies(grammar: seq<Rule>): set<string>
  {
    ExpandPaths(Nodes(FirstLoop(grammar).1), 0, [], {})
  }

  /** The second `convert_rules`, over the leftovers, with the proxies. */
  function SecondLoop(grammar: seq<Rule>): (r: (EState, seq<Rule>))
  {
    Fixpoint(FirstLoop(grammar).1, FirstLoop(grammar).0, Proxies(grammar))
  }

  /** The first loop keeps the table's keys to the declared names, and gives back
      only declared rules. */
  lemma FirstLoopKeepsTheDeclaredNames(grammar: seq<Rule>)
    ensures FirstLoop(grammar).0.rules.Keys == Seeded(grammar).Keys
    ensures Declares(FirstLoop(grammar).1, FirstLoop(grammar).0.rules)
  {
    var first := FirstLoop(grammar);
    FixpointLeftovers(grammar, EState(Seeded(grammar), NoCounts), {});
    forall k | 0 <= k < |first.1| ensures first.1[k].name in first.0.rules {
      assert first.1[k] in grammar;
    }
  }

  /** Both loops keep the table's keys to the declared names. */
  lemma LoopsKeepTheDeclaredNames(grammar: seq<Rule>)
    ensures FirstLoop(grammar).0.rules.Keys == Seeded(grammar).Keys
    ensures Declares(FirstLoop(grammar).1, FirstLoop(grammar).0.rules)
    ensures SecondLoop(grammar).0.rules.Keys == Seeded(grammar).Keys
  {
    var first := FirstLoop(grammar);
    FirstLoopKeepsTheDeclaredNames(grammar);
    FixpointLeftovers(first.1, first.0, Proxies(grammar));
    assert SecondLoop(grammar) == Fixpoint(first.1, first.0, Proxies(grammar));
  }

  /** Every declared name has an entry in the final table. */
  lemma DeclaredNamesStay(grammar: seq<Rule>)
    ensures forall n :: n in Names(grammar) ==> n in SecondLoop(grammar).0.rules
  {
    LoopsKeepTheDeclaredNames(grammar);
  }

  /** Every proxy is for a declared rule that lies on a cycle of references among
      the rules the first loop could not convert. */
  lemma ProxiesAreDeclaredCycles(grammar: seq<Rule>)
    ensures forall r :: r in Proxies(grammar) ==> r in Seeded(grammar) && OnCycle(Nodes(FirstLoop(grammar).1), r)
  {
    var first := FirstLoop(grammar);
    FixpointLeftovers(grammar, EState(Seeded(grammar), NoCounts), {});
    var nodes := Nodes(first.1);
    ProxiesLieOnCycles(nodes, 0, [], {});
    forall r | r in Proxies(grammar) ensures r in Seeded(grammar) {
      CycleStartsAtANode(nodes, r);
      var k :| 0 <= k < |nodes| && nodes[k].name == r;
      assert first.1[k] in grammar;
    }
  }

  /** The post-parse part of `W3C_EBNF.read`, as a function of the parsed rules. */
  function Reading(grammar: seq<Rule>): Outcome
  {
    Outcome(Listing(grammar), Recursions(grammar))
  }

  /** The final sort: every declared name with its final entry. */
  function Listing(grammar: seq<Rule>): seq<(string, Option<Pattern>)>
  {
    DeclaredNamesStay(grammar);
    ByCount(Dedup(Names(grammar)), SecondLoop(grammar).0)
  }

  /** The fix-up: each proxy pointed at the final entry of its rule. */
  function Recursions(grammar: seq<Rule>): map<string, Option<Pattern>>
  {
    LoopsKeepTheDeclaredNames(grammar);
    ProxiesAreDeclaredCycles(grammar);
    map r | r in Proxies(grammar) :: SecondLoop(grammar).0.rules[r]
  }

  /** The recursion table holds one entry per proxy, each the final pattern of its
      rule. */
  lemma ReadingFixesUpEveryProxy(grammar: seq<Rule>)
    ensures var out := Reading(grammar);
            var final := SecondLoop(grammar).0;
            out.recursions.Keys == Proxies(grammar) &&
            forall r :: r in out.recursions ==> r in final.rules && out.recursions[r] == final.rules[r]
  {
    LoopsKeepTheDeclaredNames(grammar);
    ProxiesAreDeclaredCycles(grammar);
  }

  /** The listing holds every declared rule exactly once, with its final pattern
      (nil if it never converted). */
  lemma ReadingListsEveryRule(grammar: seq<Rule>)
    ensures var out := Reading(grammar);
            var final := SecondLoop(grammar).0;
            (forall k :: 0 <= k < |out.listing| ==>
               out.listing[k].0 in Names(grammar) && out.listing[k].0 in final.rules &&
               out.listing[k].1 == final.rules[out.listing[k].0]) &&
            (forall n :: n in Names(grammar) ==> exists k :: 0 <= k < |out.listing| && out.listing[k].0 == n) &&
            (forall i, j :: 0 <= i < j < |out.listing| ==> out.listing[i].0 != out.listing[j].0)
  {
    var final := SecondLoop(grammar).0;
    DeclaredNamesStay(grammar);
    ByCountListsEachName(Names(grammar), final);
    assert Reading(grammar).listing == ByCount(Dedup(Names(grammar)), final);
  }

  /** The listing runs by ascending final reference count. */
  lemma ReadingSortsByCount(grammar: seq<Rule>)
    ensures var out := Reading(grammar);
            var final := SecondLoop(grammar).0;
            forall i, j :: 0 <= i < j < |out.listing| ==>
              final.counts.Get(out.listing[i].0) <= final.counts.Get(out.listing[j].0)
  {
    var names, final := Dedup(Names(grammar)), SecondLoop(grammar).0;
    DeclaredNamesStay(grammar);
    assert Reading(grammar).listing == ByCount(names, final);
  }

  /** A rule the first loop converted keeps that pattern: later passes never
      overwrite a converted rule. */
  lemma FirstConversionsStand(grammar: seq<Rule>, n: string)
    requires n in FirstLoop(grammar).0.rules && FirstLoop(grammar).0.rules[n].Some?
    ensures n in SecondLoop(grammar).0.rules && SecondLoop(grammar).0.rules[n] == FirstLoop(grammar).0.rules[n]
  {
  }

  /** A rule that neither loop converted is listed with nil. */
  lemma LeftoversStayNil(grammar: seq<Rule>)
    ensures forall rule :: rule in SecondLoop(grammar).1 ==>
              rule.name in SecondLoop(grammar).0.rules && SecondLoop(grammar).0.rules[rule.name].None?
  {
    var first := FirstLoop(grammar);
    LoopsKeepTheDeclaredNames(grammar);
    FixpointLeftovers(first.1, first.0, Proxies(grammar));
  }

  /** `rules[rule_name] = nil` for every parsed rule. */
  method Seed(grammar: seq<Rule>) returns (rules: map<string, Option<Pattern>>)
    ensures rules == Seeded(grammar)
  {
    rules := map[];
    var i := 0;
    while i < |grammar|
      invariant i <= |grammar|
      invariant forall n :: n in rules <==> exists k :: 0 <= k < i && grammar[k].name == n
      invariant forall n :: n in rules ==> rules[n].None?
    {
      rules := rules[grammar[i].name := None];
      i := i + 1;
    }
    forall n ensures n in rules <==> n in Seeded(grammar) {
      if n in Names(grammar) {
        var k :| 0 <= k < |grammar| && Names(grammar)[k] == n;
      }
    }
  }

  /** One `reject` pass of `convert_rules`. */
  method RunPass(worklist: seq<Rule>, rules: map<string, Option<Pattern>>, counts: Tally, proxies: set<string>)
    returns (rules': map<string, Option<Pattern>>, counts': Tally, kept: seq<Rule>)
    ensures (EState(rules', counts'), kept) == Pass(worklist, 0, EState(rules, counts), proxies, [])
  {
    rules', counts', kept := rules, counts, [];
    var i := 0;
    while i < |worklist|
      invariant i <= |worklist|
      invariant Pass(worklist, i, EState(rules', counts'), proxies, kept) == Pass(worklist, 0, EState(rules, counts), proxies, [])
    {
      var rule := worklist[i];
      if !(rule.name in rules' && rules'[rule.name].Some?) {
        var c := ConvertRhs(Env(rule.name, rules', proxies), rule.rhs, counts');
        rules' := rules'[rule.name := c.0];
        counts' := c.1;
        if c.0.None? {
          kept := kept + [rule];
        }
      }
      i := i + 1;
    }
  }

  /** `convert_rules`: passes until the worklist is empty or a pass converts nothing;
      answers the rules still unconverted. */
  method ConvertRules(grammar: seq<Rule>, rules: map<string, Option<Pattern>>, counts: Tally, proxies: set<string>)
    returns (rules': map<string, Option<Pattern>>, counts': Tally, left: seq<Rule>)
    ensures (EState(rules', counts'), left) == Fixpoint(grammar, EState(rules, counts), proxies)
  {
    rules', counts', left := rules, counts, grammar;
    while left != []
      invariant Fixpoint(left, EState(rules', counts'), proxies) == Fixpoint(grammar, EState(rules, counts), proxies)
      decreases |left|
    {
      var r, c, kept := RunPass(left, rules', counts', proxies);
      assert |kept| <= |left|;
      if |kept| == |left| {
        assert Fixpoint(left, EState(rules', counts'), proxies) == (EState(r, c), kept);
        rules', counts', left := r, c, kept;
        return;
      }
      assert Fixpoint(left, EState(rules', counts'), proxies) == Fixpoint(kept, EState(r, c), proxies);
      rules', counts', left := r, c, kept;
    }
    assert Fixpoint([], EState(rules', counts'), proxies) == (EState(rules', counts'), []);
  }

  /** The post-parse part of `W3C_EBNF.read`: seed, convert, find the indirectly recursive
      rules and give them proxies, convert again, point each proxy at its rule, and
      list the rules by ascending reference count. */
  method Read(grammar: seq<Rule>) returns (out: Outcome)
    ensures out == Reading(grammar)
  {
    var rules, counts, proxies := ConvertAll(grammar);
    LoopsKeepTheDeclaredNames(grammar);
    ProxiesAreDeclaredCycles(grammar);
    var recursions := FixUp(proxies, rules);
    ReadingFixesUpEveryProxy(grammar);
    SameEntries(recursions, Recursions(grammar));
    var listing := ByCount(Dedup(Names(grammar)), EState(rules, counts));
    assert listing == Listing(grammar);
    out := Outcome(listing, recursions);
  }

  /** The conversions of `W3C_EBNF.read`: seed, convert, expand paths to find the rules
      that need a proxy, and convert the leftovers again. */
  method ConvertAll(grammar: seq<Rule>) returns (rules: map<string, Option<Pattern>>, counts: Tally, proxies: set<string>)
    ensures EState(rules, counts) == SecondLoop(grammar).0 && proxies == Proxies(grammar)
  {
    rules := Seed(grammar);
    var leftovers;
    rules, counts, leftovers := ConvertRules(grammar, rules, NoCounts, {});
    assert (EState(rules, counts), leftovers) == FirstLoop(grammar);
    proxies := ExpandPaths(Nodes(leftovers), 0, [], {});
    rules, counts, leftovers := ConvertRules(leftovers, rules, counts, proxies);
  }
}
