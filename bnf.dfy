/** `Parsers::BNF`: turning the rules of a parsed BNF grammar into patterns.

    A rule is converted alternative by alternative. A literal becomes its text, a
    reference to an already converted rule becomes that rule's pattern, and a
    reference to the rule itself is kept and classified. A reference to anything
    else abandons the rule for this pass. `Read` repeats passes until one converts
    nothing, then lists the converted rules by ascending reference count.
 */
module Bnf {
  import opened Grammar
  import opened Conversion

  /** A term of a BNF alternative: a quoted literal or a `<rule>` reference. */
  datatype Term = Literal(text: string) | Reference(name: string)

  /** `<name> ::= alternative | alternative ...`, each alternative a list of terms. */
  datatype Rule = Rule(name: string, alts: seq<seq<Term>>)

  /** The state a conversion walk carries: the converted pieces so far (None once it
      has bailed out), the single `is_recursive` tag, and the reference counts, whose
      increments survive a bail-out. */
  datatype Walk = Walk(items: Option<seq<Pattern>>, tag: Option<Tag>, counts: Tally)

  /** A term that makes the conversion bail out: a reference to a rule that is neither
      converted yet nor the rule being converted. */
  predicate Unresolvable(owner: string, t: Term, rules: map<string, Pattern>)
  {
    t.Reference? && t.name !in rules && t.name != owner
  }

  predicate Unresolved(owner: string, alts: seq<seq<Term>>, rules: map<string, Pattern>)
  {
    exists k, m :: 0 <= k < |alts| && 0 <= m < |alts[k]| && Unresolvable(owner, alts[k][m], rules)
  }

  /** What a term becomes when the conversion does not bail out. */
  function TermPattern(owner: string, t: Term, rules: map<string, Pattern>): Pattern
  {
    match t
    case Literal(s) => Lit(s)
    case Reference(n) => if n in rules then rules[n] else SelfRef(n)
  }

  function MapTerms(owner: string, terms: seq<Term>, rules: map<string, Pattern>): (r: seq<Pattern>)
    ensures |r| == |terms|
    ensures forall i {:trigger r[i]} :: 0 <= i < |terms| ==> r[i] == TermPattern(owner, terms[i], rules)
  {
    if terms == [] then [] else [TermPattern(owner, terms[0], rules)] + MapTerms(owner, terms[1..], rules)
  }

  /** Each alternative converted term by term and joined. */
  function MapAlts(owner: string, alts: seq<seq<Term>>, rules: map<string, Pattern>): (r: seq<Pattern>)
    ensures |r| == |alts|
    ensures forall i {:trigger r[i]} :: 0 <= i < |alts| ==> r[i] == Join(MapTerms(owner, alts[i], rules))
  {
    if alts == [] then [] else [Join(MapTerms(owner, alts[0], rules))] + MapAlts(owner, alts[1..], rules)
  }

  /** Converting the terms from `j` on converts term `j`, then the rest. */
  lemma MapTermsFrom(owner: string, list: seq<Term>, j: nat, rules: map<string, Pattern>)
    requires j < |list|
    ensures MapTerms(owner, list[j..], rules) == [TermPattern(owner, list[j], rules)] + MapTerms(owner, list[j + 1..], rules)
  {
    assert list[j..][1..] == list[j + 1..];
  }

  /** Converting the alternatives from `i` on converts alternative `i`, then the rest. */
  lemma MapAltsFrom(owner: string, alts: seq<seq<Term>>, i: nat, rules: map<string, Pattern>)
    requires i < |alts|
    ensures MapAlts(owner, alts[i..], rules) == [Join(MapTerms(owner, alts[i], rules))] + MapAlts(owner, alts[i + 1..], rules)
  {
    assert alts[i..][1..] == alts[i + 1..];
  }

  /** A term from `j` on is unresolvable exactly when term `j` is, or one after it. */
  lemma UnresolvableFrom(owner: string, list: seq<Term>, j: nat, rules: map<string, Pattern>)
    requires j < |list|
    ensures (exists k :: j <= k < |list| && Unresolvable(owner, list[k], rules)) <==>
            Unresolvable(owner, list[j], rules) || exists k :: j + 1 <= k < |list| && Unresolvable(owner, list[k], rules)
  {
  }

  /** A term of the alternatives from `i` on is unresolvable exactly when one of
      alternative `i` is, or one of a later alternative. */
  lemma UnresolvableAltsFrom(owner: string, alts: seq<seq<Term>>, i: nat, rules: map<string, Pattern>)
    requires i < |alts|
    ensures (exists k, m :: i <= k < |alts| && 0 <= m < |alts[k]| && Unresolvable(owner, alts[k][m], rules)) <==>
            (exists m :: 0 <= m < |alts[i]| && Unresolvable(owner, alts[i][m], rules)) ||
            exists k, m :: i + 1 <= k < |alts| && 0 <= m < |alts[k]| && Unresolvable(owner, alts[k][m], rules)
  {
  }

  /** The step of `ConvertList` at a term `j` it can resolve: converting the rest
      fails exactly when some term from `j` on cannot be resolved, and otherwise maps
      every term from `j` on. */
  lemma ListStep(owner: string, list: seq<Term>, j: nat, rules: map<string, Pattern>, done: seq<Pattern>,
                 rest: Option<seq<Pattern>>)
    requires j < |list| && !Unresolvable(owner, list[j], rules)
    requires rest.None? <==> exists k :: j + 1 <= k < |list| && Unresolvable(owner, list[k], rules)
    requires rest.Some? ==> rest.value == done + [TermPattern(owner, list[j], rules)] + MapTerms(owner, list[j + 1..], rules)
    ensures rest.None? <==> exists k :: j <= k < |list| && Unresolvable(owner, list[k], rules)
    ensures rest.Some? ==> rest.value == done + MapTerms(owner, list[j..], rules)
  {
    MapTermsFrom(owner, list, j, rules);
    UnresolvableFrom(owner, list, j, rules);
  }

  /** The step of `ConvertAlts` at alternative `i`: converting the alternative, then
      the rest, fails exactly when some term from `i` on cannot be resolved, and
      otherwise maps every alternative from `i` on. */
  lemma AltsStep(owner: string, alts: seq<seq<Term>>, i: nat, rules: map<string, Pattern>, mapped: seq<Pattern>,
                 items: Option<seq<Pattern>>, rest: Option<seq<Pattern>>)
    requires i < |alts|
    requires items.None? <==> exists m :: 0 <= m < |alts[i]| && Unresolvable(owner, alts[i][m], rules)
    requires items.Some? ==> items.value == MapTerms(owner, alts[i], rules)
    requires items.None? ==> rest.None?
    requires items.Some? ==>
               (rest.None? <==> exists k, m :: i + 1 <= k < |alts| && 0 <= m < |alts[k]| && Unresolvable(owner, alts[k][m], rules))
    requires items.Some? && rest.Some? ==> rest.value == mapped + [Join(items.value)] + MapAlts(owner, alts[i + 1..], rules)
    ensures rest.None? <==> exists k, m :: i <= k < |alts| && 0 <= m < |alts[k]| && Unresolvable(owner, alts[k][m], rules)
    ensures rest.Some? ==> rest.value == mapped + MapAlts(owner, alts[i..], rules)
  {
    MapAltsFrom(owner, alts, i, rules);
    UnresolvableAltsFrom(owner, alts, i, rules);
  }

  /** How many times `x` is referenced. */
  function Uses(terms: seq<Term>, x: string): nat
  {
    if terms == [] then 0 else (if terms[0] == Reference(x) then 1 else 0) + Uses(terms[1..], x)
  }

  function UsesAll(alts: seq<seq<Term>>, x: string): nat
  {
    if alts == [] then 0 else Uses(alts[0], x) + UsesAll(alts[1..], x)
  }

  /** The inner `map.with_index` over the terms of alternative `i`, from term `j` on. */
  function ConvertList(owner: string, list: seq<Term>, i: nat, j: nat, rules: map<string, Pattern>,
                       done: seq<Pattern>, tag: Option<Tag>, counts: Tally): (w: Walk)
    requires j <= |list|
    ensures w.items.None? <==> exists k :: j <= k < |list| && Unresolvable(owner, list[k], rules)
    ensures w.items.Some? ==> w.items.value == done + MapTerms(owner, list[j..], rules)
    ensures w.tag.Some? ==> w.tag == tag || w.tag.value.list == i
    decreases |list| - j
  {
    if j == |list| then Walk(Some(done), tag, counts)
    else
      match list[j]
      case Literal(s) =>
        var w := ConvertList(owner, list, i, j + 1, rules, done + [Lit(s)], tag, counts);
        ListStep(owner, list, j, rules, done, w.items);
        w
      case Reference(n) =>
        if n in rules then
          var w := ConvertList(owner, list, i, j + 1, rules, done + [rules[n]], tag, counts.Bump(n));
          ListStep(owner, list, j, rules, done, w.items);
          w
        else if n == owner then
          var w := ConvertList(owner, list, i, j + 1, rules, done + [SelfRef(n)], Some(Classify(tag, i, j, |list|)), counts);
          ListStep(owner, list, j, rules, done, w.items);
          w
        else Walk(None, tag, counts)
  }

  /** The outer `map.with_index` over the alternatives, from alternative `i` on. */
  function ConvertAlts(owner: string, alts: seq<seq<Term>>, i: nat, rules: map<string, Pattern>,
                       mapped: seq<Pattern>, tag: Option<Tag>, counts: Tally): (w: Walk)
    requires i <= |alts| && |mapped| == i
    requires tag.Some? ==> tag.value.list < i
    ensures w.items.None? <==>
              exists k, m :: i <= k < |alts| && 0 <= m < |alts[k]| && Unresolvable(owner, alts[k][m], rules)
    ensures w.items.Some? ==> w.items.value == mapped + MapAlts(owner, alts[i..], rules)
    ensures w.tag.Some? ==> w.tag.value.list < |alts|
    decreases |alts| - i
  {
    if i == |alts| then Walk(Some(mapped), tag, counts)
    else
      assert alts[i][0..] == alts[i];
      var w := ConvertList(owner, alts[i], i, 0, rules, [], tag, counts);
      if w.items.None? then
        AltsStep(owner, alts, i, rules, mapped, w.items, None);
        w
      else
        var r := ConvertAlts(owner, alts, i + 1, rules, mapped + [Join(w.items.value)], w.tag, w.counts);
        AltsStep(owner, alts, i, rules, mapped, w.items, r.items);
        r
  }

  /** `BNF.convert_expression`: the converted rule (None to try again later) and the
      reference counts after the attempt. It fails exactly when a reference cannot be
      resolved, or when eliminating the recursion leaves no alternative. */
  function ConvertExpression(owner: string, alts: seq<seq<Term>>, rules: map<string, Pattern>, counts: Tally): (r: (Option<Pattern>, Tally))
    ensures Unresolved(owner, alts, rules) ==> r.0.None?
    ensures !Unresolved(owner, alts, rules) ==>
              var tag := ConvertAlts(owner, alts, 0, rules, [], None, counts).tag;
              (tag.Some? ==> tag.value.list < |alts|) &&
              r.0 == Finish(Eliminate(MapAlts(owner, alts, rules), tag))
  {
    assert alts[0..] == alts;
    var w := ConvertAlts(owner, alts, 0, rules, [], None, counts);
    assert w.items.Some? ==> w.items.value == MapAlts(owner, alts, rules);
    (if w.items.None? then None else Finish(Eliminate(w.items.value, w.tag)), w.counts)
  }

  lemma {:induction false} ListKeys(owner: string, list: seq<Term>, i: nat, j: nat, rules: map<string, Pattern>,
                                    done: seq<Pattern>, tag: Option<Tag>, counts: Tally)
    requires j <= |list|
    ensures var w := ConvertList(owner, list, i, j, rules, done, tag, counts);
            (counts.Valid() ==> w.counts.Valid()) &&
            counts.count.Keys <= w.counts.count.Keys <= counts.count.Keys + rules.Keys
    decreases |list| - j
  {
    if j < |list| {
      match list[j]
      case Literal(s) => ListKeys(owner, list, i, j + 1, rules, done + [Lit(s)], tag, counts);
      case Reference(n) =>
        if n in rules {
          ListKeys(owner, list, i, j + 1, rules, done + [rules[n]], tag, counts.Bump(n));
        } else if n == owner {
          ListKeys(owner, list, i, j + 1, rules, done + [SelfRef(n)], Some(Classify(tag, i, j, |list|)), counts);
        }
    }
  }

  /** The state after converting one term that does not make the walk bail out. */
  function Step(owner: string, t: Term, i: nat, j: nat, n: nat, rules: map<string, Pattern>,
                done: seq<Pattern>, tag: Option<Tag>, counts: Tally): (r: (seq<Pattern>, Option<Tag>, Tally))
    ensures forall x :: r.2.Get(x) == counts.Get(x) + (if t == Reference(x) && x in rules then 1 else 0)
  {
    (done + [TermPattern(owner, t, rules)],
     (if t.Reference? && t.name !in rules then Some(Classify(tag, i, j, n)) else tag),
     (if t.Reference? && t.name in rules then counts.Bump(t.name) else counts))
  }

  lemma StepUnfolds(owner: string, list: seq<Term>, i: nat, j: nat, rules: map<string, Pattern>,
                    done: seq<Pattern>, tag: Option<Tag>, counts: Tally)
    requires j < |list| && !Unresolvable(owner, list[j], rules)
    ensures var s := Step(owner, list[j], i, j, |list|, rules, done, tag, counts);
            ConvertList(owner, list, i, j, rules, done, tag, counts) == ConvertList(owner, list, i, j + 1, rules, s.0, s.1, s.2)
  {
  }

  lemma {:induction false} ListBounds(owner: string, list: seq<Term>, i: nat, j: nat, rules: map<string, Pattern>,
                                      done: seq<Pattern>, tag: Option<Tag>, counts: Tally)
    requires j <= |list|
    ensures var w := ConvertList(owner, list, i, j, rules, done, tag, counts);
            forall x :: counts.Get(x) <= w.counts.Get(x) <= counts.Get(x) + Uses(list[j..], x)
    decreases |list| - j
  {
    if j < |list| && !Unresolvable(owner, list[j], rules) {
      assert list[j..][1..] == list[j + 1..];
      var s := Step(owner, list[j], i, j, |list|, rules, done, tag, counts);
      StepUnfolds(owner, list, i, j, rules, done, tag, counts);
      ListBounds(owner, list, i, j + 1, rules, s.0, s.1, s.2);
    }
  }

  lemma {:induction false} ListCounts(owner: string, list: seq<Term>, i: nat, j: nat, rules: map<string, Pattern>,
                                      done: seq<Pattern>, tag: Option<Tag>, counts: Tally)
    requires j <= |list|
    ensures var w := ConvertList(owner, list, i, j, rules, done, tag, counts);
            w.items.Some? ==> forall x :: w.counts.Get(x) == counts.Get(x) + (if x in rules then Uses(list[j..], x) else 0)
    decreases |list| - j
  {
    if j < |list| && !Unresolvable(owner, list[j], rules) {
      assert list[j..][1..] == list[j + 1..];
      var s := Step(owner, list[j], i, j, |list|, rules, done, tag, counts);
      StepUnfolds(owner, list, i, j, rules, done, tag, counts);
      ListCounts(owner, list, i, j + 1, rules, s.0, s.1, s.2);
    }
  }

  lemma {:induction false} AltsCounts(owner: string, alts: seq<seq<Term>>, i: nat, rules: map<string, Pattern>,
                                      mapped: seq<Pattern>, tag: Option<Tag>, counts: Tally)
    requires i <= |alts| && |mapped| == i
    requires tag.Some? ==> tag.value.list < i
    ensures var w := ConvertAlts(owner, alts, i, rules, mapped, tag, counts);
            (counts.Valid() ==> w.counts.Valid()) &&
            counts.count.Keys <= w.counts.count.Keys <= counts.count.Keys + rules.Keys &&
            (forall x :: counts.Get(x) <= w.counts.Get(x) <= counts.Get(x) + UsesAll(alts[i..], x)) &&
            (w.items.Some? ==> forall x :: w.counts.Get(x) == counts.Get(x) + (if x in rules then UsesAll(alts[i..], x) else 0))
    decreases |alts| - i
  {
    if i < |alts| {
      assert alts[i..][1..] == alts[i + 1..];
      assert alts[i][0..] == alts[i];
      ListKeys(owner, alts[i], i, 0, rules, [], tag, counts);
      ListBounds(owner, alts[i], i, 0, rules, [], tag, counts);
      ListCounts(owner, alts[i], i, 0, rules, [], tag, counts);
      var w := ConvertList(owner, alts[i], i, 0, rules, [], tag, counts);
      if w.items.Some? {
        AltsCounts(owner, alts, i + 1, rules, mapped + [Join(w.items.value)], w.tag, w.counts);
      }
    }
  }

  /** Each reference to a converted rule adds one to its count. An attempt that bails
      out keeps the increments it made before bailing, so a rule retried over several
      passes can count the same reference more than once. */
  lemma ReferenceCounts(owner: string, alts: seq<seq<Term>>, rules: map<string, Pattern>, counts: Tally)
    ensures var r := ConvertExpression(owner, alts, rules, counts);
            (counts.Valid() ==> r.1.Valid()) &&
            counts.count.Keys <= r.1.count.Keys <= counts.count.Keys + rules.Keys &&
            (forall x :: counts.Get(x) <= r.1.Get(x) <= counts.Get(x) + UsesAll(alts, x)) &&
            (!Unresolved(owner, alts, rules) ==>
               forall x :: r.1.Get(x) == counts.Get(x) + (if x in rules then UsesAll(alts, x) else 0))
  {
    assert alts[0..] == alts;
    AltsCounts(owner, alts, 0, rules, [], None, counts);
  }

  lemma {:induction false} ListIgnoresCounts(owner: string, list: seq<Term>, i: nat, j: nat, rules: map<string, Pattern>,
                                             done: seq<Pattern>, tag: Option<Tag>, c1: Tally, c2: Tally)
    requires j <= |list|
    ensures ConvertList(owner, list, i, j, rules, done, tag, c1).tag == ConvertList(owner, list, i, j, rules, done, tag, c2).tag
    decreases |list| - j
  {
    if j < |list| {
      match list[j]
      case Literal(s) => ListIgnoresCounts(owner, list, i, j + 1, rules, done + [Lit(s)], tag, c1, c2);
      case Reference(n) =>
        if n in rules {
          ListIgnoresCounts(owner, list, i, j + 1, rules, done + [rules[n]], tag, c1.Bump(n), c2.Bump(n));
        } else if n == owner {
          ListIgnoresCounts(owner, list, i, j + 1, rules, done + [SelfRef(n)], Some(Classify(tag, i, j, |list|)), c1, c2);
        }
    }
  }

  lemma {:induction false} AltsIgnoreCounts(owner: string, alts: seq<seq<Term>>, i: nat, rules: map<string, Pattern>,
                                            mapped: seq<Pattern>, tag: Option<Tag>, c1: Tally, c2: Tally)
    requires i <= |alts| && |mapped| == i
    requires tag.Some? ==> tag.value.list < i
    ensures ConvertAlts(owner, alts, i, rules, mapped, tag, c1).tag == ConvertAlts(owner, alts, i, rules, mapped, tag, c2).tag
    decreases |alts| - i
  {
    if i < |alts| {
      var w1 := ConvertList(owner, alts[i], i, 0, rules, [], tag, c1);
      var w2 := ConvertList(owner, alts[i], i, 0, rules, [], tag, c2);
      ListIgnoresCounts(owner, alts[i], i, 0, rules, [], tag, c1, c2);
      if w1.items.Some? {
        AltsIgnoreCounts(owner, alts, i + 1, rules, mapped + [Join(w1.items.value)], w1.tag, w1.counts, w2.counts);
      }
    }
  }

  /** Whether a rule converts depends on the converted rules only, never on the counts. */
  lemma ConvertIgnoresCounts(owner: string, alts: seq<seq<Term>>, rules: map<string, Pattern>, c1: Tally, c2: Tally)
    ensures ConvertExpression(owner, alts, rules, c1).0 == ConvertExpression(owner, alts, rules, c2).0
  {
    AltsIgnoreCounts(owner, alts, 0, rules, [], None, c1, c2);
  }

  /** The position of the last reference to `owner` before index `j`. */
  function LastSelfIn(owner: string, list: seq<Term>, j: nat): (r: Option<nat>)
    requires j <= |list|
    ensures r.Some? ==> r.value < j && list[r.value] == Reference(owner) &&
                        forall m :: r.value < m < j ==> list[m] != Reference(owner)
    ensures r.None? ==> forall m :: 0 <= m < j ==> list[m] != Reference(owner)
  {
    if j == 0 then None
    else if list[j - 1] == Reference(owner) then Some(j - 1)
    else LastSelfIn(owner, list, j - 1)
  }

  /** The kind of the self-reference at `j`: first is left; last is both when the
      nearest self-reference before it is the first term, right otherwise; anything
      else is center. */
  function KindAt(owner: string, list: seq<Term>, j: nat): Kind
    requires j <= |list|
  {
    if j == 0 then Left
    else if j == |list| - 1 then (if LastSelfIn(owner, list, j) == Some(0) then Both else Right)
    else Center
  }

  /** The tag of the last self-reference among the first `i` alternatives, found by
      searching backwards. */
  function LastSelfTag(owner: string, alts: seq<seq<Term>>, i: nat): (r: Option<Tag>)
    requires i <= |alts|
    ensures r.Some? ==> r.value.list < i
  {
    if i == 0 then None
    else
      var last := LastSelfIn(owner, alts[i - 1], |alts[i - 1]|);
      if last.Some? then Some(Tag(i - 1, KindAt(owner, alts[i - 1], last.value)))
      else LastSelfTag(owner, alts, i - 1)
  }

  /** The tag that is in force after term `j` of alternative `i`. */
  function TagAfter(owner: string, alts: seq<seq<Term>>, i: nat, j: nat): Option<Tag>
    requires i < |alts| && j <= |alts[i]|
  {
    var last := LastSelfIn(owner, alts[i], j);
    if last.Some? then Some(Tag(i, KindAt(owner, alts[i], last.value))) else LastSelfTag(owner, alts, i)
  }

  /** A self-reference at term `j` records the tag `TagAfter` names once it is passed. */
  lemma SelfReferenceTag(owner: string, alts: seq<seq<Term>>, i: nat, j: nat)
    requires i < |alts| && j < |alts[i]| && alts[i][j] == Reference(owner)
    ensures Some(Classify(TagAfter(owner, alts, i, j), i, j, |alts[i]|)) == TagAfter(owner, alts, i, j + 1)
  {
    var list := alts[i];
    var before := LastSelfIn(owner, list, j);
    assert LastSelfIn(owner, list, j + 1) == Some(j);
    if before.Some? {
      assert KindAt(owner, list, before.value) == Left <==> before.value == 0;
    }
  }

  /** Any other term leaves the tag `TagAfter` names as it was. */
  lemma OtherTermTag(owner: string, alts: seq<seq<Term>>, i: nat, j: nat)
    requires i < |alts| && j < |alts[i]| && alts[i][j] != Reference(owner)
    ensures TagAfter(owner, alts, i, j + 1) == TagAfter(owner, alts, i, j)
  {
    assert LastSelfIn(owner, alts[i], j + 1) == LastSelfIn(owner, alts[i], j);
  }

  lemma {:induction false} ListTagIsLast(owner: string, alts: seq<seq<Term>>, i: nat, j: nat, rules: map<string, Pattern>,
                                         done: seq<Pattern>, tag: Option<Tag>, counts: Tally)
    requires owner !in rules
    requires i < |alts| && j <= |alts[i]|
    requires tag == TagAfter(owner, alts, i, j)
    requires forall k :: j <= k < |alts[i]| ==> !Unresolvable(owner, alts[i][k], rules)
    ensures ConvertList(owner, alts[i], i, j, rules, done, tag, counts).tag == TagAfter(owner, alts, i, |alts[i]|)
    decreases |alts[i]| - j
  {
    var list := alts[i];
    if j < |list| {
      var t := list[j];
      assert !Unresolvable(owner, t, rules);
      var st := Step(owner, t, i, j, |list|, rules, done, tag, counts);
      StepUnfolds(owner, list, i, j, rules, done, tag, counts);
      if t == Reference(owner) {
        SelfReferenceTag(owner, alts, i, j);
      } else {
        OtherTermTag(owner, alts, i, j);
      }
      ListTagIsLast(owner, alts, i, j + 1, rules, st.0, st.1, st.2);
    }
  }

  lemma {:induction false} AltsTagIsLast(owner: string, alts: seq<seq<Term>>, i: nat, rules: map<string, Pattern>,
                                         mapped: seq<Pattern>, tag: Option<Tag>, counts: Tally)
    requires owner !in rules
    requires i <= |alts| && |mapped| == i
    requires tag == LastSelfTag(owner, alts, i)
    requires !Unresolved(owner, alts, rules)
    ensures ConvertAlts(owner, alts, i, rules, mapped, tag, counts).tag == LastSelfTag(owner, alts, |alts|)
    decreases |alts| - i
  {
    if i < |alts| {
      ListTagIsLast(owner, alts, i, 0, rules, [], tag, counts);
      var w := ConvertList(owner, alts[i], i, 0, rules, [], tag, counts);
      AltsTagIsLast(owner, alts, i + 1, rules, mapped + [Join(w.items.value)], w.tag, w.counts);
    }
  }

  /** Only the last self-reference of a rule decides how its recursion is
      eliminated: the recorded tag names the alternative holding it, and its kind
      depends only on that reference's own alternative. */
  lemma TagIsLastSelfReference(owner: string, alts: seq<seq<Term>>, rules: map<string, Pattern>, counts: Tally)
    requires owner !in rules
    requires !Unresolved(owner, alts, rules)
    ensures ConvertAlts(owner, alts, 0, rules, [], None, counts).tag == LastSelfTag(owner, alts, |alts|)
  {
    AltsTagIsLast(owner, alts, 0, rules, [], None, counts);
  }

  /** `<a> ::= <a> "x" | "y"`: under left recursion a base alternative that is a lone
      element receives the repetition in front of it. */
  lemma LeftRecursionPrependsToLoneElement()
    ensures ConvertExpression("a", [[Reference("a"), Literal("x")], [Literal("y")]], map[], NoCounts).0 ==
            Some(Cat([Any(Lit("x")), Lit("y")]))
  {
    var alts := [[Reference("a"), Literal("x")], [Literal("y")]];
    TagIsLastSelfReference("a", alts, map[], NoCounts);
    assert LastSelfIn("a", alts[1], 1).None?;
    assert LastSelfIn("a", alts[0], 2) == Some(0);
    assert MapTerms("a", alts[0][1..], map[]) == [Lit("x")];
    assert MapTerms("a", alts[0], map[]) == [SelfRef("a"), Lit("x")];
    assert MapTerms("a", alts[1], map[]) == [Lit("y")];
    assert MapAlts("a", alts[1..], map[]) == [Lit("y")];
    assert MapAlts("a", alts, map[]) == [Cat([SelfRef("a"), Lit("x")]), Lit("y")];
  }

  /** The converted rules and the reference counts of a reading in progress. */
  datatype State = State(rules: map<string, Pattern>, counts: Tally)
  {
    /** Every converted rule has a count, and only converted rules have one. */
    predicate Valid()
    {
      counts.Valid() && counts.count.Keys == rules.Keys
    }
  }

  /** An attempt counts only references to converted rules. */
  lemma ConvertKeepsValid(rule: Rule, st: State)
    ensures var c := ConvertExpression(rule.name, rule.alts, st.rules, st.counts);
            st.Valid() ==>
              State(st.rules, c.1).Valid() &&
              (c.0.Some? ==> State(st.rules[rule.name := c.0.value], c.1.Touch(rule.name)).Valid())
  {
    ReferenceCounts(rule.name, rule.alts, st.rules, st.counts);
  }

  /** One `reject` pass over the worklist from rule `i` on: each rule is converted
      against the rules converted so far; the ones that fail are kept. */
  function Pass(worklist: seq<Rule>, i: nat, st: State, kept: seq<Rule>): (r: (State, seq<Rule>))
    requires i <= |worklist|
    ensures st.Valid() ==> r.0.Valid()
    ensures |r.1| <= |kept| + |worklist| - i
    decreases |worklist| - i
  {
    if i == |worklist| then (st, kept)
    else
      var rule := worklist[i];
      var c := ConvertExpression(rule.name, rule.alts, st.rules, st.counts);
      ConvertKeepsValid(rule, st);
      if c.0.Some? then
        Pass(worklist, i + 1, State(st.rules[rule.name := c.0.value], c.1.Touch(rule.name)), kept)
      else
        Pass(worklist, i + 1, State(st.rules, c.1), kept + [rule])
  }

  /** `rule` does not convert against `rules`; the counts it starts from play no part. */
  predicate Fails(rule: Rule, rules: map<string, Pattern>)
  {
    ConvertExpression(rule.name, rule.alts, rules, NoCounts).0.None?
  }

  lemma FailsWhateverTheCounts(rule: Rule, rules: map<string, Pattern>, counts: Tally)
    requires ConvertExpression(rule.name, rule.alts, rules, counts).0.None?
    ensures Fails(rule, rules)
  {
    ConvertIgnoresCounts(rule.name, rule.alts, rules, counts, NoCounts);
  }

  /** In a pass that keeps every rule, the first rule failed and was kept. */
  lemma KeptFirst(worklist: seq<Rule>, i: nat, st: State, kept: seq<Rule>)
    requires i < |worklist|
    requires |Pass(worklist, i, st, kept).1| == |kept| + |worklist| - i
    ensures var c := ConvertExpression(worklist[i].name, worklist[i].alts, st.rules, st.counts);
            c.0.None? && Pass(worklist, i, st, kept) == Pass(worklist, i + 1, State(st.rules, c.1), kept + [worklist[i]])
  {
    var rule := worklist[i];
    var c := ConvertExpression(rule.name, rule.alts, st.rules, st.counts);
    if c.0.Some? {
      assert false;
    }
  }

  /** A pass that keeps every rule changed no rule, and every rule failed against the
      rules it started with. */
  lemma {:induction false} UnproductivePass(worklist: seq<Rule>, i: nat, st: State, kept: seq<Rule>)
    requires i <= |worklist|
    requires |Pass(worklist, i, st, kept).1| == |kept| + |worklist| - i
    ensures Pass(worklist, i, st, kept).0.rules == st.rules
    ensures forall rule :: rule in worklist[i..] ==> Fails(rule, st.rules)
    decreases |worklist| - i
  {
    if i < |worklist| {
      var rule := worklist[i];
      KeptFirst(worklist, i, st, kept);
      var c := ConvertExpression(rule.name, rule.alts, st.rules, st.counts);
      FailsWhateverTheCounts(rule, st.rules, st.counts);
      UnproductivePass(worklist, i + 1, State(st.rules, c.1), kept + [rule]);
      forall r | r in worklist[i..] ensures Fails(r, st.rules) {
        if r != rule {
          assert r in worklist[i + 1..];
        }
      }
    }
  }

  /** The `loop` of `read`: passes until one makes no progress. */
  function Fixpoint(worklist: seq<Rule>, st: State): (r: (State, seq<Rule>))
    ensures st.Valid() ==> r.0.Valid()
    ensures |r.1| <= |worklist|
    decreases |worklist|
  {
    var p := Pass(worklist, 0, st, []);
    if |p.1| == |worklist| then p else Fixpoint(p.1, p.0)
  }

  /** When the loop stops, no rule left in the worklist converts against the final
      rules, whatever the counts: the worklist has reached a fixpoint. */
  lemma {:induction false} FixpointIsStable(worklist: seq<Rule>, st: State)
    ensures var r := Fixpoint(worklist, st);
            forall rule :: rule in r.1 ==> Fails(rule, r.0.rules)
    decreases |worklist|
  {
    var p := Pass(worklist, 0, st, []);
    if |p.1| == |worklist| {
      assert Fixpoint(worklist, st) == p;
      UnproductivePass(worklist, 0, st, []);
      PassKeepsSubsequence(worklist, 0, st, []);
      forall rule | rule in p.1 ensures Fails(rule, p.0.rules) {
        assert rule in worklist[0..];
      }
    } else {
      assert Fixpoint(worklist, st) == Fixpoint(p.1, p.0);
      FixpointIsStable(p.1, p.0);
    }
  }

  lemma {:induction false} PassKeepsSubsequence(worklist: seq<Rule>, i: nat, st: State, kept: seq<Rule>)
    requires i <= |worklist|
    ensures forall rule :: rule in Pass(worklist, i, st, kept).1 ==> rule in kept || rule in worklist[i..]
    decreases |worklist| - i
  {
    if i < |worklist| {
      var rule := worklist[i];
      var c := ConvertExpression(rule.name, rule.alts, st.rules, st.counts);
      if c.0.Some? {
        PassKeepsSubsequence(worklist, i + 1, State(st.rules[rule.name := c.0.value], c.1.Touch(rule.name)), kept);
      } else {
        PassKeepsSubsequence(worklist, i + 1, State(st.rules, c.1), kept + [rule]);
      }
    }
  }

  /** A pass over rules that each hold an unresolvable reference converts none of them:
      it keeps them all, in order, and leaves the converted rules as they were. */
  lemma {:induction false} PassKeepsUnresolved(worklist: seq<Rule>, i: nat, st: State, kept: seq<Rule>)
    requires i <= |worklist|
    requires forall k :: i <= k < |worklist| ==> Unresolved(worklist[k].name, worklist[k].alts, st.rules)
    ensures Pass(worklist, i, st, kept).0.rules == st.rules
    ensures Pass(worklist, i, st, kept).1 == kept + worklist[i..]
    decreases |worklist| - i
  {
    if i < |worklist| {
      var rule := worklist[i];
      var c := ConvertExpression(rule.name, rule.alts, st.rules, st.counts);
      assert c.0.None?;
      PassKeepsUnresolved(worklist, i + 1, State(st.rules, c.1), kept + [rule]);
      assert (kept + [rule]) + worklist[i + 1..] == kept + worklist[i..];
    }
  }

  /** `BNF.read` has no indirect-recursion pass: when every rule of the worklist refers
      to a rule not yet converted, the loop stops after one pass and converts none. */
  lemma UnresolvedRulesNeverConvert(worklist: seq<Rule>, st: State)
    requires forall rule :: rule in worklist ==> Unresolved(rule.name, rule.alts, st.rules)
    ensures Fixpoint(worklist, st).0.rules == st.rules
    ensures Fixpoint(worklist, st).1 == worklist
  {
    PassKeepsUnresolved(worklist, 0, st, []);
    assert [] + worklist[0..] == worklist;
  }

  /** The three-rule cycle `<r1> ::= "abc" | <r2>`, `<r2> ::= "def" | <r3>`,
      `<r3> ::= "xyz" | <r1>`: no rule converts, and `read` lists nothing. */
  lemma IndirectCycleIsDropped()
    ensures var g := [Rule("r1", [[Literal("abc")], [Reference("r2")]]),
                      Rule("r2", [[Literal("def")], [Reference("r3")]]),
                      Rule("r3", [[Literal("xyz")], [Reference("r1")]])];
            Fixpoint(g, Start()).0.rules == map[] && Listing(Fixpoint(g, Start()).0) == []
  {
    var g := [Rule("r1", [[Literal("abc")], [Reference("r2")]]),
              Rule("r2", [[Literal("def")], [Reference("r3")]]),
              Rule("r3", [[Literal("xyz")], [Reference("r1")]])];
    forall rule | rule in g ensures Unresolved(rule.name, rule.alts, Start().rules) {
      assert Unresolvable(rule.name, rule.alts[1][0], Start().rules);
    }
    UnresolvedRulesNeverConvert(g, Start());
  }

  /** The sorted keys are the converted rules, each once. */
  lemma SortedNamesAreTheRules(st: State)
    requires st.Valid()
    ensures var names := SortByCount(st.counts.order, st.counts);
            Distinct(names) && forall n :: n in names <==> n in st.rules
  {
    SortKeepsDistinct(st.counts.order, st.counts);
    forall n ensures n in st.counts.order <==> n in st.rules {
      assert n in st.rules <==> n in st.counts.count.Keys;
    }
  }

  /** `reference_counts.sort_by {|k, v| v}.map {|name, _| [name, rules[name]]}.to_h`:
      every converted rule exactly once, with its pattern, by ascending count. */
  function Listing(st: State): (r: seq<(string, Pattern)>)
    requires st.Valid()
    ensures forall k :: 0 <= k < |r| ==> r[k].0 in st.rules && r[k].1 == st.rules[r[k].0]
    ensures forall name :: name in st.rules ==> exists k :: 0 <= k < |r| && r[k].0 == name
    ensures forall i, j :: 0 <= i < j < |r| ==> r[i].0 != r[j].0
    ensures forall i, j :: 0 <= i < j < |r| ==> st.counts.Get(r[i].0) <= st.counts.Get(r[j].0)
  {
    SortedNamesAreTheRules(st);
    Entries(SortByCount(st.counts.order, st.counts), st.rules)
  }

  function Start(): (st: State)
    ensures st.Valid()
  {
    State(map[], NoCounts)
  }

  /** One `reject` pass of `BNF.read`'s loop: converts each rule of the worklist in
      turn, recording the ones that convert and keeping the ones that do not. */
  method RunPass(worklist: seq<Rule>, rules: map<string, Pattern>, counts: Tally)
    returns (rules': map<string, Pattern>, counts': Tally, kept: seq<Rule>)
    ensures (State(rules', counts'), kept) == Pass(worklist, 0, State(rules, counts), [])
  {
    rules', counts', kept := rules, counts, [];
    var i := 0;
    while i < |worklist|
      invariant i <= |worklist|
      invariant Pass(worklist, i, State(rules', counts'), kept) == Pass(worklist, 0, State(rules, counts), [])
    {
      var rule := worklist[i];
      var c := ConvertExpression(rule.name, rule.alts, rules', counts');
      counts' := c.1;
      if c.0.Some? {
        counts' := counts'.Touch(rule.name);
        rules' := rules'[rule.name := c.0.value];
      } else {
        kept := kept + [rule];
      }
      i := i + 1;
    }
  }

  /** The post-parse part of `BNF.read`: passes until one makes no progress, then
      lists the converted rules by ascending reference count. */
  method Read(grammar: seq<Rule>) returns (result: seq<(string, Pattern)>)
    ensures result == Listing(Fixpoint(grammar, Start()).0)
  {
    var rules: map<string, Pattern> := map[];
    var counts := NoCounts;
    var worklist := grammar;
    while true
      invariant State(rules, counts).Valid()
      invariant Fixpoint(worklist, State(rules, counts)) == Fixpoint(grammar, Start())
      decreases |worklist|
    {
      var rules', counts', kept := RunPass(worklist, rules, counts);
      assert |kept| <= |worklist|;
      if |kept| == |worklist| {
        assert Fixpoint(worklist, State(rules, counts)) == (State(rules', counts'), kept);
        rules, counts := rules', counts';
        break;
      }
      assert Fixpoint(worklist, State(rules, counts)) == Fixpoint(kept, State(rules', counts'));
      rules, counts, worklist := rules', counts', kept;
    }
    result := Listing(State(rules, counts));
  }
}
