/** What the backtracking matcher of `Parsers::RecursiveDescent` computes.

    `Visit` is the meaning of the private `visit`: it interprets a pattern
    against the input from a cursor position. The source recurses without
    bound (a left-recursive rule or a zero-length repetition never
    returns), so the model takes a fuel argument: every nested visit uses
    one unit, while the passes of a repetition are bounded by their count
    or, without a maximum, by the input that is left. Running out is
    reported as `OutOfFuel`, never as a failure; so is a repetition that
    would spin forever on an empty match. `Raised` is the
    ArgumentError the source raises for a pattern it does not know (and
    the RegexpError of an empty character range).
 */
module Matching {
  import opened Grammar

  /** The rule table that `Rec` proxies index into. */
  type Rules = map<string, Pattern>

  /** The outcome of one visit: the match (None is nil) and the cursor after it. */
  datatype Res = Done(value: Option<Tree>, pos: nat) | Raised | OutOfFuel

  /** The outcome of `parse`: the forest (None is nil). */
  datatype ParseRes = Parsed(forest: Option<seq<Tree>>) | ParseRaised | ParseOutOfFuel

  /** `input.scan(Regexp.escape(t))` at `pos`: the input continues with `t`. */
  predicate StartsWithAt(s: string, pos: nat, t: string)
  {
    pos + |t| <= |s| && s[pos..pos + |t|] == t
  }

  /** A Concatenation element whose failure does not fail the Concatenation. */
  predicate Tolerated(e: Pattern)
  {
    e.Rec? || IsOptional(e)
  }

  /** The value of a finished Repetition: a bare value or nil for `optional?`, else the list. */
  function Collect(opt: bool, items: seq<Tree>): Option<Tree>
  {
    if opt && |items| <= 1 then (if items == [] then None else Some(items[0]))
    else Some(List(items))
  }

  /** How many attempts a Repetition makes after its minimum: `maximum - (minimum or 0)`, or None for no maximum. */
  function Extra(min: Option<nat>, max: Option<nat>): Option<nat>
  {
    if max.None? then None
    else if max.value >= min.GetOr(0) then Some(max.value - min.GetOr(0))
    else Some(0)
  }

  function Visit(g: Rules, s: string, p: Pattern, pos: nat, fuel: nat): Res
    decreases fuel, 0, 0
  {
    if fuel == 0 then OutOfFuel
    else match p
      case Lit(t) =>
        if StartsWithAt(s, pos, t) then Done(Some(Text(t)), pos + |t|) else Done(None, pos)
      case CharRange(lo, hi) =>
        if lo > hi then Raised
        else if pos < |s| && lo <= s[pos] <= hi then Done(Some(Text([s[pos]])), pos + 1)
        else Done(None, pos)
      case Alt(alts) => AltLoop(g, s, alts, 0, pos, None, pos, pos, fuel - 1)
      case Cat(elems) => CatLoop(g, s, elems, 0, pos, [], pos, fuel - 1)
      case Rep(inner, min, max) =>
        RepeatMinimum(g, s, inner, min.GetOr(0), Extra(min, max), IsOptional(p), [], pos, fuel - 1)
      case Rec(r) => if r in g then Visit(g, s, g[r], pos, fuel - 1) else Raised
      case _ => Raised
  }

  /** The Alternation loop from branch `i`: `best` is the longest match so far and
      ends at `bestPos`; `cur` is where the cursor was left by the last branch. */
  function AltLoop(g: Rules, s: string, alts: seq<Pattern>, i: nat, start: nat,
                   best: Option<Tree>, bestPos: nat, cur: nat, fuel: nat): Res
    requires i <= |alts|
    decreases fuel, 1, |alts| - i
  {
    if i == |alts| then
      (if best.Some? then Done(Some(AltMatch(Alt(alts), best.value, start)), bestPos) else Done(None, cur))
    else if alts[i] == Lit("") then
      (if best.None? then AltLoop(g, s, alts, i + 1, start, Some(Text("")), start, start, fuel)
       else AltLoop(g, s, alts, i + 1, start, best, bestPos, start, fuel))
    else
      match Visit(g, s, alts[i], start, fuel)
      case Done(m, q) =>
        if m.Some? && q > bestPos then AltLoop(g, s, alts, i + 1, start, m, q, q, fuel)
        else AltLoop(g, s, alts, i + 1, start, best, bestPos, q, fuel)
      case other => other
  }

  /** The Concatenation loop from element `i`, `parts` holding the earlier results. */
  function CatLoop(g: Rules, s: string, elems: seq<Pattern>, i: nat, start: nat,
                   parts: seq<Option<Tree>>, cur: nat, fuel: nat): Res
    requires i <= |elems|
    decreases fuel, 1, |elems| - i
  {
    if i == |elems| then Done(Some(CatMatch(Cat(elems), parts, start)), cur)
    else
      match Visit(g, s, elems[i], cur, fuel)
      case Done(m, q) =>
        if m.None? && !Tolerated(elems[i]) then Done(None, start)
        else CatLoop(g, s, elems, i + 1, start, parts + [m], q, fuel)
      case other => other
  }

  /** The `minimum.times` loop with `k` mandatory attempts left; a failed attempt
      is rewound to where it began and fails the Repetition. */
  function RepeatMinimum(g: Rules, s: string, inner: Pattern, k: nat, extra: Option<nat>, opt: bool,
                         items: seq<Tree>, cur: nat, fuel: nat): Res
    decreases fuel, 2, k
  {
    if k == 0 then
      (if extra.Some? then RepeatUpTo(g, s, inner, extra.value, opt, items, cur, fuel)
       else RepeatUnbounded(g, s, inner, opt, items, cur, fuel))
    else
      match Visit(g, s, inner, cur, fuel)
      case Done(m, q) =>
        if m.Some? then RepeatMinimum(g, s, inner, k - 1, extra, opt, items + [m.value], q, fuel)
        else Done(None, cur)
      case other => other
  }

  /** The `(maximum - minimum).times` loop with `k` attempts left; a failed attempt
      is rewound and ends the Repetition. */
  function RepeatUpTo(g: Rules, s: string, inner: Pattern, k: nat, opt: bool,
                      items: seq<Tree>, cur: nat, fuel: nat): Res
    decreases fuel, 1, k
  {
    if k == 0 then Done(Collect(opt, items), cur)
    else
      match Visit(g, s, inner, cur, fuel)
      case Done(m, q) =>
        if m.Some? then RepeatUpTo(g, s, inner, k - 1, opt, items + [m.value], q, fuel)
        else Done(Collect(opt, items), cur)
      case other => other
  }

  /** The `loop do` of a Repetition without maximum: it stops when an attempt fails
      (rewound) or a successful attempt ends at the end of the input. An attempt that
      succeeds without moving the cursor, away from the end, would be repeated forever
      from the same state: the source never returns, and the model says `OutOfFuel`. */
  function RepeatUnbounded(g: Rules, s: string, inner: Pattern, opt: bool,
                           items: seq<Tree>, cur: nat, fuel: nat): Res
    decreases fuel, 1, |s| - cur
  {
    match Visit(g, s, inner, cur, fuel)
    case Done(m, q) =>
      if m.None? then Done(Collect(opt, items), cur)
      else if q >= |s| then Done(Collect(opt, items + [m.value]), q)
      else if q <= cur then OutOfFuel
      else RepeatUnbounded(g, s, inner, opt, items + [m.value], q, fuel)
    case other => other
  }

  /** `parse`: every root is visited in turn from where the previous one left the
      cursor; failures are dropped, and an empty forest is nil. */
  function ParseRoots(g: Rules, s: string, roots: seq<Pattern>, i: nat, pos: nat,
                      forest: seq<Tree>, fuel: nat): ParseRes
    requires i <= |roots|
    decreases |roots| - i
  {
    if i == |roots| then Parsed(if forest == [] then None else Some(forest))
    else
      match Visit(g, s, roots[i], pos, fuel)
      case Done(m, q) => ParseRoots(g, s, roots, i + 1, q, if m.Some? then forest + [m.value] else forest, fuel)
      case Raised => ParseRaised
      case OutOfFuel => ParseOutOfFuel
  }

  /** `q` is a cursor position reachable from `from`: never behind it, and never past
      the end of the input when `from` was not. */
  predicate Within(s: string, from: nat, q: nat)
  {
    from <= q && (from <= |s| ==> q <= |s|)
  }

  /** A visit never moves the cursor backward, and never past the end of the input. */
  lemma {:induction false} VisitStaysWithin(g: Rules, s: string, p: Pattern, pos: nat, fuel: nat)
    ensures Visit(g, s, p, pos, fuel).Done? ==> Within(s, pos, Visit(g, s, p, pos, fuel).pos)
    decreases fuel, 0, 0
  {
    if fuel > 0 {
      match p
      case Alt(alts) => AltLoopStaysWithin(g, s, alts, 0, pos, None, pos, pos, fuel - 1);
      case Cat(elems) => CatLoopStaysWithin(g, s, elems, 0, pos, [], pos, fuel - 1);
      case Rep(inner, min, max) =>
        RepeatMinimumStaysWithin(g, s, inner, min.GetOr(0), Extra(min, max), IsOptional(p), [], pos, fuel - 1);
      case Rec(r) => if r in g { VisitStaysWithin(g, s, g[r], pos, fuel - 1); }
      case _ =>
    }
  }

  lemma {:induction false} AltLoopStaysWithin(g: Rules, s: string, alts: seq<Pattern>, i: nat, start: nat,
                                               best: Option<Tree>, bestPos: nat, cur: nat, fuel: nat)
    requires i <= |alts|
    requires Within(s, start, bestPos) && Within(s, start, cur)
    ensures AltLoop(g, s, alts, i, start, best, bestPos, cur, fuel).Done? ==>
              Within(s, start, AltLoop(g, s, alts, i, start, best, bestPos, cur, fuel).pos)
    decreases fuel, 1, |alts| - i
  {
    if i < |alts| {
      if alts[i] == Lit("") {
        if best.None? {
          AltLoopStaysWithin(g, s, alts, i + 1, start, Some(Text("")), start, start, fuel);
        } else {
          AltLoopStaysWithin(g, s, alts, i + 1, start, best, bestPos, start, fuel);
        }
      } else {
        VisitStaysWithin(g, s, alts[i], start, fuel);
        match Visit(g, s, alts[i], start, fuel)
        case Done(m, q) =>
          if m.Some? && q > bestPos {
            AltLoopStaysWithin(g, s, alts, i + 1, start, m, q, q, fuel);
          } else {
            AltLoopStaysWithin(g, s, alts, i + 1, start, best, bestPos, q, fuel);
          }
        case _ =>
      }
    }
  }

  lemma {:induction false} CatLoopStaysWithin(g: Rules, s: string, elems: seq<Pattern>, i: nat, start: nat,
                                               parts: seq<Option<Tree>>, cur: nat, fuel: nat)
    requires i <= |elems|
    requires Within(s, start, cur)
    ensures CatLoop(g, s, elems, i, start, parts, cur, fuel).Done? ==>
              Within(s, start, CatLoop(g, s, elems, i, start, parts, cur, fuel).pos)
    decreases fuel, 1, |elems| - i
  {
    if i < |elems| {
      VisitStaysWithin(g, s, elems[i], cur, fuel);
      match Visit(g, s, elems[i], cur, fuel)
      case Done(m, q) =>
        if !(m.None? && !Tolerated(elems[i])) {
          CatLoopStaysWithin(g, s, elems, i + 1, start, parts + [m], q, fuel);
        }
      case _ =>
    }
  }

  lemma {:induction false} RepeatMinimumStaysWithin(g: Rules, s: string, inner: Pattern, k: nat, extra: Option<nat>,
                                                     opt: bool, items: seq<Tree>, cur: nat, fuel: nat)
    ensures RepeatMinimum(g, s, inner, k, extra, opt, items, cur, fuel).Done? ==>
              Within(s, cur, RepeatMinimum(g, s, inner, k, extra, opt, items, cur, fuel).pos)
    decreases fuel, 2, k
  {
    if k == 0 {
      if extra.Some? {
        RepeatUpToStaysWithin(g, s, inner, extra.value, opt, items, cur, fuel);
      } else {
        RepeatUnboundedStaysWithin(g, s, inner, opt, items, cur, fuel);
      }
    } else {
      VisitStaysWithin(g, s, inner, cur, fuel);
      match Visit(g, s, inner, cur, fuel)
      case Done(m, q) =>
        if m.Some? {
          RepeatMinimumStaysWithin(g, s, inner, k - 1, extra, opt, items + [m.value], q, fuel);
        }
      case _ =>
    }
  }

  lemma {:induction false} RepeatUpToStaysWithin(g: Rules, s: string, inner: Pattern, k: nat, opt: bool,
                                                  items: seq<Tree>, cur: nat, fuel: nat)
    ensures RepeatUpTo(g, s, inner, k, opt, items, cur, fuel).Done? ==>
              Within(s, cur, RepeatUpTo(g, s, inner, k, opt, items, cur, fuel).pos)
    decreases fuel, 1, k
  {
    if k > 0 {
      VisitStaysWithin(g, s, inner, cur, fuel);
      match Visit(g, s, inner, cur, fuel)
      case Done(m, q) =>
        if m.Some? {
          RepeatUpToStaysWithin(g, s, inner, k - 1, opt, items + [m.value], q, fuel);
        }
      case _ =>
    }
  }

  lemma {:induction false} RepeatUnboundedStaysWithin(g: Rules, s: string, inner: Pattern, opt: bool,
                                                       items: seq<Tree>, cur: nat, fuel: nat)
    ensures RepeatUnbounded(g, s, inner, opt, items, cur, fuel).Done? ==>
              Within(s, cur, RepeatUnbounded(g, s, inner, opt, items, cur, fuel).pos)
    decreases fuel, 1, |s| - cur
  {
    VisitStaysWithin(g, s, inner, cur, fuel);
    match Visit(g, s, inner, cur, fuel)
    case Done(m, q) =>
      if m.Some? && cur < q < |s| {
        RepeatUnboundedStaysWithin(g, s, inner, opt, items + [m.value], q, fuel);
      }
    case _ =>
  }

  /** `p` matched from `start` (the cursor may not have moved). */
  predicate Matches(g: Rules, s: string, p: Pattern, start: nat, fuel: nat)
  {
    Visit(g, s, p, start, fuel).Done? && Visit(g, s, p, start, fuel).value.Some?
  }

  /** Branch `p` of an Alternation matched from `start` and moved the cursor forward. */
  predicate Advances(g: Rules, s: string, p: Pattern, start: nat, fuel: nat)
  {
    var r := Visit(g, s, p, start, fuel);
    r.Done? && r.value.Some? && r.pos > start
  }

  /** Branch `j` of an Alternation can be selected with the match `c` ending at `q`: the
      empty string (at the start), or another branch that matched and moved forward. */
  predicate Selectable(g: Rules, s: string, alts: seq<Pattern>, j: nat, start: nat, fuel: nat, c: Tree, q: nat)
    requires j < |alts|
  {
    if alts[j] == Lit("") then c == Text("") && q == start
    else Visit(g, s, alts[j], start, fuel) == Done(Some(c), q) && q > start
  }

  /** Branch `j` has some match that could be selected ending at `q`. */
  predicate Reaches(g: Rules, s: string, alts: seq<Pattern>, j: nat, start: nat, fuel: nat, q: nat)
    requires j < |alts|
  {
    if alts[j] == Lit("") then q == start
    else Matches(g, s, alts[j], start, fuel) && Visit(g, s, alts[j], start, fuel).pos == q && q > start
  }

  /** The Alternation loop succeeds exactly when it already holds a match, or a later
      branch is the empty string or matches a non-empty prefix. */
  lemma {:induction false} AltLoopSucceeds(g: Rules, s: string, alts: seq<Pattern>, i: nat, start: nat,
                                           best: Option<Tree>, bestPos: nat, cur: nat, fuel: nat)
    requires i <= |alts|
    requires best.None? ==> bestPos == start
    requires AltLoop(g, s, alts, i, start, best, bestPos, cur, fuel).Done?
    ensures AltLoop(g, s, alts, i, start, best, bestPos, cur, fuel).value.Some? <==>
              best.Some? || exists j :: i <= j < |alts| && (alts[j] == Lit("") || Advances(g, s, alts[j], start, fuel))
    decreases |alts| - i
  {
    if i < |alts| {
      if alts[i] == Lit("") {
        AltLoopSucceeds(g, s, alts, i + 1, start, if best.None? then Some(Text("")) else best,
                        if best.None? then start else bestPos, start, fuel);
      } else {
        match Visit(g, s, alts[i], start, fuel)
        case Done(m, q) =>
          if m.Some? && q > bestPos {
            AltLoopSucceeds(g, s, alts, i + 1, start, m, q, q, fuel);
          } else {
            AltLoopSucceeds(g, s, alts, i + 1, start, best, bestPos, q, fuel);
          }
      }
    }
  }

  /** The match the Alternation loop ends with reaches at least as far as the one it
      held and as every later branch that matched. */
  lemma {:induction false} AltLoopFurthest(g: Rules, s: string, alts: seq<Pattern>, i: nat, start: nat,
                                           best: Option<Tree>, bestPos: nat, cur: nat, fuel: nat)
    requires i <= |alts|
    requires best.None? ==> bestPos == start
    requires best.Some? ==> start <= bestPos
    requires AltLoop(g, s, alts, i, start, best, bestPos, cur, fuel).Done?
    ensures var r := AltLoop(g, s, alts, i, start, best, bestPos, cur, fuel);
      r.value.Some? ==>
        bestPos <= r.pos &&
        forall j :: i <= j < |alts| && alts[j] != Lit("") && Matches(g, s, alts[j], start, fuel) ==>
                      Visit(g, s, alts[j], start, fuel).pos <= r.pos
    decreases |alts| - i
  {
    if i < |alts| {
      if alts[i] == Lit("") {
        if best.None? {
          AltLoopFurthest(g, s, alts, i + 1, start, Some(Text("")), start, start, fuel);
        } else {
          AltLoopFurthest(g, s, alts, i + 1, start, best, bestPos, start, fuel);
        }
      } else {
        match Visit(g, s, alts[i], start, fuel)
        case Done(m, q) =>
          if m.Some? && q > bestPos {
            AltLoopFurthest(g, s, alts, i + 1, start, m, q, q, fuel);
          } else {
            AltLoopFurthest(g, s, alts, i + 1, start, best, bestPos, q, fuel);
          }
      }
    }
  }

  /** The match `c` ending at `q` is the one held from before branch `i`, or comes from
      a branch from `i` on that can be selected, ends further than the one held, and is
      the first branch from `i` on that reaches that far. */
  ghost predicate ChosenFrom(g: Rules, s: string, alts: seq<Pattern>, i: nat, start: nat,
                             best: Option<Tree>, bestPos: nat, fuel: nat, c: Tree, q: nat)
  {
    (best == Some(c) && q == bestPos) ||
    exists j :: i <= j < |alts| && Selectable(g, s, alts, j, start, fuel, c, q) &&
                (best.Some? ==> bestPos < q) &&
                forall k :: i <= k < j ==> !Reaches(g, s, alts, k, start, fuel, q)
  }

  /** Branch `i` is the empty string and nothing is held yet: it becomes the held match. */
  lemma ChosenAfterFirstEmpty(g: Rules, s: string, alts: seq<Pattern>, i: nat, start: nat, fuel: nat, c: Tree, q: nat)
    requires i < |alts| && alts[i] == Lit("")
    requires ChosenFrom(g, s, alts, i + 1, start, Some(Text("")), start, fuel, c, q)
    ensures ChosenFrom(g, s, alts, i, start, None, start, fuel, c, q)
  {
    if !(c == Text("") && q == start) {
      var j :| i + 1 <= j < |alts| && Selectable(g, s, alts, j, start, fuel, c, q) && start < q &&
               forall k :: i + 1 <= k < j ==> !Reaches(g, s, alts, k, start, fuel, q);
      assert forall k :: i <= k < j ==> !Reaches(g, s, alts, k, start, fuel, q);
    } else {
      assert Selectable(g, s, alts, i, start, fuel, c, q);
    }
  }

  /** Branch `i` does not replace the held match: it cannot be the first to reach a later winner. */
  lemma ChosenAfterSkipped(g: Rules, s: string, alts: seq<Pattern>, i: nat, start: nat,
                           best: Option<Tree>, bestPos: nat, fuel: nat, c: Tree, q: nat)
    requires i < |alts|
    requires best.None? ==> bestPos == start
    requires best.Some? ==> start <= bestPos
    requires alts[i] == Lit("") ==> best.Some?
    requires alts[i] != Lit("") ==> var v := Visit(g, s, alts[i], start, fuel);
               v.Done? && !(v.value.Some? && v.pos > bestPos)
    requires ChosenFrom(g, s, alts, i + 1, start, best, bestPos, fuel, c, q)
    ensures ChosenFrom(g, s, alts, i, start, best, bestPos, fuel, c, q)
  {
    if !(best == Some(c) && q == bestPos) {
      var j :| i + 1 <= j < |alts| && Selectable(g, s, alts, j, start, fuel, c, q) &&
               (best.Some? ==> bestPos < q) &&
               forall k :: i + 1 <= k < j ==> !Reaches(g, s, alts, k, start, fuel, q);
      assert !Reaches(g, s, alts, i, start, fuel, q);
      assert forall k :: i <= k < j ==> !Reaches(g, s, alts, k, start, fuel, q);
    }
  }

  /** Branch `i` matches further than the held match and becomes the held match. */
  lemma ChosenAfterLonger(g: Rules, s: string, alts: seq<Pattern>, i: nat, start: nat,
                          best: Option<Tree>, bestPos: nat, fuel: nat, m: Tree, p: nat, c: Tree, q: nat)
    requires i < |alts| && alts[i] != Lit("")
    requires start <= bestPos < p
    requires Visit(g, s, alts[i], start, fuel) == Done(Some(m), p)
    requires ChosenFrom(g, s, alts, i + 1, start, Some(m), p, fuel, c, q)
    ensures ChosenFrom(g, s, alts, i, start, best, bestPos, fuel, c, q)
  {
    if m == c && q == p {
      assert Selectable(g, s, alts, i, start, fuel, c, q);
    } else {
      var j :| i + 1 <= j < |alts| && Selectable(g, s, alts, j, start, fuel, c, q) && p < q &&
               forall k :: i + 1 <= k < j ==> !Reaches(g, s, alts, k, start, fuel, q);
      assert !Reaches(g, s, alts, i, start, fuel, q);
      assert forall k :: i <= k < j ==> !Reaches(g, s, alts, k, start, fuel, q);
    }
  }

  /** The match the Alternation loop ends with is the one it held, or comes from a
      later branch that can be selected, ends further than the one held, and is the
      first branch that reaches that far. */
  lemma {:induction false} AltLoopChoice(g: Rules, s: string, alts: seq<Pattern>, i: nat, start: nat,
                                         best: Option<Tree>, bestPos: nat, cur: nat, fuel: nat)
    requires i <= |alts|
    requires best.None? ==> bestPos == start
    requires best.Some? ==> start <= bestPos
    requires AltLoop(g, s, alts, i, start, best, bestPos, cur, fuel).Done?
    ensures var r := AltLoop(g, s, alts, i, start, best, bestPos, cur, fuel);
      r.value.Some? ==>
        exists c :: r.value == Some(AltMatch(Alt(alts), c, start)) &&
          ChosenFrom(g, s, alts, i, start, best, bestPos, fuel, c, r.pos)
    decreases |alts| - i
  {
    var r := AltLoop(g, s, alts, i, start, best, bestPos, cur, fuel);
    if i == |alts| {
      if r.value.Some? {
        assert r.value == Some(AltMatch(Alt(alts), best.value, start)) &&
               ChosenFrom(g, s, alts, i, start, best, bestPos, fuel, best.value, r.pos);
      }
    } else if alts[i] == Lit("") {
      if best.None? {
        AltLoopChoice(g, s, alts, i + 1, start, Some(Text("")), start, start, fuel);
        if r.value.Some? {
          var c :| r.value == Some(AltMatch(Alt(alts), c, start)) &&
            ChosenFrom(g, s, alts, i + 1, start, Some(Text("")), start, fuel, c, r.pos);
          ChosenAfterFirstEmpty(g, s, alts, i, start, fuel, c, r.pos);
        }
      } else {
        AltLoopChoice(g, s, alts, i + 1, start, best, bestPos, start, fuel);
        if r.value.Some? {
          var c :| r.value == Some(AltMatch(Alt(alts), c, start)) &&
            ChosenFrom(g, s, alts, i + 1, start, best, bestPos, fuel, c, r.pos);
          ChosenAfterSkipped(g, s, alts, i, start, best, bestPos, fuel, c, r.pos);
        }
      }
    } else {
      match Visit(g, s, alts[i], start, fuel)
      case Done(m, q) =>
        if m.Some? && q > bestPos {
          AltLoopChoice(g, s, alts, i + 1, start, m, q, q, fuel);
          if r.value.Some? {
            var c :| r.value == Some(AltMatch(Alt(alts), c, start)) &&
              ChosenFrom(g, s, alts, i + 1, start, m, q, fuel, c, r.pos);
            ChosenAfterLonger(g, s, alts, i, start, best, bestPos, fuel, m.value, q, c, r.pos);
          }
        } else {
          AltLoopChoice(g, s, alts, i + 1, start, best, bestPos, q, fuel);
          if r.value.Some? {
            var c :| r.value == Some(AltMatch(Alt(alts), c, start)) &&
              ChosenFrom(g, s, alts, i + 1, start, best, bestPos, fuel, c, r.pos);
            ChosenAfterSkipped(g, s, alts, i, start, best, bestPos, fuel, c, r.pos);
          }
        }
    }
  }

  /** An Alternation's result: the branch that ends furthest wins (the empty string
      counts as a match of length zero), and it fails exactly when no branch is the
      empty string and none matches a non-empty prefix. */
  lemma AlternationLongestMatch(g: Rules, s: string, alts: seq<Pattern>, pos: nat, fuel: nat)
    requires Visit(g, s, Alt(alts), pos, fuel + 1).Done?
    ensures var r := Visit(g, s, Alt(alts), pos, fuel + 1);
      r.value.Some? <==> exists j :: 0 <= j < |alts| && (alts[j] == Lit("") || Advances(g, s, alts[j], pos, fuel))
    ensures var r := Visit(g, s, Alt(alts), pos, fuel + 1);
      r.value.Some? ==>
        forall j :: 0 <= j < |alts| && alts[j] != Lit("") && Matches(g, s, alts[j], pos, fuel) ==>
                      Visit(g, s, alts[j], pos, fuel).pos <= r.pos
    ensures var r := Visit(g, s, Alt(alts), pos, fuel + 1);
      r.value.Some? ==>
        exists c, j :: r.value == Some(AltMatch(Alt(alts), c, pos)) && 0 <= j < |alts| &&
          Selectable(g, s, alts, j, pos, fuel, c, r.pos) &&
          forall k :: 0 <= k < j ==> !Reaches(g, s, alts, k, pos, fuel, r.pos)
  {
    AltLoopSucceeds(g, s, alts, 0, pos, None, pos, pos, fuel);
    AltLoopFurthest(g, s, alts, 0, pos, None, pos, pos, fuel);
    AltLoopChoice(g, s, alts, 0, pos, None, pos, pos, fuel);
  }

  lemma {:induction false} CatLoopShape(g: Rules, s: string, elems: seq<Pattern>, i: nat, start: nat,
                                        parts: seq<Option<Tree>>, cur: nat, fuel: nat)
    requires i <= |elems| && |parts| == i
    requires forall k :: 0 <= k < i && parts[k].None? ==> Tolerated(elems[k])
    requires CatLoop(g, s, elems, i, start, parts, cur, fuel).Done?
    ensures var r := CatLoop(g, s, elems, i, start, parts, cur, fuel);
      r.value.None? ==> r.pos == start
    ensures var r := CatLoop(g, s, elems, i, start, parts, cur, fuel);
      r.value.Some? ==>
        r.value.value.CatMatch? && r.value.value.pattern == Cat(elems) && r.value.value.start == start &&
        |r.value.value.parts| == |elems| && r.value.value.parts[..i] == parts &&
        forall k :: 0 <= k < |elems| && r.value.value.parts[k].None? ==> Tolerated(elems[k])
    decreases |elems| - i
  {
    if i < |elems| {
      match Visit(g, s, elems[i], cur, fuel)
      case Done(m, q) =>
        if !(m.None? && !Tolerated(elems[i])) {
          CatLoopShape(g, s, elems, i + 1, start, parts + [m], q, fuel);
          var r := CatLoop(g, s, elems, i + 1, start, parts + [m], q, fuel);
          if r.value.Some? {
            assert r.value.value.parts[..i] == (parts + [m])[..i];
          }
        }
    }
  }

  /** A Concatenation either fails with the cursor rewound to where it started, or
      yields one part per element, where only a Recursion or an optional element may
      have been left unmatched (nil). */
  lemma ConcatenationAllOrNothing(g: Rules, s: string, elems: seq<Pattern>, pos: nat, fuel: nat)
    requires Visit(g, s, Cat(elems), pos, fuel).Done?
    ensures var r := Visit(g, s, Cat(elems), pos, fuel);
      r.value.None? ==> r.pos == pos
    ensures var r := Visit(g, s, Cat(elems), pos, fuel);
      r.value.Some? ==>
        exists parts: seq<Option<Tree>> :: r.value == Some(CatMatch(Cat(elems), parts, pos)) && |parts| == |elems| &&
          forall k :: 0 <= k < |elems| && parts[k].None? ==> Tolerated(elems[k])
  {
    CatLoopShape(g, s, elems, 0, pos, [], pos, fuel - 1);
  }

  /** The number of matches a Repetition collects, whatever form `Collect` gives them. */
  ghost predicate Collected(opt: bool, v: Option<Tree>, lo: nat, hi: Option<nat>)
  {
    exists all: seq<Tree> :: v == Collect(opt, all) && lo <= |all| && (hi.Some? ==> |all| <= hi.value)
  }

  lemma {:induction false} RepeatUpToCount(g: Rules, s: string, inner: Pattern, k: nat, opt: bool,
                                           items: seq<Tree>, cur: nat, fuel: nat)
    requires RepeatUpTo(g, s, inner, k, opt, items, cur, fuel).Done?
    ensures Collected(opt, RepeatUpTo(g, s, inner, k, opt, items, cur, fuel).value, |items|, Some(|items| + k))
    decreases k
  {
    if k == 0 {
      assert RepeatUpTo(g, s, inner, k, opt, items, cur, fuel).value == Collect(opt, items);
    } else {
      match Visit(g, s, inner, cur, fuel)
      case Done(m, q) =>
        if m.Some? {
          RepeatUpToCount(g, s, inner, k - 1, opt, items + [m.value], q, fuel);
          var v := RepeatUpTo(g, s, inner, k - 1, opt, items + [m.value], q, fuel).value;
          var all :| v == Collect(opt, all) && |items| + 1 <= |all| && |all| <= |items| + 1 + (k - 1);
          assert v == Collect(opt, all) && |items| <= |all| && |all| <= |items| + k;
        } else {
          assert RepeatUpTo(g, s, inner, k, opt, items, cur, fuel).value == Collect(opt, items);
        }
    }
  }

  lemma {:induction false} RepeatUnboundedCount(g: Rules, s: string, inner: Pattern, opt: bool,
                                                items: seq<Tree>, cur: nat, fuel: nat)
    requires RepeatUnbounded(g, s, inner, opt, items, cur, fuel).Done?
    ensures Collected(opt, RepeatUnbounded(g, s, inner, opt, items, cur, fuel).value, |items|, None)
    decreases |s| - cur
  {
    match Visit(g, s, inner, cur, fuel)
    case Done(m, q) =>
      if m.None? {
        assert RepeatUnbounded(g, s, inner, opt, items, cur, fuel).value == Collect(opt, items);
      } else if q >= |s| {
        assert RepeatUnbounded(g, s, inner, opt, items, cur, fuel).value == Collect(opt, items + [m.value]);
      } else {
        RepeatUnboundedCount(g, s, inner, opt, items + [m.value], q, fuel);
        var v := RepeatUnbounded(g, s, inner, opt, items + [m.value], q, fuel).value;
        var all :| v == Collect(opt, all) && |items| + 1 <= |all|;
        assert v == Collect(opt, all) && |items| <= |all|;
      }
  }

  lemma {:induction false} RepeatMinimumCount(g: Rules, s: string, inner: Pattern, k: nat, extra: Option<nat>,
                                              opt: bool, items: seq<Tree>, cur: nat, fuel: nat)
    requires RepeatMinimum(g, s, inner, k, extra, opt, items, cur, fuel).Done?
    ensures var r := RepeatMinimum(g, s, inner, k, extra, opt, items, cur, fuel);
      (r.value.None? && k > 0) ||
      Collected(opt, r.value, |items| + k, if extra.Some? then Some(|items| + k + extra.value) else None)
    decreases k
  {
    if k == 0 {
      if extra.Some? {
        RepeatUpToCount(g, s, inner, extra.value, opt, items, cur, fuel);
      } else {
        RepeatUnboundedCount(g, s, inner, opt, items, cur, fuel);
      }
    } else {
      match Visit(g, s, inner, cur, fuel)
      case Done(m, q) =>
        if m.Some? {
          RepeatMinimumCount(g, s, inner, k - 1, extra, opt, items + [m.value], q, fuel);
        }
    }
  }

  /** The attempt of `inner` at `pos` finishes without a match. */
  ghost predicate FailsAt(g: Rules, s: string, inner: Pattern, pos: nat, fuel: nat)
  {
    Visit(g, s, inner, pos, fuel).Done? && Visit(g, s, inner, pos, fuel).value.None?
  }

  /** The bounded loop stops early only at a failed attempt, and the cursor is left
      where that attempt began: it collects its `k` matches, or the attempt at its
      final cursor fails. */
  lemma {:induction false} RepeatUpToStops(g: Rules, s: string, inner: Pattern, k: nat, opt: bool,
                                           items: seq<Tree>, cur: nat, fuel: nat)
    requires RepeatUpTo(g, s, inner, k, opt, items, cur, fuel).Done?
    ensures var r := RepeatUpTo(g, s, inner, k, opt, items, cur, fuel);
      exists all: seq<Tree> :: r.value == Collect(opt, all) && |items| <= |all| <= |items| + k &&
        all[..|items|] == items && (|all| < |items| + k ==> FailsAt(g, s, inner, r.pos, fuel))
    decreases k
  {
    var r := RepeatUpTo(g, s, inner, k, opt, items, cur, fuel);
    if k == 0 {
      assert r.value == Collect(opt, items) && items[..|items|] == items;
    } else {
      match Visit(g, s, inner, cur, fuel)
      case Done(m, q) =>
        if m.Some? {
          RepeatUpToStops(g, s, inner, k - 1, opt, items + [m.value], q, fuel);
          var all :| r.value == Collect(opt, all) && |items| + 1 <= |all| <= |items| + 1 + (k - 1) &&
            all[..|items| + 1] == items + [m.value] &&
            (|all| < |items| + 1 + (k - 1) ==> FailsAt(g, s, inner, r.pos, fuel));
          assert all[..|items|] == (all[..|items| + 1])[..|items|];
        } else {
          assert r == Done(Collect(opt, items), cur) && items[..|items|] == items;
        }
    }
  }

  /** The unbounded loop stops only at a failed attempt, with the cursor left where
      that attempt began, or after a match that reaches the end of the input. */
  lemma {:induction false} RepeatUnboundedStops(g: Rules, s: string, inner: Pattern, opt: bool,
                                                items: seq<Tree>, cur: nat, fuel: nat)
    requires RepeatUnbounded(g, s, inner, opt, items, cur, fuel).Done?
    ensures var r := RepeatUnbounded(g, s, inner, opt, items, cur, fuel);
      r.pos >= |s| || FailsAt(g, s, inner, r.pos, fuel)
    ensures var r := RepeatUnbounded(g, s, inner, opt, items, cur, fuel);
      r.value.None? ==> FailsAt(g, s, inner, r.pos, fuel)
    decreases |s| - cur
  {
    match Visit(g, s, inner, cur, fuel)
    case Done(m, q) =>
      if m.Some? && q < |s| && q > cur {
        RepeatUnboundedStops(g, s, inner, opt, items + [m.value], q, fuel);
      }
  }

  /** Where a Repetition stops. One that falls short of its minimum rewinds only the
      failing attempt: the cursor stays after the attempts that succeeded, where the
      failing one began (also where an optional repetition that matched nothing
      stops). A list that holds fewer than its maximum ends at an attempt that fails
      from the final cursor; one without a maximum ends there or at the end of the input. */
  lemma {:induction false} RepeatStops(g: Rules, s: string, inner: Pattern, k: nat, extra: Option<nat>,
                                       opt: bool, items: seq<Tree>, cur: nat, fuel: nat)
    requires RepeatMinimum(g, s, inner, k, extra, opt, items, cur, fuel).Done?
    ensures var r := RepeatMinimum(g, s, inner, k, extra, opt, items, cur, fuel);
      r.value.None? && (k > 0 || extra != Some(0)) ==> cur <= r.pos && FailsAt(g, s, inner, r.pos, fuel)
    ensures var r := RepeatMinimum(g, s, inner, k, extra, opt, items, cur, fuel);
      (!opt && extra.Some? && r.value.Some? && r.value.value.List? &&
       |r.value.value.items| < |items| + k + extra.value) ==> FailsAt(g, s, inner, r.pos, fuel)
    ensures var r := RepeatMinimum(g, s, inner, k, extra, opt, items, cur, fuel);
      !opt && extra.None? && r.value.Some? ==> r.pos >= |s| || FailsAt(g, s, inner, r.pos, fuel)
    decreases k
  {
    if k == 0 {
      if extra.Some? {
        RepeatUpToStops(g, s, inner, extra.value, opt, items, cur, fuel);
        RepeatUpToStaysWithin(g, s, inner, extra.value, opt, items, cur, fuel);
      } else {
        RepeatUnboundedStops(g, s, inner, opt, items, cur, fuel);
        RepeatUnboundedStaysWithin(g, s, inner, opt, items, cur, fuel);
      }
    } else {
      match Visit(g, s, inner, cur, fuel)
      case Done(m, q) =>
        if m.Some? {
          VisitStaysWithin(g, s, inner, cur, fuel);
          RepeatStops(g, s, inner, k - 1, extra, opt, items + [m.value], q, fuel);
        }
    }
  }

  /** A Repetition collects at least its minimum and at most its maximum matches (exactly
      the minimum when the maximum is below it); it yields nil only when fewer than its
      minimum matched, or when it is optional and nothing matched. */
  lemma RepetitionCount(g: Rules, s: string, inner: Pattern, min: Option<nat>, max: Option<nat>, pos: nat, fuel: nat)
    requires Visit(g, s, Rep(inner, min, max), pos, fuel).Done?
    ensures var r := Visit(g, s, Rep(inner, min, max), pos, fuel);
      r.value.None? ==> min.GetOr(0) > 0 || IsOptional(Rep(inner, min, max))
    ensures var r := Visit(g, s, Rep(inner, min, max), pos, fuel);
      r.value.Some? && !IsOptional(Rep(inner, min, max)) ==>
        r.value.value.List? && min.GetOr(0) <= |r.value.value.items| &&
        (max.Some? && max.value >= min.GetOr(0) ==> |r.value.value.items| <= max.value) &&
        (max.Some? && max.value < min.GetOr(0) ==> |r.value.value.items| == min.GetOr(0))
    ensures var r := Visit(g, s, Rep(inner, min, max), pos, fuel);
      r.value.None? ==> pos <= r.pos && FailsAt(g, s, inner, r.pos, fuel - 1)
    ensures var r := Visit(g, s, Rep(inner, min, max), pos, fuel);
      (r.value.Some? && !IsOptional(Rep(inner, min, max)) && max.Some? &&
       |r.value.value.items| < max.value) ==> FailsAt(g, s, inner, r.pos, fuel - 1)
    ensures var r := Visit(g, s, Rep(inner, min, max), pos, fuel);
      (r.value.Some? && !IsOptional(Rep(inner, min, max)) && max.None?) ==>
        r.pos >= |s| || FailsAt(g, s, inner, r.pos, fuel - 1)
  {
    var opt := IsOptional(Rep(inner, min, max));
    RepeatMinimumCount(g, s, inner, min.GetOr(0), Extra(min, max), opt, [], pos, fuel - 1);
    RepeatStops(g, s, inner, min.GetOr(0), Extra(min, max), opt, [], pos, fuel - 1);
  }
}
