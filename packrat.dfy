/** `Parsers::Packrat`: the recursive-descent matcher with a memo table.

    Every visit of a pattern other than a String at a position is remembered as
    the distance the cursor moved and the result; a later visit of the same
    pattern at the same position advances the cursor by that distance and returns
    the remembered result without matching again. The table is emptied at the
    start of every parse.

    A remembered result may have been computed with more fuel than a later visit
    has left, so a memoised visit can finish where the plain meaning runs out of
    fuel. What it returns is therefore stated against the meaning at every fuel:
    it is never contradicted by any amount of fuel that finishes (`Consistent`).
 */
module Packrat {
  import opened Grammar
  import M = Matching
  import RecursiveDescent

  /** `a` is `b`, or the matcher gave up before reaching `b`. */
  predicate Refines(a: M.Res, b: M.Res)
  {
    a == M.OutOfFuel || a == b
  }

  /** The same for the outcome of a whole parse. */
  predicate ParseRefines(a: M.ParseRes, b: M.ParseRes)
  {
    a == M.ParseOutOfFuel || a == b
  }

  /** The memo table: (position, pattern) to (cursor advance, result). */
  type Cache = map<(nat, Pattern), (nat, Option<Tree>)>

  /** Every entry is what the pattern means at that position, with whatever fuel finishes. */
  ghost predicate Sound(g: M.Rules, s: string, cache: Cache)
  {
    forall key, f: nat | key in cache ::
      Refines(M.Visit(g, s, key.1, key.0, f), M.Done(cache[key].1, key.0 + cache[key].0))
  }

  /** `r` is what `p` means at `pos` whenever the meaning finishes, and it is the
      meaning itself when the meaning finishes with `fuel`. */
  ghost predicate Consistent(g: M.Rules, s: string, p: Pattern, pos: nat, fuel: nat, r: M.Res)
  {
    Refines(M.Visit(g, s, p, pos, fuel), r) &&
    (r == M.OutOfFuel || forall f: nat :: Refines(M.Visit(g, s, p, pos, f), r))
  }

  /** `b` still holds every entry of `a`, unchanged: the cache only ever gains entries. */
  predicate Keeps(a: Cache, b: Cache)
  {
    forall k :: k in a ==> k in b && b[k] == a[k]
  }

  /** A Concatenation that failed was remembered with a cursor advance of 0, since it
      rewinds the cursor before it returns. */
  predicate FailuresStayPut(cache: Cache)
  {
    forall k | k in cache && k.1.Cat? && cache[k].1.None? :: cache[k].0 == 0
  }

  /** One attempt of the `times` loop, as `Matching.RepeatUpTo` takes it. */
  lemma UpToStep(g: M.Rules, s: string, inner: Pattern, k: nat, opt: bool, items: seq<Tree>, cur: nat, a: M.Res)
    requires 0 < k && a != M.OutOfFuel && forall f: nat :: Refines(M.Visit(g, s, inner, cur, f), a)
    ensures a.Raised? ==> forall f: nat :: Refines(M.RepeatUpTo(g, s, inner, k, opt, items, cur, f), a)
    ensures a.Done? && a.value.None? ==>
              forall f: nat :: Refines(M.RepeatUpTo(g, s, inner, k, opt, items, cur, f), M.Done(M.Collect(opt, items), cur))
    ensures a.Done? && a.value.Some? ==>
              forall f: nat :: Refines(M.RepeatUpTo(g, s, inner, k, opt, items, cur, f),
                                       M.RepeatUpTo(g, s, inner, k - 1, opt, items + [a.value.value], a.pos, f))
  {
    forall f: nat ensures Refines(M.Visit(g, s, inner, cur, f), a) {
    }
  }

  /** One attempt of the unbounded repetition loop, read through the meaning: what
      the attempt's outcome leaves of the rest of the repetition. */
  lemma UnboundedStep(g: M.Rules, s: string, inner: Pattern, opt: bool, items: seq<Tree>, cur: nat, a: M.Res)
    requires a != M.OutOfFuel && forall f: nat :: Refines(M.Visit(g, s, inner, cur, f), a)
    ensures a.Raised? ==> forall f: nat :: Refines(M.RepeatUnbounded(g, s, inner, opt, items, cur, f), a)
    ensures a.Done? && a.value.None? ==>
              forall f: nat :: Refines(M.RepeatUnbounded(g, s, inner, opt, items, cur, f), M.Done(M.Collect(opt, items), cur))
    ensures a.Done? && a.value.Some? && a.pos >= |s| ==>
              forall f: nat :: Refines(M.RepeatUnbounded(g, s, inner, opt, items, cur, f),
                                       M.Done(M.Collect(opt, items + [a.value.value]), a.pos))
    ensures a.Done? && a.value.Some? && cur < a.pos < |s| ==>
              forall f: nat :: Refines(M.RepeatUnbounded(g, s, inner, opt, items, cur, f),
                                       M.RepeatUnbounded(g, s, inner, opt, items + [a.value.value], a.pos, f))
  {
    forall f: nat ensures Refines(M.Visit(g, s, inner, cur, f), a) {
    }
  }

  class Packrat {
    var patterns: seq<Pattern>
    const rules: M.Rules
    var cache: Cache
    /** The input the cache describes. */
    ghost var text: string

    ghost predicate Valid()
      reads this
    {
      Sound(rules, text, cache) && FailuresStayPut(cache)
    }

    constructor (rules: M.Rules, grammar: Option<Pattern>)
      ensures this.rules == rules && cache == map[] && Valid()
      ensures patterns == if grammar.Some? then [grammar.value] else []
    {
      this.rules := rules;
      patterns := if grammar.Some? then [grammar.value] else [];
      cache := map[];
      text := [];
    }

    method Push(pattern: Pattern)
      modifies this
      ensures patterns == old(patterns) + [pattern]
      ensures cache == old(cache) && text == old(text)
    {
      patterns := patterns + [pattern];
    }

    /** Starts from an empty cache, then matches every root in turn from where the
        previous one left the cursor, keeping the matches that succeeded. */
    method Parse(input: string, fuel: nat) returns (r: M.ParseRes)
      modifies this
      ensures patterns == old(patterns) && text == input && Valid()
      ensures ParseRefines(M.ParseRoots(rules, input, patterns, 0, 0, [], fuel), r)
      ensures r == M.ParseOutOfFuel || forall f: nat :: ParseRefines(M.ParseRoots(rules, input, patterns, 0, 0, [], f), r)
    {
      cache := map[];
      text := input;
      var scanner := new RecursiveDescent.Scanner(input);
      var forest: seq<Tree> := [];
      var i := 0;
      while i < |patterns|
        invariant i <= |patterns| && patterns == old(patterns) && text == input && Valid()
        invariant forall f: nat ::
          ParseRefines(M.ParseRoots(rules, input, patterns, 0, 0, [], f), M.ParseRoots(rules, input, patterns, i, scanner.pos, forest, f))
      {
        ghost var pos0 := scanner.pos;
        assert forall f: nat :: ParseRefines(M.ParseRoots(rules, input, patterns, 0, 0, [], f),
                                             M.ParseRoots(rules, input, patterns, i, pos0, forest, f));
        var a := Visit(scanner, patterns[i], fuel);
        if a.OutOfFuel? {
          return M.ParseOutOfFuel;
        }
        if a.Raised? {
          assert forall f: nat :: ParseRefines(M.ParseRoots(rules, input, patterns, i, pos0, forest, f), M.ParseRaised);
          return M.ParseRaised;
        }
        assert forall f: nat :: ParseRefines(M.ParseRoots(rules, input, patterns, i, pos0, forest, f),
                                             M.ParseRoots(rules, input, patterns, i + 1, scanner.pos,
                                                          if a.value.Some? then forest + [a.value.value] else forest, f));
        if a.value.Some? {
          forest := forest + [a.value.value];
        }
        i := i + 1;
      }
      r := M.Parsed(if forest == [] then None else Some(forest));
    }

    /** The memoising `visit`: Strings go straight to the matcher; any other pattern
        already visited at this position is answered from the cache; otherwise it
        is matched and the outcome is stored, nil results included. */
    method Visit(input: RecursiveDescent.Scanner, pattern: Pattern, fuel: nat) returns (r: M.Res)
      requires Valid() && input.text == text
      modifies this, input
      ensures Valid() && text == old(text) && patterns == old(patterns)
      ensures Consistent(rules, input.text, pattern, old(input.pos), fuel, r)
      ensures r.Done? ==> input.pos == r.pos && old(input.pos) <= r.pos
      ensures Keeps(old(cache), cache)
      ensures pattern.Lit? ==> cache == old(cache)
      ensures !pattern.Lit? && (old(input.pos), pattern) in old(cache) ==>
                cache == old(cache) &&
                r == M.Done(old(cache)[(old(input.pos), pattern)].1, old(input.pos) + old(cache)[(old(input.pos), pattern)].0)
      ensures !pattern.Lit? && (old(input.pos), pattern) !in old(cache) && r.Done? ==>
                (old(input.pos), pattern) in cache && cache[(old(input.pos), pattern)] == (r.pos - old(input.pos), r.value)
      ensures pattern.Cat? && r.Done? && r.value.None? ==> r.pos == old(input.pos)
      decreases fuel, 1
    {
      if pattern.Lit? {
        r := VisitPattern(input, pattern, fuel);
      } else if (input.pos, pattern) in cache {
        var entry := cache[(input.pos, pattern)];
        input.pos := input.pos + entry.0;
        r := M.Done(entry.1, input.pos);
      } else {
        var position := input.pos;
        r := VisitPattern(input, pattern, fuel);
        if r.Done? {
          cache := cache[(position, pattern) := (input.pos - position, r.value)];
        }
      }
    }

    /** The matcher's own case analysis, whose nested visits go through the cache. */
    method VisitPattern(input: RecursiveDescent.Scanner, pattern: Pattern, fuel: nat) returns (r: M.Res)
      requires Valid() && input.text == text
      modifies this, input
      ensures Valid() && text == old(text) && patterns == old(patterns)
      ensures Consistent(rules, input.text, pattern, old(input.pos), fuel, r)
      ensures r.Done? ==> input.pos == r.pos && old(input.pos) <= r.pos
      ensures Keeps(old(cache), cache)
      ensures pattern.Lit? ==> cache == old(cache)
      ensures pattern.Cat? && r.Done? && r.value.None? ==> r.pos == old(input.pos)
      decreases fuel, 0
    {
      if fuel == 0 {
        return M.OutOfFuel;
      }
      ghost var start := input.pos;
      match pattern
      case Lit(t) =>
        if M.StartsWithAt(input.text, input.pos, t) {
          input.pos := input.pos + |t|;
          r := M.Done(Some(Text(t)), input.pos);
        } else {
          r := M.Done(None, input.pos);
        }
        assert forall f: nat :: f > 0 ==> M.Visit(rules, text, pattern, start, f) == r;
      case CharRange(lo, hi) =>
        if lo > hi {
          r := M.Raised;
        } else if input.pos < |input.text| && lo <= input.text[input.pos] <= hi {
          var c := input.text[input.pos];
          input.pos := input.pos + 1;
          r := M.Done(Some(Text([c])), input.pos);
        } else {
          r := M.Done(None, input.pos);
        }
        assert forall f: nat :: f > 0 ==> M.Visit(rules, text, pattern, start, f) == r;
      case Alt(alts) =>
        r := VisitAlternation(input, alts, fuel - 1);
        if r != M.OutOfFuel {
          forall f: nat | f > 0
            ensures Refines(M.Visit(rules, text, pattern, start, f), r)
          {
            assert M.Visit(rules, text, pattern, start, f) == M.AltLoop(rules, text, alts, 0, start, None, start, start, f - 1);
          }
        }
      case Cat(elems) =>
        r := VisitConcatenation(input, elems, fuel - 1);
        if r != M.OutOfFuel {
          forall f: nat | f > 0
            ensures Refines(M.Visit(rules, text, pattern, start, f), r)
          {
            assert M.Visit(rules, text, pattern, start, f) == M.CatLoop(rules, text, elems, 0, start, [], start, f - 1);
          }
        }
      case Rep(inner, min, max) =>
        r := VisitRepetition(input, pattern, fuel - 1);
        if r != M.OutOfFuel {
          forall f: nat | f > 0
            ensures Refines(M.Visit(rules, text, pattern, start, f), r)
          {
            var g := f - 1;
            assert M.Visit(rules, text, pattern, start, f) ==
                   M.RepeatMinimum(rules, text, inner, min.GetOr(0), M.Extra(min, max), IsOptional(pattern), [], start, g);
            assert Refines(M.RepeatMinimum(rules, text, pattern.inner, pattern.min.GetOr(0), M.Extra(pattern.min, pattern.max),
                                           IsOptional(pattern), [], start, g), r);
          }
        }
      case Rec(name) =>
        if name in rules {
          r := Visit(input, rules[name], fuel - 1);
          assert forall f: nat :: f > 0 ==>
            M.Visit(rules, text, pattern, start, f) == M.Visit(rules, text, rules[name], start, f - 1);
        } else {
          r := M.Raised;
          assert forall f: nat :: f > 0 ==> M.Visit(rules, text, pattern, start, f) == r;
        }
      case _ =>
        r := M.Raised;
        assert forall f: nat :: f > 0 ==> M.Visit(rules, text, pattern, start, f) == r;
    }

    /** Tries every branch from the same position and keeps the one that ends furthest. */
    method VisitAlternation(input: RecursiveDescent.Scanner, alts: seq<Pattern>, fuel: nat) returns (r: M.Res)
      requires Valid() && input.text == text
      modifies this, input
      ensures Valid() && text == old(text) && patterns == old(patterns)
      ensures Refines(M.AltLoop(rules, text, alts, 0, old(input.pos), None, old(input.pos), old(input.pos), fuel), r)
      ensures r == M.OutOfFuel ||
              forall f: nat :: Refines(M.AltLoop(rules, text, alts, 0, old(input.pos), None, old(input.pos), old(input.pos), f), r)
      ensures r.Done? ==> input.pos == r.pos && old(input.pos) <= r.pos
      ensures Keeps(old(cache), cache)
      decreases fuel, 2
    {
      var start := input.pos;
      var longest: Option<Tree> := None;
      var after := start;
      var i := 0;
      while i < |alts|
        invariant i <= |alts| && Valid() && text == old(text) && patterns == old(patterns) && Keeps(old(cache), cache)
        invariant start <= after && start <= input.pos
        invariant forall f: nat :: Refines(M.AltLoop(rules, text, alts, 0, start, None, start, start, f),
                                           M.AltLoop(rules, text, alts, i, start, longest, after, input.pos, f))
      {
        input.pos := start;
        if alts[i] == Lit("") {
          if longest.None? {
            after := input.pos;
            longest := Some(Text(""));
          }
        } else {
          ghost var (l0, a0) := (longest, after);
          var m := Visit(input, alts[i], fuel);
          if m.OutOfFuel? {
            return m;
          }
          if m.Raised? {
            assert forall f: nat :: Refines(M.AltLoop(rules, text, alts, i, start, l0, a0, start, f), m);
            return m;
          }
          if m.value.Some? && input.pos > after {
            after := input.pos;
            longest := m.value;
          }
          assert forall f: nat :: Refines(M.AltLoop(rules, text, alts, i, start, l0, a0, start, f),
                                          M.AltLoop(rules, text, alts, i + 1, start, longest, after, input.pos, f));
        }
        i := i + 1;
      }
      if longest.Some? {
        input.pos := after;
        r := M.Done(Some(AltMatch(Alt(alts), longest.value, start)), after);
      } else {
        r := M.Done(None, input.pos);
      }
    }

    /** Matches the elements one after another; a failed element that is neither a
        Recursion nor optional rewinds the cursor and fails the whole. */
    method VisitConcatenation(input: RecursiveDescent.Scanner, elems: seq<Pattern>, fuel: nat) returns (r: M.Res)
      requires Valid() && input.text == text
      modifies this, input
      ensures Valid() && text == old(text) && patterns == old(patterns)
      ensures Refines(M.CatLoop(rules, text, elems, 0, old(input.pos), [], old(input.pos), fuel), r)
      ensures r == M.OutOfFuel ||
              forall f: nat :: Refines(M.CatLoop(rules, text, elems, 0, old(input.pos), [], old(input.pos), f), r)
      ensures r.Done? ==> input.pos == r.pos && old(input.pos) <= r.pos
      ensures r.Done? && r.value.None? ==> r.pos == old(input.pos)
      ensures Keeps(old(cache), cache)
      decreases fuel, 2
    {
      var position := input.pos;
      var matches: seq<Option<Tree>> := [];
      var i := 0;
      while i < |elems|
        invariant i <= |elems| && Valid() && text == old(text) && patterns == old(patterns) && Keeps(old(cache), cache)
        invariant position <= input.pos
        invariant forall f: nat :: Refines(M.CatLoop(rules, text, elems, 0, position, [], position, f),
                                           M.CatLoop(rules, text, elems, i, position, matches, input.pos, f))
      {
        ghost var (m0, p0) := (matches, input.pos);
        var a := Visit(input, elems[i], fuel);
        if a.OutOfFuel? {
          return a;
        }
        if a.Raised? {
          assert forall f: nat :: Refines(M.CatLoop(rules, text, elems, i, position, m0, p0, f), a);
          return a;
        }
        if a.value.None? && !M.Tolerated(elems[i]) {
          input.pos := position;
          assert forall f: nat :: Refines(M.CatLoop(rules, text, elems, i, position, m0, p0, f), M.Done(None, position));
          return M.Done(None, position);
        }
        matches := matches + [a.value];
        assert forall f: nat :: Refines(M.CatLoop(rules, text, elems, i, position, m0, p0, f),
                                        M.CatLoop(rules, text, elems, i + 1, position, matches, input.pos, f));
        i := i + 1;
      }
      r := M.Done(Some(CatMatch(Cat(elems), matches, position)), input.pos);
    }

    /** Matches the minimum number of times (failing if it cannot), then up to the
        maximum, or until a failure or the end of the input when there is no maximum. */
    method VisitRepetition(input: RecursiveDescent.Scanner, pattern: Pattern, fuel: nat) returns (r: M.Res)
      requires pattern.Rep?
      requires Valid() && input.text == text
      modifies this, input
      ensures Valid() && text == old(text) && patterns == old(patterns)
      ensures Refines(M.RepeatMinimum(rules, text, pattern.inner, pattern.min.GetOr(0), M.Extra(pattern.min, pattern.max),
                                      IsOptional(pattern), [], old(input.pos), fuel), r)
      ensures r == M.OutOfFuel ||
              forall f: nat :: Refines(M.RepeatMinimum(rules, text, pattern.inner, pattern.min.GetOr(0), M.Extra(pattern.min, pattern.max),
                                                       IsOptional(pattern), [], old(input.pos), f), r)
      ensures r.Done? ==> input.pos == r.pos && old(input.pos) <= r.pos
      ensures Keeps(old(cache), cache)
      decreases fuel, 3
    {
      ghost var start := input.pos;
      var inner := pattern.inner;
      var opt := IsOptional(pattern);
      var lo := pattern.min.GetOr(0);
      var extra := M.Extra(pattern.min, pattern.max);
      var result: seq<Tree> := [];
      var n := 0;
      while n < lo
        invariant n <= lo && Valid() && text == old(text) && patterns == old(patterns) && Keeps(old(cache), cache)
        invariant start <= input.pos
        invariant forall f: nat :: Refines(M.RepeatMinimum(rules, text, inner, lo, extra, opt, [], start, f),
                                           M.RepeatMinimum(rules, text, inner, lo - n, extra, opt, result, input.pos, f))
      {
        var position := input.pos;
        ghost var items := result;
        ghost var k := lo - n;
        var a := Visit(input, inner, fuel);
        if a.OutOfFuel? {
          return a;
        }
        if a.Raised? {
          assert forall f: nat :: Refines(M.RepeatMinimum(rules, text, inner, k, extra, opt, items, position, f), a);
          return a;
        }
        if a.value.Some? {
          result := result + [a.value.value];
        } else {
          input.pos := position;
          assert forall f: nat :: Refines(M.RepeatMinimum(rules, text, inner, k, extra, opt, items, position, f),
                                          M.Done(None, position));
          return M.Done(None, position);
        }
        assert forall f: nat :: Refines(M.RepeatMinimum(rules, text, inner, k, extra, opt, items, position, f),
                                        M.RepeatMinimum(rules, text, inner, k - 1, extra, opt, result, input.pos, f));
        n := n + 1;
      }
      ghost var position := input.pos;
      if extra.Some? {
        r := VisitUpTo(input, inner, extra.value, opt, result, fuel);
      } else {
        r := VisitUnbounded(input, inner, opt, result, fuel);
      }
      if r != M.OutOfFuel {
        forall f: nat
          ensures Refines(M.RepeatMinimum(rules, text, inner, lo, extra, opt, [], start, f), r)
        {
          assert n == lo;
          assert Refines(M.RepeatMinimum(rules, text, inner, lo, extra, opt, [], start, f),
                         M.RepeatMinimum(rules, text, inner, 0, extra, opt, result, position, f));
          if extra.Some? {
            assert Refines(M.RepeatUpTo(rules, text, inner, extra.value, opt, result, position, f), r);
          } else {
            assert Refines(M.RepeatUnbounded(rules, text, inner, opt, result, position, f), r);
          }
        }
      }
    }

    /** The `(maximum - minimum).times` loop: up to `times` more attempts, stopping at
        the first failure, which is rewound. */
    method VisitUpTo(input: RecursiveDescent.Scanner, inner: Pattern, times: nat, opt: bool, items: seq<Tree>, fuel: nat)
      returns (r: M.Res)
      requires Valid() && input.text == text
      modifies this, input
      ensures Valid() && text == old(text) && patterns == old(patterns)
      ensures r == M.OutOfFuel ||
              forall f: nat :: Refines(M.RepeatUpTo(rules, text, inner, times, opt, items, old(input.pos), f), r)
      ensures Refines(M.RepeatUpTo(rules, text, inner, times, opt, items, old(input.pos), fuel), r)
      ensures r.Done? ==> input.pos == r.pos && old(input.pos) <= r.pos
      ensures Keeps(old(cache), cache)
      decreases fuel, 2
    {
      ghost var start := input.pos;
      var result := items;
      var j := 0;
      while j < times
        invariant 0 <= j <= times && Valid() && text == old(text) && patterns == old(patterns) && Keeps(old(cache), cache)
        invariant start <= input.pos
        invariant forall f: nat :: Refines(M.RepeatUpTo(rules, text, inner, times, opt, items, start, f),
                                           M.RepeatUpTo(rules, text, inner, times - j, opt, result, input.pos, f))
      {
        var position := input.pos;
        ghost var before := result;
        ghost var k := times - j;
        var a := Visit(input, inner, fuel);
        if a.OutOfFuel? {
          return a;
        }
        UpToStep(rules, text, inner, k, opt, before, position, a);
        if a.Raised? {
          return a;
        }
        if a.value.Some? {
          result := result + [a.value.value];
        } else {
          input.pos := position;
          return M.Done(M.Collect(opt, result), input.pos);
        }
        j := j + 1;
      }
      r := M.Done(M.Collect(opt, result), input.pos);
    }

    /** The `loop do` of a Repetition without maximum: attempts until one fails (and
        is rewound) or the cursor reaches the end of the input. */
    method VisitUnbounded(input: RecursiveDescent.Scanner, inner: Pattern, opt: bool, items: seq<Tree>, fuel: nat)
      returns (r: M.Res)
      requires Valid() && input.text == text
      modifies this, input
      ensures Valid() && text == old(text) && patterns == old(patterns)
      ensures r == M.OutOfFuel ||
              forall f: nat :: Refines(M.RepeatUnbounded(rules, text, inner, opt, items, old(input.pos), f), r)
      ensures Refines(M.RepeatUnbounded(rules, text, inner, opt, items, old(input.pos), fuel), r)
      ensures r.Done? ==> input.pos == r.pos && old(input.pos) <= r.pos
      ensures Keeps(old(cache), cache)
      decreases fuel, 2
    {
      ghost var start := input.pos;
      var result := items;
      while true
        invariant Valid() && text == old(text) && patterns == old(patterns) && Keeps(old(cache), cache)
        invariant start <= input.pos
        invariant forall f: nat :: Refines(M.RepeatUnbounded(rules, text, inner, opt, items, start, f),
                                           M.RepeatUnbounded(rules, text, inner, opt, result, input.pos, f))
        decreases |input.text| - input.pos
      {
        var position := input.pos;
        ghost var before := result;
        var a := Visit(input, inner, fuel);
        if a.OutOfFuel? {
          return a;
        }
        UnboundedStep(rules, text, inner, opt, before, position, a);
        if a.Raised? {
          return a;
        }
        if a.value.Some? {
          result := result + [a.value.value];
        } else {
          input.pos := position;
          return M.Done(M.Collect(opt, result), input.pos);
        }
        if input.AtEnd() {
          return M.Done(M.Collect(opt, result), input.pos);
        }
        if input.pos <= position {
          // the next attempt would start from the same state: the source never returns
          return M.OutOfFuel;
        }
      }
    }
  }
}
