/** `Parsers::RecursiveDescent`: a parser object holding its root patterns, and the
    backtracking `visit` that walks a pattern over a string scanner, moving the
    scanner's cursor as it goes. Every method is proved to compute what `Matching`
    says the pattern means.
 */
module RecursiveDescent {
  import opened Grammar
  import M = Matching

  /** The `StringScanner` the matcher reads from: the input and its cursor. */
  class Scanner {
    const text: string
    var pos: nat

    constructor (text: string)
      ensures this.text == text && pos == 0
    {
      this.text := text;
      pos := 0;
    }

    /** `eos?` */
    predicate AtEnd()
      reads this
    {
      pos >= |text|
    }
  }

  class RecursiveDescent {
    /** The root patterns, in the order they were pushed. */
    var patterns: seq<Pattern>
    /** The bodies of the rules that `Rec` proxies stand for. */
    const rules: M.Rules

    constructor (rules: M.Rules, grammar: Option<Pattern>)
      ensures this.rules == rules
      ensures patterns == if grammar.Some? then [grammar.value] else []
    {
      this.rules := rules;
      patterns := [];
      if grammar.Some? {
        patterns := [grammar.value];
      }
    }

    method Push(pattern: Pattern)
      modifies this
      ensures patterns == old(patterns) + [pattern]
    {
      patterns := patterns + [pattern];
    }

    /** `roots`: the patterns a parse starts from. */
    function Roots(): seq<Pattern>
      reads this
    {
      patterns
    }

    /** Matches every root in turn against one scanner over `input`, keeping the
        matches that succeeded. */
    method Parse(input: string, fuel: nat) returns (r: M.ParseRes)
      ensures r == M.ParseRoots(rules, input, Roots(), 0, 0, [], fuel)
    {
      var scanner := new Scanner(input);
      var forest: seq<Tree> := [];
      var i := 0;
      while i < |patterns|
        invariant i <= |patterns|
        invariant M.ParseRoots(rules, input, patterns, i, scanner.pos, forest, fuel) ==
                  M.ParseRoots(rules, input, patterns, 0, 0, [], fuel)
      {
        var a := Visit(scanner, patterns[i], fuel);
        if a.Raised? {
          return M.ParseRaised;
        } else if a.OutOfFuel? {
          return M.ParseOutOfFuel;
        }
        if a.value.Some? {
          forest := forest + [a.value.value];
        }
        i := i + 1;
      }
      r := M.Parsed(if forest == [] then None else Some(forest));
    }

    /** `visit`: matches `pattern` at the scanner's cursor and leaves the cursor after the match. */
    method Visit(input: Scanner, pattern: Pattern, fuel: nat) returns (r: M.Res)
      modifies input
      ensures r == M.Visit(rules, input.text, pattern, old(input.pos), fuel)
      ensures r.Done? ==> input.pos == r.pos
      decreases fuel, 1
    {
      if fuel == 0 {
        return M.OutOfFuel;
      }
      match pattern
      case Lit(t) =>
        if M.StartsWithAt(input.text, input.pos, t) {
          input.pos := input.pos + |t|;
          r := M.Done(Some(Text(t)), input.pos);
        } else {
          r := M.Done(None, input.pos);
        }
      case CharRange(lo, hi) =>
        if lo > hi {
          r := M.Raised;
        } else if input.pos < |input.text| && lo <= input.text[input.pos] <= hi {
          var c := input.text[input.pos];
          input.pos := input.pos + 1;
          r := M.Done(Some(Text([c])), input.pos);
        } else {
          r := M.Done(None, input.pos);
        }
      case Alt(alts) => r := VisitAlternation(input, alts, fuel - 1);
      case Cat(elems) => r := VisitConcatenation(input, elems, fuel - 1);
      case Rep(_, _, _) => r := VisitRepetition(input, pattern, fuel - 1);
      case Rec(name) =>
        if name in rules {
          r := Visit(input, rules[name], fuel - 1);
        } else {
          r := M.Raised;
        }
      case _ => r := M.Raised;
    }

    /** Tries every branch from the same position and keeps the one that ends furthest. */
    method VisitAlternation(input: Scanner, alts: seq<Pattern>, fuel: nat) returns (r: M.Res)
      modifies input
      ensures r == M.AltLoop(rules, input.text, alts, 0, old(input.pos), None, old(input.pos), old(input.pos), fuel)
      ensures r.Done? ==> input.pos == r.pos
      decreases fuel, 2
    {
      var start := input.pos;
      var longest: Option<Tree> := None;
      var after := start;
      var i := 0;
      while i < |alts|
        invariant i <= |alts|
        invariant M.AltLoop(rules, input.text, alts, i, start, longest, after, input.pos, fuel) ==
                  M.AltLoop(rules, input.text, alts, 0, start, None, start, start, fuel)
      {
        input.pos := start;
        if alts[i] == Lit("") {
          if longest.None? {
            after := input.pos;
            longest := Some(Text(""));
          }
        } else {
          var m := Visit(input, alts[i], fuel);
          if !m.Done? {
            return m;
          }
          if m.value.Some? && input.pos > after {
            after := input.pos;
            longest := m.value;
          }
        }
        i := i + 1;
      }
      if longest.Some? {
        input.pos := after;
        r := M.Done(Some(AltMatch(Alt(alts), longest.value, start)), after);
      } else {
        r := M.Done(None, input.pos);
      }
    }

    /** Matches the elements one after another; a failed element that is neither a
        Recursion nor optional rewinds the cursor and fails the whole. */
    method VisitConcatenation(input: Scanner, elems: seq<Pattern>, fuel: nat) returns (r: M.Res)
      modifies input
      ensures r == M.CatLoop(rules, input.text, elems, 0, old(input.pos), [], old(input.pos), fuel)
      ensures r.Done? ==> input.pos == r.pos
      decreases fuel, 2
    {
      var position := input.pos;
      var matches: seq<Option<Tree>> := [];
      var i := 0;
      while i < |elems|
        invariant i <= |elems|
        invariant M.CatLoop(rules, input.text, elems, i, position, matches, input.pos, fuel) ==
                  M.CatLoop(rules, input.text, elems, 0, position, [], position, fuel)
      {
        var a := Visit(input, elems[i], fuel);
        if !a.Done? {
          return a;
        }
        if a.value.None? && !M.Tolerated(elems[i]) {
          input.pos := position;
          return M.Done(None, position);
        }
        matches := matches + [a.value];
        i := i + 1;
      }
      r := M.Done(Some(CatMatch(Cat(elems), matches, position)), input.pos);
    }

    /** Matches the minimum number of times (failing if it cannot), then up to the
        maximum, or until a failure or the end of the input when there is no maximum. */
    method VisitRepetition(input: Scanner, pattern: Pattern, fuel: nat) returns (r: M.Res)
      requires pattern.Rep?
      modifies input
      ensures r == M.RepeatMinimum(rules, input.text, pattern.inner, pattern.min.GetOr(0), M.Extra(pattern.min, pattern.max),
                                   IsOptional(pattern), [], old(input.pos), fuel)
      ensures r.Done? ==> input.pos == r.pos
      decreases fuel, 2
    {
      ghost var start := input.pos;
      var opt := IsOptional(pattern);
      var lo := pattern.min.GetOr(0);
      var result: seq<Tree> := [];
      var n := 0;
      while n < lo
        invariant n <= lo
        invariant M.RepeatMinimum(rules, input.text, pattern.inner, lo - n, M.Extra(pattern.min, pattern.max), opt, result, input.pos, fuel) ==
                  M.RepeatMinimum(rules, input.text, pattern.inner, lo, M.Extra(pattern.min, pattern.max), opt, [], start, fuel)
      {
        var position := input.pos;
        var a := Visit(input, pattern.inner, fuel);
        if !a.Done? {
          return a;
        }
        if a.value.Some? {
          result := result + [a.value.value];
        } else {
          input.pos := position;
          return M.Done(None, position);
        }
        n := n + 1;
      }
      if pattern.max.Some? {
        var times: int := pattern.max.value - lo;
        var j := 0;
        while j < times
          invariant 0 <= j <= M.Extra(pattern.min, pattern.max).value
          invariant M.RepeatUpTo(rules, input.text, pattern.inner, M.Extra(pattern.min, pattern.max).value - j, opt, result, input.pos, fuel) ==
                    M.RepeatMinimum(rules, input.text, pattern.inner, lo, M.Extra(pattern.min, pattern.max), opt, [], start, fuel)
        {
          var position := input.pos;
          var a := Visit(input, pattern.inner, fuel);
          if !a.Done? {
            return a;
          }
          if a.value.Some? {
            result := result + [a.value.value];
          } else {
            input.pos := position;
            break;
          }
          j := j + 1;
        }
      } else {
        while true
          invariant M.RepeatUnbounded(rules, input.text, pattern.inner, opt, result, input.pos, fuel) ==
                    M.RepeatMinimum(rules, input.text, pattern.inner, lo, M.Extra(pattern.min, pattern.max), opt, [], start, fuel)
          decreases |input.text| - input.pos
        {
          var position := input.pos;
          var a := Visit(input, pattern.inner, fuel);
          if !a.Done? {
            return a;
          }
          if a.value.Some? {
            result := result + [a.value.value];
          } else {
            input.pos := position;
            break;
          }
          if input.AtEnd() {
            break;
          }
          if input.pos <= position {
            // the next attempt would start from the same state: the source never returns
            return M.OutOfFuel;
          }
        }
      }
      r := M.Done(M.Collect(opt, result), input.pos);
    }
  }
}
