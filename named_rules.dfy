/** `Parsers::NamedRules`: a table of converted rules, the reference graph between
    them, and the preparation `to_ruby` makes before it writes the rules out. It
    orders the rules so that each follows the rules it uses, breaks reference cycles,
    and moves the rules of each cycle into the rule that starts the cycle.
 */
module NamedRules {
  import opened Grammar
  import opened Conversion

  /** A Ruby Hash with string keys: the keys in insertion order and the entries. */
  datatype Table<V> = Table(keys: seq<string>, entries: map<string, V>)
  {
    predicate Valid()
    {
      Distinct(keys) && entries.Keys == set k | k in keys
    }

    /** `hash[k]`: the entry, or nil. */
    function Get(k: string): Option<V>
    {
      if k in entries then Some(entries[k]) else None
    }

    /** `hash[k] = v`: a new key goes last, an existing key keeps its place. */
    function Set(k: string, v: V): (r: Table<V>)
      ensures Valid() ==> r.Valid()
      ensures forall x :: r.Get(x) == if x == k then Some(v) else Get(x)
      ensures keys <= r.keys
    {
      if k in entries then Table(keys, entries[k := v]) else Table(keys + [k], entries[k := v])
    }
  }

  const EmptyTable: Table<Pattern> := Table([], map[])

  /** The values of `keys`, in order. */
  function ValuesOf<V>(keys: seq<string>, entries: map<string, V>): (r: seq<V>)
    requires forall k :: k in keys ==> k in entries
    ensures |r| == |keys|
    ensures forall i :: 0 <= i < |keys| ==> r[i] == entries[keys[i]]
  {
    if keys == [] then [] else [entries[keys[0]]] + ValuesOf(keys[1..], entries)
  }

  // ----- Construction and accessors -----

  /** An argument of `NamedRules.new`: a Hash of rules, or anything else. */
  datatype Arg = HashArg(table: Table<Pattern>) | OtherArg

  /** The keys of `s` that are not among `seen`, in their order in `s`. */
  function NewKeys(s: seq<string>, seen: seq<string>): seq<string>
  {
    if s == [] then [] else (if s[0] in seen then [] else [s[0]]) + NewKeys(s[1..], seen)
  }

  /** Taking the first key of `s` into `seen` when it is new leaves the same keys to
      come, provided `s` does not hold it again. */
  lemma NewKeysStep(s: seq<string>, seen: seq<string>)
    requires s != [] && s[0] !in s[1..]
    ensures (if s[0] in seen then seen else seen + [s[0]]) + NewKeys(s[1..], if s[0] in seen then seen else seen + [s[0]])
            == seen + NewKeys(s, seen)
  {
    if s[0] !in seen {
      NewKeysIgnoreOthers(s[1..], seen, s[0]);
    }
  }

  /** A key that `s` does not hold changes nothing about which keys of `s` are new. */
  lemma {:induction false} NewKeysIgnoreOthers(s: seq<string>, seen: seq<string>, k: string)
    requires k !in s
    ensures NewKeys(s, seen + [k]) == NewKeys(s, seen)
  {
    if s != [] {
      NewKeysIgnoreOthers(s[1..], seen, k);
    }
  }

  /** `h.update(a)` from key `i` of `a` on: the keys of `h` keep their places and the
      keys only `a` has follow, in `a`'s order. */
  function Update(h: Table<Pattern>, a: Table<Pattern>, i: nat): (r: Table<Pattern>)
    requires h.Valid() && a.Valid() && i <= |a.keys|
    ensures r.Valid()
    ensures forall x :: r.Get(x) == if x in a.keys[i..] then a.Get(x) else h.Get(x)
    ensures r.keys == h.keys + NewKeys(a.keys[i..], h.keys)
    decreases |a.keys| - i
  {
    if i == |a.keys| then h
    else
      var k := a.keys[i];
      var h' := h.Set(k, a.entries[k]);
      var r := Update(h', a, i + 1);
      UpdateStep(h, a, i, r);
      r
  }

  /** The step of `Update` at key `i` of `a`: setting that key, then the keys after
      it, sets every key from `i` on. */
  lemma UpdateStep(h: Table<Pattern>, a: Table<Pattern>, i: nat, r: Table<Pattern>)
    requires h.Valid() && a.Valid() && i < |a.keys|
    requires var h' := h.Set(a.keys[i], a.entries[a.keys[i]]);
             (forall x :: r.Get(x) == if x in a.keys[i + 1..] then a.Get(x) else h'.Get(x)) &&
             r.keys == h'.keys + NewKeys(a.keys[i + 1..], h'.keys)
    ensures forall x :: r.Get(x) == if x in a.keys[i..] then a.Get(x) else h.Get(x)
    ensures r.keys == h.keys + NewKeys(a.keys[i..], h.keys)
  {
    var k := a.keys[i];
    assert a.keys[i..] == [k] + a.keys[i + 1..];
    assert k !in a.keys[i + 1..] by {
      forall m | i + 1 <= m < |a.keys| ensures a.keys[m] != k {
        assert a.keys[i] == k;
      }
    }
    NewKeysStep(a.keys[i..], h.keys);
  }

  /** The rule a name gets from `args`: the entry of the last Hash that has it. */
  function LastEntry(args: seq<Arg>, k: string): Option<Pattern>
  {
    if args == [] then None
    else
      var last := args[|args| - 1];
      if last.HashArg? && k in last.table.entries then Some(last.table.entries[k])
      else LastEntry(args[..|args| - 1], k)
  }

  predicate HashesValid(args: seq<Arg>)
  {
    forall k :: 0 <= k < |args| && args[k].HashArg? ==> args[k].table.Valid()
  }

  /** `initialize(*args)`: the Hash arguments merged from left to right; other
      arguments are ignored. */
  function Initialize(args: seq<Arg>): (r: Table<Pattern>)
    requires HashesValid(args)
    ensures r.Valid()
  {
    if args == [] then EmptyTable
    else
      var init := args[..|args| - 1];
      assert HashesValid(init) by {
        forall k | 0 <= k < |init| && init[k].HashArg? ensures init[k].table.Valid() {
          assert init[k] == args[k];
        }
      }
      var before := Initialize(init);
      var last := args[|args| - 1];
      if last.HashArg? then Update(before, last.table, 0) else before
  }

  /** The merged table is a well-formed Hash in which every name carries the rule of
      the last Hash argument that defines it, and no other name is present. */
  lemma {:induction false} InitializeKeepsTheLastEntry(args: seq<Arg>)
    requires HashesValid(args)
    ensures forall k :: Initialize(args).Get(k) == LastEntry(args, k)
  {
    if args != [] {
      var init := args[..|args| - 1];
      InitializeKeepsTheLastEntry(init);
      var last := args[|args| - 1];
      if last.HashArg? {
        assert last.table.keys[0..] == last.table.keys;
      }
    }
  }

  /** `[]`: the rule of a name, or nil. */
  function Lookup(rules: Table<Pattern>, name: string): (r: Option<Pattern>)
    ensures r.Some? <==> name in rules.entries
  {
    rules.Get(name)
  }

  /** `names` (alias `keys`): the rule names in insertion order. */
  function Names(rules: Table<Pattern>): seq<string>
  {
    rules.keys
  }

  /** `rules` (alias `values`): the rules, in the order of their names. */
  function Rules(rules: Table<Pattern>): seq<Pattern>
    requires rules.Valid()
  {
    ValuesOf(rules.keys, rules.entries)
  }

  /** The accessors agree: `names` lists each rule once, `rules` is aligned with
      it, and `[]` finds exactly the listed names. */
  lemma AccessorsAgree(rules: Table<Pattern>)
    requires rules.Valid()
    ensures |Rules(rules)| == |Names(rules)| && Distinct(Names(rules))
    ensures forall i :: 0 <= i < |Names(rules)| ==> Lookup(rules, Names(rules)[i]) == Some(Rules(rules)[i])
    ensures forall n :: Lookup(rules, n).Some? <==> n in Names(rules)
  {
  }

  // ----- references -----

  /** The nodes `references` understands throughout `p`: strings, alternations,
      concatenations, repetitions and rule references. */
  predicate Supported(p: Pattern)
  {
    match p
    case Lit(_) => true
    case Alt(alts) => forall q :: q in alts ==> Supported(q)
    case Cat(elems) => forall q :: q in elems ==> Supported(q)
    case Rep(inner, _, _) => Supported(inner)
    case RuleRef(_, _) => true
    case RecursiveRef(_) => true
    case _ => false
  }

  /** `p` refers to the rule `n` somewhere below alternations, concatenations and
      repetitions. */
  predicate Mentions(p: Pattern, n: string)
  {
    match p
    case Alt(alts) => exists q :: q in alts && Mentions(q, n)
    case Cat(elems) => exists q :: q in elems && Mentions(q, n)
    case Rep(inner, _, _) => Mentions(inner, n)
    case RuleRef(m, _) => m == n
    case RecursiveRef(m) => m == n
    case _ => false
  }

  /** The `visit` lambda of `references`: the referenced names in order (None when a
      node of another kind raises ArgumentError). */
  function Found(p: Pattern): (r: Option<seq<string>>)
    ensures r.Some? <==> Supported(p)
    ensures r.Some? ==> forall n :: n in r.value <==> Mentions(p, n)
    decreases p, 1
  {
    match p
    case Lit(_) => Some([])
    case Alt(alts) => FoundIn(p, alts, 0)
    case Cat(elems) => FoundIn(p, elems, 0)
    case Rep(inner, _, _) => Found(inner)
    case RuleRef(n, _) => Some([n])
    case RecursiveRef(n) => Some([n])
    case _ => None
  }

  /** The `flat_map` over the elements of an alternation or concatenation, from `i` on. */
  function FoundIn(parent: Pattern, ps: seq<Pattern>, i: nat): (r: Option<seq<string>>)
    requires (parent.Alt? && ps == parent.alts) || (parent.Cat? && ps == parent.elems)
    requires i <= |ps|
    ensures r.Some? <==> forall k :: i <= k < |ps| ==> Supported(ps[k])
    ensures r.Some? ==> forall n :: n in r.value <==> exists k :: i <= k < |ps| && Mentions(ps[k], n)
    decreases parent, 0, |ps| - i
  {
    if i == |ps| then Some([])
    else
      var head := Found(ps[i]);
      var tail := FoundIn(parent, ps, i + 1);
      if head.None? || tail.None? then None
      else
        Some(head.value + tail.value)
  }

  /** Every rule of the table is made only of supported nodes. */
  predicate AllSupported(rules: Table<Pattern>)
  {
    forall k :: k in rules.entries ==> Supported(rules.entries[k])
  }

  /** The `reduce` of `references` from key `i` on. */
  function ReferencesFrom(rules: Table<Pattern>, i: nat, acc: Table<seq<string>>): (r: Option<Table<seq<string>>>)
    requires rules.Valid() && i <= |rules.keys|
    requires acc.Valid() && acc.keys == rules.keys[..i]
    requires forall k :: k in acc.entries ==> Found(rules.entries[k]).Some? && acc.entries[k] == Dedup(Found(rules.entries[k]).value)
    ensures r.None? <==> exists k :: i <= k < |rules.keys| && !Supported(rules.entries[rules.keys[k]])
    ensures r.Some? ==> r.value.Valid() && r.value.keys == rules.keys &&
                        forall k :: k in r.value.entries ==> Found(rules.entries[k]).Some? &&
                                                              r.value.entries[k] == Dedup(Found(rules.entries[k]).value)
    decreases |rules.keys| - i
  {
    if i == |rules.keys| then
      assert rules.keys[..i] == rules.keys;
      Some(acc)
    else
      var name := rules.keys[i];
      var found := Found(rules.entries[name]);
      if found.None? then None
      else
        assert name !in acc.keys;
        assert rules.keys[..i + 1] == rules.keys[..i] + [name];
        ReferencesFrom(rules, i + 1, acc.Set(name, Dedup(found.value)))
  }

  /** `references`: for each rule, the names it refers to, each once, in order of
      first appearance; None when `references` raises ArgumentError. */
  function References(rules: Table<Pattern>): (r: Option<Table<seq<string>>>)
    requires rules.Valid()
  {
    ReferencesFrom(rules, 0, Table([], map[]))
  }

  /** `references` succeeds exactly when every rule is made of supported nodes; it
      then lists, for each rule, exactly the names the rule mentions, each once. */
  lemma ReferencesAreTheMentions(rules: Table<Pattern>)
    requires rules.Valid()
    ensures References(rules).Some? <==> AllSupported(rules)
    ensures References(rules).Some? ==>
              var refs := References(rules).value;
              refs.Valid() && refs.keys == rules.keys &&
              forall k :: k in refs.entries ==>
                Distinct(refs.entries[k]) && forall n :: n in refs.entries[k] <==> Mentions(rules.entries[k], n)
  {
    var r := References(rules);
    if !AllSupported(rules) {
      var k :| k in rules.entries && !Supported(rules.entries[k]);
      var i :| 0 <= i < |rules.keys| && rules.keys[i] == k;
    }
  }

  // ----- find_referers -----

  /** The `reduce` of `find_referers` from key `i` on. */
  function ReferersFrom(node: string, refs: Table<seq<string>>, i: nat): (r: seq<string>)
    requires refs.Valid() && i <= |refs.keys|
    ensures forall x :: x in r <==> x in refs.keys[i..] && node in refs.entries[x]
    ensures Distinct(r)
    decreases |refs.keys| - i
  {
    if i == |refs.keys| then []
    else
      var name := refs.keys[i];
      var rest := ReferersFrom(node, refs, i + 1);
      assert refs.keys[i..] == [name] + refs.keys[i + 1..];
      if node in refs.entries[name] then
        assert name !in refs.keys[i + 1..] by {
          forall j | i + 1 <= j < |refs.keys| ensures refs.keys[j] != name { }
        }
        [name] + rest
      else rest
  }

  /** `find_referers(node, references)`: the rules whose reference list holds `node`,
      in the order of the table. */
  function FindReferers(node: string, refs: Table<seq<string>>): seq<string>
    requires refs.Valid()
  {
    ReferersFrom(node, refs, 0)
  }

  /** A rule is a referer of `node` exactly when it refers to `node`; none is listed
      twice. */
  lemma ReferersReferToTheNode(node: string, refs: Table<seq<string>>)
    requires refs.Valid()
    ensures forall x :: x in FindReferers(node, refs) <==> x in refs.entries && node in refs.entries[x]
    ensures Distinct(FindReferers(node, refs))
  {
    assert refs.keys[0..] == refs.keys;
  }

  // ----- ruby_repetition_suffix -----

  /** The repetition call `ruby_repetition_suffix` chooses for a repetition's bounds. */
  datatype Suffix =
    | NoSuffix                                        // nil, which `rule_to_ruby` cannot append
    | RepeatExactly(n: nat)                           // `.repeat(n)`
    | OptionalSuffix                                  // `.optional`
    | AnySuffix                                       // `.any`
    | AtLeastOne                                      // `.at_least(1)`
    | RepeatBetween(min: Option<nat>, max: Option<nat>)  // `.repeat(min,max)`, nil printing as nothing

  /** `ruby_repetition_suffix(rule)`, on the repetition's minimum and maximum. In Ruby
      only nil is false, so a bound of 0 counts as present. The result is nil exactly
      for a repetition of once (1..1) and for one with no bounds. */
  function RepetitionSuffix(min: Option<nat>, max: Option<nat>): (r: Suffix)
    ensures r.NoSuffix? <==> (min.None? && max.None?) || (min == Some(1) && max == Some(1))
  {
    if max.Some? && min.Some? then
      if max == min then (if max != Some(1) then RepeatExactly(min.value) else NoSuffix)
      else if min == Some(0) && max == Some(1) then OptionalSuffix
      else RepeatBetween(min, max)
    else if max.Some? || min.Some? then
      if max == Some(1) then OptionalSuffix
      else if min == Some(0) then AnySuffix
      else if min == Some(1) then AtLeastOne
      else RepeatBetween(min, max)
    else NoSuffix
  }

  /** The bounds each suffix stands for, read as grammar DSL calls: `optional` is zero
      or one time, `any` any number of times. No suffix is read as a pattern written
      once, though `rule_to_ruby` raises on a nil suffix instead of writing it. */
  function Bounds(s: Suffix): (Option<nat>, Option<nat>)
  {
    match s
    case NoSuffix => (Some(1), Some(1))
    case RepeatExactly(n) => (Some(n), Some(n))
    case OptionalSuffix => (Some(0), Some(1))
    case AnySuffix => (Some(0), None)
    case AtLeastOne => (Some(1), None)
    case RepeatBetween(min, max) => (min, max)
  }

  /** Writing a repetition with a minimum out as a suffix keeps its bounds. */
  lemma SuffixKeepsTheBounds(min: nat, max: Option<nat>)
    ensures Bounds(RepetitionSuffix(Some(min), max)) == (Some(min), max)
  {
  }

  /** Without a minimum, a maximum of 1 is written `.optional`, that is, as zero or
      one time; no bounds at all write nothing. */
  lemma MissingMinimumSuffix(max: Option<nat>)
    ensures max == Some(1) ==> RepetitionSuffix(None, max) == OptionalSuffix
    ensures max.None? ==> RepetitionSuffix(None, max) == NoSuffix
    ensures max.Some? && max != Some(1) ==> RepetitionSuffix(None, max) == RepeatBetween(None, max)
  {
  }

  /** The decimal digits of `n`, as Ruby's string interpolation writes it. */
  function Decimal(n: nat): (r: string)
    ensures |r| >= 1 && forall i :: 0 <= i < |r| ==> '0' <= r[i] <= '9'
  {
    var digit := [['0', '1', '2', '3', '4', '5', '6', '7', '8', '9'][n % 10]];
    if n < 10 then digit else Decimal(n / 10) + digit
  }

  /** The suffix as the text `to_ruby` appends; nil only for no suffix, and otherwise
      a method call. */
  function SuffixText(s: Suffix): (r: Option<string>)
    ensures r.None? <==> s.NoSuffix?
    ensures r.Some? ==> |r.value| >= 2 && r.value[0] == '.'
  {
    match s
    case NoSuffix => None
    case RepeatExactly(n) => Some(".repeat(" + Decimal(n) + ")")
    case OptionalSuffix => Some(".optional")
    case AnySuffix => Some(".any")
    case AtLeastOne => Some(".at_least(1)")
    case RepeatBetween(min, max) =>
      Some(".repeat(" + (if min.Some? then Decimal(min.value) else "") + "," +
           (if max.Some? then Decimal(max.value) else "") + ")")
  }

  /** How Ruby reads a call's text: a comma right before the closing parenthesis adds
      no argument, so `.repeat(n,)` is the call `.repeat(n)`. */
  function AsCalled(text: string): (r: string)
    ensures |r| == |text| || |r| == |text| - 1
  {
    if |text| >= 2 && text[|text| - 2..] == ",)" then text[..|text| - 2] + ")" else text
  }

  /** A repetition of at least `n` (`n` of 2 or more) and one of exactly `n` keep
      different bounds, yet the text written for the first, `.repeat(n,)`, is the
      call written for the second. */
  lemma AtLeastIsWrittenAsExactly(n: nat)
    requires n >= 2
    ensures Bounds(RepetitionSuffix(Some(n), None)) != Bounds(RepetitionSuffix(Some(n), Some(n)))
    ensures SuffixText(RepetitionSuffix(Some(n), None)) == Some(".repeat(" + Decimal(n) + ",)")
    ensures SuffixText(RepetitionSuffix(Some(n), Some(n))) == Some(".repeat(" + Decimal(n) + ")")
    ensures AsCalled(SuffixText(RepetitionSuffix(Some(n), None)).value) == SuffixText(RepetitionSuffix(Some(n), Some(n))).value
  {
    var d := Decimal(n);
    var t := ".repeat(" + d + ",)";
    assert ".repeat(" + d + "," + "" + ")" == t;
    assert t[|t| - 2..] == ",)";
    assert t[..|t| - 2] == ".repeat(" + d;
  }

  /** A suffix with a maximum is read back as the call for its own bounds: the text
      never ends in an empty argument. */
  lemma BoundedSuffixIsCalledAsWritten(min: nat, max: nat)
    ensures var t := SuffixText(RepetitionSuffix(Some(min), Some(max)));
            t.Some? ==> AsCalled(t.value) == t.value
  {
    var s := RepetitionSuffix(Some(min), Some(max));
    if s.RepeatBetween? {
      var d := Decimal(max);
      var t := ".repeat(" + Decimal(min) + "," + d + ")";
      assert SuffixText(s) == Some(t);
      LastArgumentPresent(".repeat(" + Decimal(min) + ",", d);
    } else if s.RepeatExactly? {
      var d := Decimal(min);
      assert SuffixText(s) == Some(".repeat(" + d + ")");
      LastArgumentPresent(".repeat(", d);
    }
  }

  /** A call whose last argument is a number is read as written. */
  lemma LastArgumentPresent(head: string, digits: string)
    requires |digits| >= 1 && forall i :: 0 <= i < |digits| ==> '0' <= digits[i] <= '9'
    ensures AsCalled(head + digits + ")") == head + digits + ")"
  {
    var t := head + digits + ")";
    assert t[|t| - 2] == digits[|digits| - 1];
    assert t[|t| - 2..][0] == t[|t| - 2];
  }

  // ----- sorted_names -----

  /** Each step of `path` follows a reference. */
  predicate Chain(refs: map<string, seq<string>>, path: seq<string>)
  {
    forall i :: 0 <= i < |path| - 1 ==> path[i] in refs && path[i + 1] in refs[path[i]]
  }

  /** `b` is reached from `a` by following references, in zero or more steps. */
  ghost predicate Reaches(refs: map<string, seq<string>>, a: string, b: string)
  {
    exists path :: Chain(refs, path) && |path| >= 1 && path[0] == a && path[|path| - 1] == b
  }

  /** Every name in the graph: the rules and the names they refer to. */
  ghost function Universe(refs: map<string, seq<string>>): set<string>
  {
    refs.Keys + set k, x | k in refs && x in refs[k] :: x
  }

  /** Each rule of `order` comes after every rule it refers to, except one that
      leads back to it. */
  ghost predicate ReferencesFirst(refs: map<string, seq<string>>, order: seq<string>)
  {
    forall i, m :: 0 <= i < |order| && order[i] in refs && m in refs[order[i]] ==>
      m in order[..i] || Reaches(refs, m, order[i])
  }

  /** The state of the depth-first walk of `sorted_names`: the marked names are the
      finished ones and those on the path; a finished rule has all its references
      marked. */
  ghost predicate Sorting(refs: map<string, seq<string>>, marks: set<string>, path: seq<string>, result: seq<string>)
  {
    Distinct(result) && Distinct(path) && (forall x :: x in result ==> x !in path) &&
    (forall x :: x in marks <==> x in result || x in path) &&
    Chain(refs, path) &&
    ReferencesFirst(refs, result) &&
    (forall x, m :: x in result && x in refs && m in refs[x] ==> m in marks)
  }

  /** A later part of a chain is a chain, and leads from its first name to its last. */
  lemma ChainReaches(refs: map<string, seq<string>>, path: seq<string>, k: nat)
    requires Chain(refs, path) && k < |path|
    ensures Reaches(refs, path[k], path[|path| - 1])
  {
    var rest := path[k..];
    assert Chain(refs, rest) by {
      forall i | 0 <= i < |rest| - 1 ensures rest[i] in refs && rest[i + 1] in refs[rest[i]] {
        assert rest[i] == path[k + i] && rest[i + 1] == path[k + i + 1];
      }
    }
  }

  /** A name reached from a reference of `a` is reached from `a`. */
  lemma ReachesThrough(refs: map<string, seq<string>>, a: string, b: string, x: string)
    requires a in refs && b in refs[a] && Reaches(refs, b, x)
    ensures Reaches(refs, a, x)
  {
    var path :| Chain(refs, path) && |path| >= 1 && path[0] == b && path[|path| - 1] == x;
    var longer := [a] + path;
    assert Chain(refs, longer) by {
      forall i | 0 <= i < |longer| - 1 ensures longer[i] in refs && longer[i + 1] in refs[longer[i]] {
        if i > 0 {
          assert longer[i] == path[i - 1] && longer[i + 1] == path[i];
        }
      }
    }
    assert longer[0] == a && longer[|longer| - 1] == x;
  }

  /** `x` is reached from one of the first `n` keys. */
  ghost predicate ReachedBefore(refs: map<string, seq<string>>, keys: seq<string>, n: nat, x: string)
    decreases n
  {
    0 < n && ((n - 1 < |keys| && Reaches(refs, keys[n - 1], x)) || ReachedBefore(refs, keys, n - 1, x))
  }

  /** Each of the first `n` keys comes before every name of `order` that is reached
      neither from it nor from an earlier key, unless it is one of `left`. */
  ghost predicate KeysFirst(refs: map<string, seq<string>>, keys: seq<string>, n: nat, order: seq<string>, left: seq<string>)
  {
    forall a, q :: 0 <= a < n && a < |keys| && 0 <= q < |order| && keys[a] !in left &&
                   !ReachedBefore(refs, keys, a + 1, order[q]) ==>
      keys[a] in order[..q]
  }

  /** Taking `node` onto the path keeps the walk's state. */
  lemma EnterKeepsSorting(refs: map<string, seq<string>>, marks: set<string>, path: seq<string>, node: string, result: seq<string>)
    requires Sorting(refs, marks, path, result) && node !in marks
    requires path != [] ==> path[|path| - 1] in refs && node in refs[path[|path| - 1]]
    ensures Sorting(refs, marks + {node}, path + [node], result)
  {
    var p := path + [node];
    assert Chain(refs, p) by {
      forall i | 0 <= i < |p| - 1 ensures p[i] in refs && p[i + 1] in refs[p[i]] {
        if i < |path| - 1 {
          assert p[i] == path[i] && p[i + 1] == path[i + 1];
        }
      }
    }
  }

  /** Finishing `node`, the last name on the path, once all its references are
      marked keeps the walk's state. */
  lemma FinishKeepsSorting(refs: map<string, seq<string>>, marks: set<string>, path: seq<string>, node: string, result: seq<string>)
    requires Sorting(refs, marks, path + [node], result)
    requires node in refs ==> forall m :: m in refs[node] ==> m in marks
    ensures Sorting(refs, marks, path, result + [node])
  {
    var p := path + [node];
    var r := result + [node];
    assert Chain(refs, path) by {
      forall i | 0 <= i < |path| - 1 ensures path[i] in refs && path[i + 1] in refs[path[i]] {
        assert path[i] == p[i] && path[i + 1] == p[i + 1];
      }
    }
    assert Distinct(path) by {
      forall i, j | 0 <= i < j < |path| ensures path[i] != path[j] {
        assert path[i] == p[i] && path[j] == p[j];
      }
    }
    assert node !in path by {
      forall k | 0 <= k < |path| ensures path[k] != node {
        assert path[k] == p[k] && node == p[|path|];
      }
    }
    assert node !in result by {
      assert node == p[|path|];
    }
    assert Distinct(r) by {
      forall i, j | 0 <= i < j < |r| ensures r[i] != r[j] {
        if j < |result| {
          assert r[i] == result[i] && r[j] == result[j];
        } else {
          assert r[i] == result[i];
        }
      }
    }
    forall i, m | 0 <= i < |r| && r[i] in refs && m in refs[r[i]]
      ensures m in r[..i] || Reaches(refs, m, r[i])
    {
      if i < |result| {
        assert r[i] == result[i] && r[..i] == result[..i];
      } else if m in result {
        assert r[..i] == result;
      } else {
        var k :| 0 <= k < |p| && p[k] == m;
        ChainReaches(refs, p, k);
      }
    }
  }

  /** The `visit` lambda of `sorted_names`: a depth-first walk that lists a rule after
      the rules it refers to. */
  method SortVisit(refs: map<string, seq<string>>, node: string, marks: set<string>, path: seq<string>, result: seq<string>)
    returns (marks': set<string>, result': seq<string>)
    requires node in Universe(refs) && marks <= Universe(refs)
    requires Sorting(refs, marks, path, result)
    requires path != [] ==> path[|path| - 1] in refs && node in refs[path[|path| - 1]]
    ensures Sorting(refs, marks', path, result')
    ensures marks <= marks' <= Universe(refs) && node in marks'
    ensures result <= result'
    ensures forall x :: x in marks' && x !in marks ==> Reaches(refs, node, x)
    decreases Universe(refs) - marks
  {
    if node in marks {
      return marks, result;
    }
    EnterKeepsSorting(refs, marks, path, node, result);
    var p := path + [node];
    marks', result' := marks + {node}, result;
    assert Chain(refs, [node]);
    if node in refs {
      var children := refs[node];
      var i := 0;
      while i < |children|
        invariant i <= |children|
        invariant Sorting(refs, marks', p, result')
        invariant marks + {node} <= marks' <= Universe(refs)
        invariant result <= result'
        invariant forall k :: 0 <= k < i ==> children[k] in marks'
        invariant forall x :: x in marks' && x !in marks ==> Reaches(refs, node, x)
      {
        assert children[i] in refs[node];
        assert children[i] in Universe(refs);
        var before := marks';
        marks', result' := SortVisit(refs, children[i], marks', p, result');
        forall x | x in marks' && x !in before ensures Reaches(refs, node, x) {
          ReachesThrough(refs, node, children[i], x);
        }
        i := i + 1;
      }
    }
    FinishKeepsSorting(refs, marks', path, node, result');
    result' := result' + [node];
  }

  /** `sorted_names(references)`: every rule and every name a rule refers to, once,
      each rule after the rules it refers to unless they lead back to it. The walk
      starts from each key in turn, so a key comes before everything that neither it
      nor an earlier key leads to. */
  method SortedNames(refs: Table<seq<string>>) returns (names: seq<string>)
    requires refs.Valid()
    ensures Distinct(names)
    ensures forall k :: k in refs.entries ==> k in names
    ensures forall x :: x in names ==> x in Universe(refs.entries)
    ensures forall x, m :: x in names && x in refs.entries && m in refs.entries[x] ==> m in names
    ensures ReferencesFirst(refs.entries, names)
    ensures KeysFirst(refs.entries, refs.keys, |refs.keys|, names, [])
  {
    var marks: set<string> := {};
    names := [];
    var i: nat := 0;
    while i < |refs.keys|
      invariant i <= |refs.keys|
      invariant Sorting(refs.entries, marks, [], names)
      invariant marks <= Universe(refs.entries)
      invariant forall k :: 0 <= k < i ==> refs.keys[k] in marks
      invariant forall x :: x in marks ==> ReachedBefore(refs.entries, refs.keys, i, x)
      invariant KeysFirst(refs.entries, refs.keys, i, names, [])
    {
      assert refs.keys[i] in refs.entries;
      ghost var before, listed := marks, names;
      marks, names := SortVisit(refs.entries, refs.keys[i], marks, [], names);
      StartKeepsKeysFirst(refs.entries, refs.keys, i, before, listed, marks, names);
      i := i + 1;
    }
  }

  /** Starting the walk from one more key keeps the keys first: the names it lists
      come after everything listed before, and each is reached from a started key. */
  lemma StartKeepsKeysFirst(refs: map<string, seq<string>>, keys: seq<string>, i: nat, marks: set<string>, names: seq<string>,
                            marks': set<string>, names': seq<string>)
    requires i < |keys| && KeysFirst(refs, keys, i, names, []) && names <= names'
    requires forall k :: 0 <= k < i ==> keys[k] in marks
    requires forall x :: x in marks <==> x in names
    requires forall x :: x in marks' <==> x in names'
    requires forall x :: x in marks ==> ReachedBefore(refs, keys, i, x)
    requires forall x :: x in marks' && x !in marks ==> Reaches(refs, keys[i], x)
    ensures forall x :: x in marks' ==> ReachedBefore(refs, keys, i + 1, x)
    ensures KeysFirst(refs, keys, i + 1, names', [])
  {
    forall a, q | 0 <= a < i + 1 && a < |keys| && 0 <= q < |names'|
      ensures !ReachedBefore(refs, keys, a + 1, names'[q]) ==> keys[a] in names'[..q]
    {
      if a == i {
        assert names'[q] in names';
      } else if q < |names| {
        assert names'[q] == names[q] && names'[..q] == names[..q];
      } else {
        assert keys[a] in names && names <= names'[..q];
      }
    }
  }

  /** Of two keys, the earlier comes first when the later is not reached from it or
      from a key before it. */
  lemma KeyBeforeUnreachedKey(refs: map<string, seq<string>>, keys: seq<string>, names: seq<string>, left: seq<string>,
                              i: nat, j: nat)
    requires KeysFirst(refs, keys, |keys|, names, left)
    requires i < j < |keys| && keys[i] !in left && keys[j] in names && !ReachedBefore(refs, keys, i + 1, keys[j])
    ensures exists a, b :: 0 <= a < b < |names| && names[a] == keys[i] && names[b] == keys[j]
  {
    var b :| 0 <= b < |names| && names[b] == keys[j];
    assert keys[i] in names[..b];
    var a :| 0 <= a < b && names[..b][a] == keys[i];
    assert names[a] == keys[i];
  }

  /** The first step of a chain follows a reference. */
  lemma FirstStep(refs: map<string, seq<string>>, path: seq<string>)
    requires Chain(refs, path) && |path| > 1
    ensures path[0] in refs && path[1] in refs[path[0]]
  {
    assert 0 < |path| - 1;
  }

  /** Two rules that refer to nothing are listed in key order. */
  lemma UnrelatedRulesKeepKeyOrder(names: seq<string>)
    requires KeysFirst(map["rule1" := [], "rule2" := []], ["rule1", "rule2"], 2, names, [])
    requires "rule2" in names
    ensures exists a, b :: 0 <= a < b < |names| && names[a] == "rule1" && names[b] == "rule2"
  {
    var refs: map<string, seq<string>> := map["rule1" := [], "rule2" := []];
    var keys := ["rule1", "rule2"];
    assert !Reaches(refs, "rule1", "rule2") by {
      forall path | Chain(refs, path) && |path| >= 1 && path[0] == "rule1"
        ensures path[|path| - 1] != "rule2"
      {
        if |path| > 1 {
          FirstStep(refs, path);
        }
      }
    }
    assert !ReachedBefore(refs, keys, 1, keys[1]);
    KeyBeforeUnreachedKey(refs, keys, names, [], 0, 1);
  }

  // ----- break_cycles: finding and breaking the cycles -----

  /** `Array#delete`: `s` without any occurrence of `x`. */
  function Remove(s: seq<string>, x: string): (r: seq<string>)
    ensures forall y :: y in r <==> y in s && y != x
  {
    if s == [] then [] else (if s[0] == x then [] else [s[0]]) + Remove(s[1..], x)
  }

  /** Every name a rule refers to is a rule. */
  predicate Defined(refs: map<string, seq<string>>)
  {
    forall k, m :: k in refs && m in refs[k] ==> m in refs
  }

  /** The ghost clock rises along `s`. */
  ghost predicate Rising(clock: map<string, nat>, s: seq<string>)
  {
    (forall i :: 0 <= i < |s| ==> s[i] in clock) &&
    forall i, j :: 0 <= i < j < |s| ==> clock[s[i]] < clock[s[j]]
  }

  /** A recorded cycle of `root` closes with a reference from `last` back to it. */
  ghost predicate Closes(cycles: Table<seq<seq<string>>>, root: string, last: string)
  {
    root in cycles.entries && exists c :: c in cycles.entries[root] && c != [] && c[|c| - 1] == last
  }

  /** A recorded cycle: the members (not the root) in the order of the path that
      found it, each referring to the next; the last referred back to the root in
      the original references and no longer does. */
  ghost predicate CycleOk(orig: map<string, seq<string>>, refs: map<string, seq<string>>, rank: map<string, nat>,
                          root: string, c: seq<string>)
  {
    c != [] && root in orig && Chain(refs, [root] + c) && Rising(rank, [root] + c) &&
    c[|c| - 1] in orig && root in orig[c[|c| - 1]] && c[|c| - 1] in refs && root !in refs[c[|c| - 1]]
  }

  /** The references only lose entries, and each lost one closes a recorded cycle. */
  ghost predicate Shrunk(orig: map<string, seq<string>>, refs: map<string, seq<string>>, cycles: Table<seq<seq<string>>>)
  {
    refs.Keys == orig.Keys &&
    (forall x, m :: x in refs && m in refs[x] ==> m in orig[x]) &&
    (forall x, m :: x in orig && m in orig[x] && m !in refs[x] ==> Closes(cycles, m, x))
  }

  /** The recorded cycles, each well formed. */
  ghost predicate Recorded(orig: map<string, seq<string>>, refs: map<string, seq<string>>, rank: map<string, nat>,
                           cycles: Table<seq<seq<string>>>)
  {
    cycles.Valid() &&
    forall n, c :: n in cycles.entries && c in cycles.entries[n] ==> CycleOk(orig, refs, rank, n, c)
  }

  /** The path: distinct unfinished rules, each referring to the next, entered in order. */
  ghost predicate OnPath(orig: map<string, seq<string>>, refs: map<string, seq<string>>, marks: set<string>,
                         rank: map<string, nat>, path: seq<string>)
  {
    Distinct(path) && Chain(refs, path) && Rising(rank, path) &&
    forall x :: x in path ==> x in orig && x !in marks
  }

  /** The entered rules are the finished ones and those on the path; the clocks
      have numbered each of them before `next`. */
  ghost predicate Clocked(orig: map<string, seq<string>>, marks: set<string>, path: seq<string>,
                          rank: map<string, nat>, finish: map<string, nat>, next: nat)
  {
    (forall x :: x in marks ==> x in orig) &&
    (forall x :: x in rank <==> x in marks || x in path) &&
    (forall x :: x in rank ==> rank[x] < next) &&
    finish.Keys == marks && (forall x :: x in finish ==> finish[x] < next)
  }

  /** A rule not entered yet keeps all its references. */
  ghost predicate Untouched(orig: map<string, seq<string>>, refs: map<string, seq<string>>, rank: map<string, nat>)
  {
    forall x :: x in orig && x !in rank ==> x in refs && refs[x] == orig[x]
  }

  /** A finished rule refers only to itself and to rules finished before it. */
  ghost predicate FinishedFirst(refs: map<string, seq<string>>, marks: set<string>, finish: map<string, nat>)
  {
    forall x, m :: x in marks && x in refs && m in refs[x] && m != x ==> m in marks && x in finish && m in finish && finish[m] < finish[x]
  }

  /** The state of the depth-first walk of `break_cycles`, with ghost clocks that
      number the rules in the order they are entered (`rank`) and finished
      (`finish`). */
  ghost predicate Breaking(orig: map<string, seq<string>>, refs: map<string, seq<string>>, marks: set<string>,
                           path: seq<string>, cycles: Table<seq<seq<string>>>,
                           rank: map<string, nat>, finish: map<string, nat>, next: nat)
  {
    Shrunk(orig, refs, cycles) && Recorded(orig, refs, rank, cycles) && OnPath(orig, refs, marks, rank, path) &&
    Clocked(orig, marks, path, rank, finish, next) && Untouched(orig, refs, rank) && FinishedFirst(refs, marks, finish)
  }

  /** A part of a chain is a chain. */
  lemma SubChain(refs: map<string, seq<string>>, s: seq<string>, a: nat, b: nat)
    requires Chain(refs, s) && a <= b <= |s|
    ensures Chain(refs, s[a..b])
  {
    var t := s[a..b];
    forall i | 0 <= i < |t| - 1 ensures t[i] in refs && t[i + 1] in refs[t[i]] {
      assert t[i] == s[a + i] && t[i + 1] == s[a + i + 1];
    }
  }

  /** A part of a rising sequence rises. */
  lemma SubRising(clock: map<string, nat>, s: seq<string>, a: nat, b: nat)
    requires Rising(clock, s) && a <= b <= |s|
    ensures Rising(clock, s[a..b])
  {
    var t := s[a..b];
    forall i | 0 <= i < |t| ensures t[i] in clock {
      assert t[i] == s[a + i];
    }
    forall i, j | 0 <= i < j < |t| ensures clock[t[i]] < clock[t[j]] {
      assert t[i] == s[a + i] && t[j] == s[a + j];
    }
  }

  /** A later time for a name not yet on the clock keeps every rising sequence rising. */
  lemma RisingLater(clock: map<string, nat>, s: seq<string>, x: string, t: nat)
    requires Rising(clock, s) && x !in clock
    ensures Rising(clock[x := t], s)
  {
    forall i, j | 0 <= i < j < |s| ensures clock[x := t][s[i]] < clock[x := t][s[j]] {
      assert s[i] in clock && s[j] in clock;
    }
  }

  /** Entering a new rule keeps every recorded cycle well formed. */
  lemma RecordedLater(orig: map<string, seq<string>>, refs: map<string, seq<string>>, rank: map<string, nat>,
                      cycles: Table<seq<seq<string>>>, x: string, t: nat)
    requires Recorded(orig, refs, rank, cycles) && x !in rank
    ensures Recorded(orig, refs, rank[x := t], cycles)
  {
    forall n, c | n in cycles.entries && c in cycles.entries[n] ensures CycleOk(orig, refs, rank[x := t], n, c) {
      assert CycleOk(orig, refs, rank, n, c);
      RisingLater(rank, [n] + c, x, t);
    }
  }

  /** Dropping one reference against the clock keeps every rising chain. */
  lemma DropKeepsRisingChain(refs: map<string, seq<string>>, rank: map<string, nat>, s: seq<string>, last: string, node: string)
    requires Chain(refs, s) && Rising(rank, s) && last in refs
    requires last in rank && node in rank && rank[node] < rank[last]
    ensures Chain(refs[last := Remove(refs[last], node)], s)
  {
  }

  /** The position of `x` in `s`. */
  function IndexOf(s: seq<string>, x: string): (k: nat)
    requires x in s
    ensures k < |s| && s[k] == x && x !in s[..k]
  {
    if s[0] == x then 0 else 1 + IndexOf(s[1..], x)
  }

  /** Recording the cycle that `node`, on the path, closes from the last rule of the
      path, and dropping that reference, keeps the walk's state. */
  lemma RecordKeepsBreaking(orig: map<string, seq<string>>, refs: map<string, seq<string>>, marks: set<string>,
                            path: seq<string>, cycles: Table<seq<seq<string>>>,
                            rank: map<string, nat>, finish: map<string, nat>, next: nat,
                            node: string, k: nat, cycle: seq<string>, last: string)
    requires Breaking(orig, refs, marks, path, cycles, rank, finish, next)
    requires k < |path| - 1 && path[k] == node && cycle == path[k + 1..] && last == path[|path| - 1]
    requires node in orig[last]
    ensures Breaking(orig, refs[last := Remove(refs[last], node)], marks, path,
                     cycles.Set(node, cycles.Get(node).GetOr([]) + [cycle]), rank, finish, next)
  {
    assert cycle[|cycle| - 1] == last;
    assert rank[node] < rank[last];
    RecordShrinks(orig, refs, cycles, node, last, cycle);
    RecordKeepsCycles(orig, refs, rank, cycles, node, last, cycle, path, k);
    DropKeepsThePath(orig, refs, marks, rank, path, last, node);
    DropKeepsTheRest(orig, refs, marks, rank, finish, last, node);
  }

  /** Dropping a reference from the last rule of the path to an earlier one keeps
      the path's properties. */
  lemma DropKeepsThePath(orig: map<string, seq<string>>, refs: map<string, seq<string>>, marks: set<string>,
                         rank: map<string, nat>, path: seq<string>, last: string, node: string)
    requires OnPath(orig, refs, marks, rank, path) && last in refs
    requires last in rank && node in rank && rank[node] < rank[last]
    ensures OnPath(orig, refs[last := Remove(refs[last], node)], marks, rank, path)
  {
    DropKeepsRisingChain(refs, rank, path, last, node);
  }

  /** Dropping a reference from an entered rule leaves the rules not entered yet
      alone and keeps finished rules after the rules they refer to. */
  lemma DropKeepsTheRest(orig: map<string, seq<string>>, refs: map<string, seq<string>>, marks: set<string>,
                         rank: map<string, nat>, finish: map<string, nat>, last: string, node: string)
    requires Untouched(orig, refs, rank) && FinishedFirst(refs, marks, finish) && last in refs && last in rank
    ensures Untouched(orig, refs[last := Remove(refs[last], node)], rank)
    ensures FinishedFirst(refs[last := Remove(refs[last], node)], marks, finish)
  {
    var refs' := refs[last := Remove(refs[last], node)];
    forall x | x in orig && x !in rank ensures x in refs' && refs'[x] == orig[x] {
      assert x != last;
    }
    forall x, m | x in marks && x in refs' && m in refs'[x] && m != x
      ensures m in marks && x in finish && m in finish && finish[m] < finish[x]
    {
      if x == last {
        assert m in Remove(refs[last], node);
      } else {
        assert refs'[x] == refs[x];
      }
      assert m in refs[x];
    }
    assert FinishedFirst(refs', marks, finish);
  }

  /** Dropping the reference from `last` to `node` while recording the cycle it
      closes keeps the references shrinking. */
  lemma RecordShrinks(orig: map<string, seq<string>>, refs: map<string, seq<string>>, cycles: Table<seq<seq<string>>>,
                      node: string, last: string, cycle: seq<string>)
    requires Shrunk(orig, refs, cycles) && cycles.Valid() && last in refs
    requires cycle != [] && cycle[|cycle| - 1] == last
    ensures Shrunk(orig, refs[last := Remove(refs[last], node)], cycles.Set(node, cycles.Get(node).GetOr([]) + [cycle]))
  {
    var refs' := refs[last := Remove(refs[last], node)];
    var cycles' := cycles.Set(node, cycles.Get(node).GetOr([]) + [cycle]);
    forall x, m | x in orig && m in orig[x] && m !in refs'[x] ensures Closes(cycles', m, x) {
      if x == last && m == node {
        assert cycle in cycles'.entries[node];
      } else {
        var c :| c in cycles.entries[m] && c != [] && c[|c| - 1] == x;
        assert c in cycles'.entries[m];
      }
    }
  }

  /** Recording the cycle closed by `node` at position `k` of the path keeps every
      recorded cycle well formed, the new one included. */
  lemma RecordKeepsCycles(orig: map<string, seq<string>>, refs: map<string, seq<string>>, rank: map<string, nat>,
                          cycles: Table<seq<seq<string>>>, node: string, last: string, cycle: seq<string>,
                          path: seq<string>, k: nat)
    requires Recorded(orig, refs, rank, cycles) && refs.Keys == orig.Keys
    requires Chain(refs, path) && Rising(rank, path) && forall x :: x in path ==> x in orig
    requires k < |path| - 1 && path[k] == node && last == path[|path| - 1] && cycle == path[k + 1..]
    requires node in orig[last]
    ensures Recorded(orig, refs[last := Remove(refs[last], node)], rank, cycles.Set(node, cycles.Get(node).GetOr([]) + [cycle]))
  {
    var refs' := refs[last := Remove(refs[last], node)];
    var cycles' := cycles.Set(node, cycles.Get(node).GetOr([]) + [cycle]);
    assert rank[node] < rank[last];
    assert [node] + cycle == path[k..];
    DropKeepsRisingChain(refs, rank, path, last, node);
    SubChain(refs', path, k, |path|);
    SubRising(rank, path, k, |path|);
    assert CycleOk(orig, refs', rank, node, cycle);
    forall n, c | n in cycles'.entries && c in cycles'.entries[n] ensures CycleOk(orig, refs', rank, n, c) {
      if n != node || c != cycle {
        assert c in cycles.entries[n];
        DropKeepsRisingChain(refs, rank, [n] + c, last, node);
      }
    }
  }

  /** Taking `node`, neither finished nor on the path, onto the path keeps the walk's
      state; it is entered at time `next`. */
  lemma EnterKeepsBreaking(orig: map<string, seq<string>>, refs: map<string, seq<string>>, marks: set<string>,
                           path: seq<string>, cycles: Table<seq<seq<string>>>,
                           rank: map<string, nat>, finish: map<string, nat>, next: nat, node: string)
    requires Breaking(orig, refs, marks, path, cycles, rank, finish, next)
    requires node in orig && node !in marks && node !in path
    requires path != [] ==> node in refs[path[|path| - 1]]
    ensures Breaking(orig, refs, marks, path + [node], cycles, rank[node := next], finish, next + 1)
  {
    var p := path + [node];
    var rank' := rank[node := next];
    assert Chain(refs, p) by {
      forall i | 0 <= i < |p| - 1 ensures p[i] in refs && p[i + 1] in refs[p[i]] {
        assert p[i] == path[i];
        if i < |path| - 1 {
          assert p[i + 1] == path[i + 1];
        }
      }
    }
    RisingLater(rank, path, node, next);
    assert Rising(rank', p) by {
      forall i | 0 <= i < |p| ensures p[i] in rank' {
        if i < |path| {
          assert p[i] == path[i];
        }
      }
      forall i, j | 0 <= i < j < |p| ensures rank'[p[i]] < rank'[p[j]] {
        assert p[i] == path[i] && path[i] in rank;
        if j < |path| {
          assert p[j] == path[j];
        }
      }
    }
    assert OnPath(orig, refs, marks, rank', p);
    RecordedLater(orig, refs, rank, cycles, node, next);
    assert Clocked(orig, marks, p, rank', finish, next + 1);
    assert Untouched(orig, refs, rank');
  }

  /** Finishing `node`, the last rule on the path, at time `next` keeps the walk's
      state once every other rule it still refers to is finished. */
  lemma FinishKeepsBreaking(orig: map<string, seq<string>>, refs: map<string, seq<string>>, marks: set<string>,
                            path: seq<string>, cycles: Table<seq<seq<string>>>,
                            rank: map<string, nat>, finish: map<string, nat>, next: nat, node: string)
    requires Breaking(orig, refs, marks, path + [node], cycles, rank, finish, next)
    requires forall m :: m in refs[node] && m != node ==> m in marks
    ensures Breaking(orig, refs, marks + {node}, path, cycles, rank, finish[node := next], next + 1)
  {
    FinishLeavesThePath(orig, refs, marks, rank, path, node);
    FinishKeepsTheClocks(orig, marks, path, rank, finish, next, node);
    FinishKeepsTheOrder(refs, marks, finish, next, node);
  }

  /** Taking the last rule off the path, as finished, keeps the path's properties. */
  lemma FinishLeavesThePath(orig: map<string, seq<string>>, refs: map<string, seq<string>>, marks: set<string>,
                            rank: map<string, nat>, path: seq<string>, node: string)
    requires OnPath(orig, refs, marks, rank, path + [node])
    ensures OnPath(orig, refs, marks + {node}, rank, path) && node !in path
  {
    var p := path + [node];
    assert node == p[|path|];
    SubChain(refs, p, 0, |path|);
    SubRising(rank, p, 0, |path|);
    assert p[..|path|] == path;
    assert Distinct(path) by {
      forall i, j | 0 <= i < j < |path| ensures path[i] != path[j] {
        assert path[i] == p[i] && path[j] == p[j];
      }
    }
    assert node !in path by {
      forall k | 0 <= k < |path| ensures path[k] != node {
        assert path[k] == p[k];
      }
    }
  }

  /** Finishing the last rule of the path at time `next` keeps the clocks. */
  lemma FinishKeepsTheClocks(orig: map<string, seq<string>>, marks: set<string>, path: seq<string>,
                             rank: map<string, nat>, finish: map<string, nat>, next: nat, node: string)
    requires Clocked(orig, marks, path + [node], rank, finish, next) && node in orig && node !in path
    ensures Clocked(orig, marks + {node}, path, rank, finish[node := next], next + 1)
  {
    assert forall x :: x in path + [node] <==> x in path || x == node;
  }

  /** Finishing `node` at time `next`, once every other rule it refers to is
      finished, keeps finished rules after the rules they refer to. */
  lemma FinishKeepsTheOrder(refs: map<string, seq<string>>, marks: set<string>, finish: map<string, nat>, next: nat, node: string)
    requires FinishedFirst(refs, marks, finish)
    requires finish.Keys == marks && (forall x :: x in finish ==> finish[x] < next)
    requires node in refs && node !in marks && forall m :: m in refs[node] && m != node ==> m in marks
    ensures FinishedFirst(refs, marks + {node}, finish[node := next])
  {
  }

  /** While the walk goes through the references `children` of `node`: those not
      visited yet are still referred to or have been entered, and those visited and
      still referred to, other than `node` itself, are finished. */
  ghost predicate ChildrenVisited(children: seq<string>, i: nat, node: string, refs: map<string, seq<string>>,
                                  marks: set<string>, rank: map<string, nat>)
    requires i <= |children| && node in refs
  {
    (forall k :: i <= k < |children| ==> children[k] in refs[node] || children[k] in rank) &&
    (forall k :: 0 <= k < i && children[k] in refs[node] && children[k] != node ==> children[k] in marks)
  }

  /** The references lose entries and gain none; each entry lost names an entered rule. */
  ghost predicate Drops(refs: map<string, seq<string>>, refs': map<string, seq<string>>, rank: map<string, nat>)
  {
    forall a :: a in refs ==>
      a in refs' &&
      (forall m :: m in refs'[a] ==> m in refs[a]) &&
      (forall m :: m in refs[a] && m !in refs'[a] ==> m in rank)
  }

  /** Two steps that only drop references make one. */
  lemma DropsCompose(refs: map<string, seq<string>>, refs': map<string, seq<string>>, refs'': map<string, seq<string>>,
                     rank': map<string, nat>, rank'': map<string, nat>)
    requires Drops(refs, refs', rank') && Drops(refs', refs'', rank'') && rank'.Keys <= rank''.Keys
    ensures Drops(refs, refs'', rank'')
  {
  }

  /** Visiting the next reference of `node` moves the walk through its references
      one step on. */
  lemma ChildVisited(children: seq<string>, i: nat, node: string,
                     refs: map<string, seq<string>>, marks: set<string>, rank: map<string, nat>,
                     refs': map<string, seq<string>>, marks': set<string>, rank': map<string, nat>)
    requires i < |children| && node in refs && node in refs'
    requires ChildrenVisited(children, i, node, refs, marks, rank)
    requires marks <= marks' && rank.Keys <= rank'.Keys
    requires Drops(refs, refs', rank')
    requires children[i] in marks' || children[i] == node || children[i] !in refs'[node]
    ensures ChildrenVisited(children, i + 1, node, refs', marks', rank')
  {
  }

  /** The `visit` lambda of `break_cycles`: a depth-first walk that records each
      cycle it closes under the rule the cycle returns to and drops the reference
      that closes it. `undefined` names the rule whose `_references` entry is nil,
      where the walk raises NoMethodError. */
  method BreakVisit(ghost orig: map<string, seq<string>>, node: string, refs: map<string, seq<string>>,
                    marks: set<string>, path: seq<string>, cycles: Table<seq<seq<string>>>,
                    ghost rank: map<string, nat>, ghost finish: map<string, nat>, ghost next: nat)
    returns (undefined: Option<string>, refs': map<string, seq<string>>, marks': set<string>,
             cycles': Table<seq<seq<string>>>, ghost rank': map<string, nat>, ghost finish': map<string, nat>,
             ghost next': nat)
    requires Breaking(orig, refs, marks, path, cycles, rank, finish, next)
    requires path == [] ==> node in orig
    requires path != [] ==> node in orig[path[|path| - 1]] && (node in refs[path[|path| - 1]] || node in rank)
    ensures undefined.Some? ==> !Defined(orig)
    ensures undefined.None? ==> Breaking(orig, refs', marks', path, cycles', rank', finish', next')
    ensures undefined.None? ==> marks <= marks' && rank.Keys <= rank'.Keys && Drops(refs, refs', rank')
    ensures undefined.None? ==>
              node in marks' || (node in path && (node == path[|path| - 1] || node !in refs'[path[|path| - 1]]))
    decreases orig.Keys - (set x | x in path), 2
  {
    if node in marks {
      return None, refs, marks, cycles, rank, finish, next;
    }
    if node in path {
      var k := IndexOf(path, node);
      var cycle := path[k + 1..];
      if cycle != [] {
        var last := cycle[|cycle| - 1];
        assert last == path[|path| - 1];
        RecordKeepsBreaking(orig, refs, marks, path, cycles, rank, finish, next, node, k, cycle, last);
        cycles' := cycles.Set(node, cycles.Get(node).GetOr([]) + [cycle]);
        refs' := refs[last := Remove(refs[last], node)];
        return None, refs', marks, cycles', rank, finish, next;
      }
      assert node == path[|path| - 1];
      return None, refs, marks, cycles, rank, finish, next;
    }
    if node !in refs {
      // `_references[node]` is nil, and `nil.dup.each` raises.
      assert path[|path| - 1] in orig;
      return Some(node), refs, marks, cycles, rank, finish, next;
    }
    undefined, refs', marks', cycles', rank', finish', next' :=
      VisitReferences(orig, node, refs, marks, path, cycles, rank, finish, next);
  }

  /** The `else` branch of the `visit` lambda of `break_cycles`: `node` goes onto the
      path, the walk visits each rule it referred to on entry, and `node` is then
      finished. */
  method VisitReferences(ghost orig: map<string, seq<string>>, node: string, refs: map<string, seq<string>>,
                         marks: set<string>, path: seq<string>, cycles: Table<seq<seq<string>>>,
                         ghost rank: map<string, nat>, ghost finish: map<string, nat>, ghost next: nat)
    returns (undefined: Option<string>, refs': map<string, seq<string>>, marks': set<string>,
             cycles': Table<seq<seq<string>>>, ghost rank': map<string, nat>, ghost finish': map<string, nat>,
             ghost next': nat)
    requires Breaking(orig, refs, marks, path, cycles, rank, finish, next)
    requires node in refs && node !in marks && node !in path
    requires path != [] ==> node in refs[path[|path| - 1]]
    ensures undefined.Some? ==> !Defined(orig)
    ensures undefined.None? ==> Breaking(orig, refs', marks', path, cycles', rank', finish', next')
    ensures undefined.None? ==> marks <= marks' && rank.Keys <= rank'.Keys && Drops(refs, refs', rank')
    ensures undefined.None? ==> node in marks'
    decreases orig.Keys - (set x | x in path), 1
  {
    EnterKeepsBreaking(orig, refs, marks, path, cycles, rank, finish, next, node);
    undefined, refs', marks', cycles', rank', finish', next' :=
      WalkReferences(orig, node, refs[node], refs, marks, path, cycles, rank[node := next], finish, next + 1);
    if undefined.None? {
      FinishKeepsBreaking(orig, refs', marks', path, cycles', rank', finish', next', node);
      marks', finish', next' := marks' + {node}, finish'[node := next'], next' + 1;
    }
  }

  /** The `_references[node].dup.each(&visit)` loop, with `node` last on the path:
      `children` is the copy taken on entry, so dropping references from `node`
      while the loop runs does not change what it visits. */
  method WalkReferences(ghost orig: map<string, seq<string>>, node: string, children: seq<string>,
                        refs: map<string, seq<string>>, marks: set<string>, path: seq<string>,
                        cycles: Table<seq<seq<string>>>,
                        ghost rank: map<string, nat>, ghost finish: map<string, nat>, ghost next: nat)
    returns (undefined: Option<string>, refs': map<string, seq<string>>, marks': set<string>,
             cycles': Table<seq<seq<string>>>, ghost rank': map<string, nat>, ghost finish': map<string, nat>,
             ghost next': nat)
    requires Breaking(orig, refs, marks, path + [node], cycles, rank, finish, next)
    requires node in refs && node !in path && children == refs[node] && children == orig[node]
    ensures undefined.Some? ==> !Defined(orig)
    ensures undefined.None? ==> Breaking(orig, refs', marks', path + [node], cycles', rank', finish', next')
    ensures undefined.None? ==> marks <= marks' && rank.Keys <= rank'.Keys && Drops(refs, refs', rank')
    ensures undefined.None? ==> node in refs' && forall m :: m in refs'[node] && m != node ==> m in marks'
    decreases orig.Keys - (set x | x in path), 0
  {
    var p := path + [node];
    assert (orig.Keys - set x | x in p) < (orig.Keys - set x | x in path) by {
      assert node in (orig.Keys - set x | x in path);
    }
    refs', marks', cycles', rank', finish', next' := refs, marks, cycles, rank, finish, next;
    var i := 0;
    while i < |children|
      invariant i <= |children| && node in refs'
      invariant Breaking(orig, refs', marks', p, cycles', rank', finish', next')
      invariant marks <= marks' && rank.Keys <= rank'.Keys
      invariant ChildrenVisited(children, i, node, refs', marks', rank')
      invariant Drops(refs, refs', rank')
    {
      assert p[|p| - 1] == node;
      ghost var refs0, marks0, rank0 := refs', marks', rank';
      undefined, refs', marks', cycles', rank', finish', next' :=
        BreakVisit(orig, children[i], refs', marks', p, cycles', rank', finish', next');
      if undefined.Some? {
        return;
      }
      ChildVisited(children, i, node, refs0, marks0, rank0, refs', marks', rank');
      DropsCompose(refs, refs0, refs', rank0, rank');
      i := i + 1;
    }
    AllChildrenVisited(children, node, refs, refs', marks', rank');
    undefined := None;
  }

  /** Once the loop is through, every reference left from `node` to another rule is marked. */
  lemma AllChildrenVisited(children: seq<string>, node: string, refs: map<string, seq<string>>,
                           refs': map<string, seq<string>>, marks: set<string>, rank: map<string, nat>)
    requires node in refs && children == refs[node] && node in refs'
    requires ChildrenVisited(children, |children|, node, refs', marks, rank) && Drops(refs, refs', rank)
    ensures forall m :: m in refs'[node] && m != node ==> m in marks
  {
    forall m | m in refs'[node] && m != node ensures m in marks {
      var k :| 0 <= k < |children| && children[k] == m;
    }
  }

  /** The walk of `break_cycles` from every rule in turn (`_references.keys.each(&visit)`).
      It stops, as the source raises, exactly when some rule refers to a name that
      is not a rule. */
  method FindCycles(refs: Table<seq<string>>)
    returns (undefined: Option<string>, refs': map<string, seq<string>>, cycles: Table<seq<seq<string>>>,
             ghost rank: map<string, nat>, ghost finish: map<string, nat>, ghost next: nat)
    requires refs.Valid()
    ensures undefined.Some? <==> !Defined(refs.entries)
    ensures undefined.None? ==> Breaking(refs.entries, refs', refs.entries.Keys, [], cycles, rank, finish, next)
  {
    var marks: set<string> := {};
    undefined, refs', cycles, rank, finish, next := None, refs.entries, Table([], map[]), map[], map[], 0;
    WalkStarts(refs.entries);
    var i := 0;
    while i < |refs.keys|
      invariant i <= |refs.keys| && undefined.None?
      invariant Breaking(refs.entries, refs', marks, [], cycles, rank, finish, next)
      invariant StartedFrom(refs.keys[..i], marks)
    {
      ghost var marks0 := marks;
      var name := refs.keys[i];
      undefined, refs', marks, cycles, rank, finish, next :=
        BreakVisit(refs.entries, name, refs', marks, [], cycles, rank, finish, next);
      if undefined.Some? {
        return;
      }
      StartedFromOneMore(refs.keys, i, marks0, marks);
      i := i + 1;
    }
    assert refs.keys[..i] == refs.keys;
    WalkEnds(refs, refs', marks, cycles, rank, finish, next);
  }

  /** The walk has been started from each of `names`. */
  ghost predicate StartedFrom(names: seq<string>, marks: set<string>)
  {
    forall x :: x in names ==> x in marks
  }

  /** Starting the walk from one more name. */
  lemma StartedFromOneMore(names: seq<string>, i: nat, marks: set<string>, marks': set<string>)
    requires i < |names| && StartedFrom(names[..i], marks) && marks <= marks' && names[i] in marks'
    ensures StartedFrom(names[..i + 1], marks')
  {
    assert names[..i + 1] == names[..i] + [names[i]];
  }

  /** The walk starts with the references as given, nothing marked and no cycle. */
  lemma WalkStarts(orig: map<string, seq<string>>)
    ensures Breaking(orig, orig, {}, [], Table([], map[]), map[], map[], 0)
  {
    assert Recorded(orig, orig, map[], Table([], map[]));
  }

  /** Once the walk has been started from every rule, every rule is finished. */
  lemma WalkEnds(refs: Table<seq<string>>, refs': map<string, seq<string>>, marks: set<string>, cycles: Table<seq<seq<string>>>,
                 rank: map<string, nat>, finish: map<string, nat>, next: nat)
    requires refs.Valid() && Breaking(refs.entries, refs', marks, [], cycles, rank, finish, next)
    requires StartedFrom(refs.keys, marks)
    ensures marks == refs.entries.Keys && Defined(refs.entries)
    ensures Breaking(refs.entries, refs', refs.entries.Keys, [], cycles, rank, finish, next)
  {
    assert marks == refs.entries.Keys;
    WalkedRulesAreDefined(refs.entries, refs', cycles, rank, finish, next);
  }

  /** Once the walk has finished every rule, every name a rule refers to is a rule. */
  lemma WalkedRulesAreDefined(orig: map<string, seq<string>>, refs: map<string, seq<string>>, cycles: Table<seq<seq<string>>>,
                              rank: map<string, nat>, finish: map<string, nat>, next: nat)
    requires Breaking(orig, refs, orig.Keys, [], cycles, rank, finish, next)
    ensures Defined(orig)
  {
    forall x, m | x in orig && m in orig[x] ensures m in orig {
      if m !in refs[x] {
        var c :| c in cycles.entries[m] && c != [] && c[|c| - 1] == x;
        assert CycleOk(orig, refs, rank, m, c);
      }
    }
  }

  /** Every chain of references that returns to where it started stays on one rule:
      the only cycles left are rules that refer to themselves. */
  ghost predicate OnlySelfCycles(refs: map<string, seq<string>>)
  {
    forall path :: Chain(refs, path) && |path| >= 1 && path[0] == path[|path| - 1] ==>
      forall i :: 0 <= i < |path| ==> path[i] == path[0]
  }

  /** Along a chain of finished rules the finishing time never rises, and it stays
      the same only while the chain stays on one rule. */
  lemma {:induction false} FinishingFalls(refs: map<string, seq<string>>, marks: set<string>, finish: map<string, nat>,
                                          path: seq<string>, i: nat)
    requires FinishedFirst(refs, marks, finish) && (forall x :: x in marks ==> x in finish)
    requires Chain(refs, path) && i < |path| && forall k :: 0 <= k < |path| ==> path[k] in marks
    ensures finish[path[|path| - 1]] <= finish[path[i]]
    ensures finish[path[|path| - 1]] == finish[path[i]] ==> forall k :: i <= k < |path| ==> path[k] == path[i]
    decreases |path| - i
  {
    if i < |path| - 1 {
      FinishingFalls(refs, marks, finish, path, i + 1);
      assert path[i] in refs && path[i + 1] in refs[path[i]];
    }
  }

  /** After the walk has finished every rule, the references it leaves have no cycle
      other than a rule referring to itself. */
  lemma WalkLeavesOnlySelfCycles(orig: map<string, seq<string>>, refs: map<string, seq<string>>, cycles: Table<seq<seq<string>>>,
                                 rank: map<string, nat>, finish: map<string, nat>, next: nat)
    requires Breaking(orig, refs, orig.Keys, [], cycles, rank, finish, next)
    ensures OnlySelfCycles(refs)
  {
    forall path | Chain(refs, path) && |path| >= 1 && path[0] == path[|path| - 1]
      ensures forall i :: 0 <= i < |path| ==> path[i] == path[0]
    {
      if |path| > 1 {
        assert path[0] in refs;
        assert forall k :: 0 <= k < |path| ==> path[k] in orig.Keys by {
          forall k | 0 <= k < |path| ensures path[k] in orig.Keys {
            if k < |path| - 1 {
              assert path[k] in refs;
            }
          }
        }
        FinishingFalls(refs, orig.Keys, finish, path, 0);
      }
    }
  }

  /** Each member of a recorded cycle is still referred to by the rule before it in
      the cycle (the root for the first member). */
  lemma MembersKeepAReferer(orig: map<string, seq<string>>, refs: map<string, seq<string>>, rank: map<string, nat>,
                            cycles: Table<seq<seq<string>>>, root: string, c: seq<string>, j: nat)
    requires Recorded(orig, refs, rank, cycles)
    requires root in cycles.entries && c in cycles.entries[root] && j < |c|
    ensures ([root] + c)[j] in refs && c[j] in refs[([root] + c)[j]]
  {
    assert CycleOk(orig, refs, rank, root, c);
    assert c[j] == ([root] + c)[j + 1];
  }

  // ----- break_cycles: reparenting -----

  /** The members of the recorded cycles as (root, member) pairs, in the order the
      nested `each` loops of `break_cycles` visit them. */
  function Memberships(roots: seq<string>, entries: map<string, seq<seq<string>>>): (r: seq<(string, string)>)
    requires forall n :: n in roots ==> n in entries
    ensures forall n, x :: (n, x) in r <==> n in roots && exists c :: c in entries[n] && x in c
  {
    if roots == [] then [] else MembersOf(roots[0], entries[roots[0]]) + Memberships(roots[1..], entries)
  }

  /** The (root, member) pairs of the cycles `cs` of one root. */
  function MembersOf(root: string, cs: seq<seq<string>>): (r: seq<(string, string)>)
    ensures forall n, x :: (n, x) in r <==> n == root && exists c :: c in cs && x in c
  {
    if cs == [] then []
    else
      var here := seq(|cs[0]|, j requires 0 <= j < |cs[0]| => (root, cs[0][j]));
      assert forall n, x :: (n, x) in here <==> n == root && x in cs[0] by {
        forall n, x ensures (n, x) in here <==> n == root && x in cs[0] {
          if n == root && x in cs[0] {
            var j :| 0 <= j < |cs[0]| && cs[0][j] == x;
            assert here[j] == (n, x);
          }
        }
      }
      here + MembersOf(root, cs[1..])
  }

  /** `internal_rules[n]`, whose default is an empty list. */
  function InternalOf(internal: map<string, seq<string>>, n: string): seq<string>
  {
    if n in internal then internal[n] else []
  }

  /** Each rule internal to a root was entered after that root. */
  ghost predicate InternalRanked(internal: map<string, seq<string>>, rank: map<string, nat>, bound: nat)
  {
    forall n :: n in internal ==>
      n in rank && rank[n] < bound &&
      forall a :: a in internal[n] ==> a in rank && rank[n] < rank[a] < bound
  }

  /** Ruby's `Array#-`: the elements of `s` that are not in `b`, in order. */
  function Minus(s: seq<string>, b: seq<string>): (r: seq<string>)
    ensures forall x :: x in r <==> x in s && x !in b
    ensures Distinct(s) ==> Distinct(r)
  {
    if s == [] then []
    else Minus(s[..|s| - 1], b) + (if s[|s| - 1] in b then [] else [s[|s| - 1]])
  }

  /** `external_references_for_node(rule, internal_rules, references)`: the references
      of the rules internal to `rule` (recursively, each once), then those of `rule`
      itself, less the rules internal to `rule`. The recursion ends because a rule
      internal to another was entered after it. */
  function ExternalReferences(rule: string, internal: map<string, seq<string>>, refs: map<string, seq<string>>,
                              ghost rank: map<string, nat>, ghost bound: nat): (r: seq<string>)
    requires InternalRanked(internal, rank, bound) && rule in rank && rank[rule] < bound
    requires rule in refs && forall n, a :: n in internal && a in internal[n] ==> a in refs
    ensures forall x :: x in r ==> x !in InternalOf(internal, rule)
    ensures forall x :: x in refs[rule] && x !in InternalOf(internal, rule) ==> x in r
    ensures forall x :: x in r <==>
              x !in InternalOf(internal, rule) &&
              (x in refs[rule] ||
               exists a :: a in InternalOf(internal, rule) && x in ExternalReferences(a, internal, refs, rank, bound))
    decreases bound - rank[rule], 1
  {
    var inner := InternalOf(internal, rule);
    var nested := ExternalReferencesOf(rule, inner, 0, internal, refs, rank, bound);
    NestedReferencesFound(rule, internal, refs, rank, bound);
    NestedReferencesGathered(rule, internal, refs, rank, bound);
    Minus(Dedup(nested) + refs[rule], inner)
  }

  /** Whatever the `flat_map` gathers is an external reference of some rule internal
      to `rule`. */
  lemma NestedReferencesFound(rule: string, internal: map<string, seq<string>>, refs: map<string, seq<string>>,
                              rank: map<string, nat>, bound: nat)
    requires InternalRanked(internal, rank, bound) && rule in rank && rank[rule] < bound
    requires forall n, a :: n in internal && a in internal[n] ==> a in refs
    ensures var inner := InternalOf(internal, rule);
            forall x :: x in ExternalReferencesOf(rule, inner, 0, internal, refs, rank, bound) ==>
              exists a :: a in inner && x in ExternalReferences(a, internal, refs, rank, bound)
    decreases bound - rank[rule], 0, |InternalOf(internal, rule)| + 1
  {
    var inner := InternalOf(internal, rule);
    var nested := ExternalReferencesOf(rule, inner, 0, internal, refs, rank, bound);
    forall x | x in nested ensures exists a :: a in inner && x in ExternalReferences(a, internal, refs, rank, bound) {
      var k :| 0 <= k < |inner| && x in ExternalReferences(inner[k], internal, refs, rank, bound);
      assert inner[k] in inner;
    }
  }

  /** The `flat_map` gathers every external reference of every rule internal to
      `rule`. */
  lemma NestedReferencesGathered(rule: string, internal: map<string, seq<string>>, refs: map<string, seq<string>>,
                                 rank: map<string, nat>, bound: nat)
    requires InternalRanked(internal, rank, bound) && rule in rank && rank[rule] < bound
    requires forall n, a :: n in internal && a in internal[n] ==> a in refs
    ensures var inner := InternalOf(internal, rule);
            forall x, a :: a in inner && x in ExternalReferences(a, internal, refs, rank, bound) ==>
              x in ExternalReferencesOf(rule, inner, 0, internal, refs, rank, bound)
    decreases bound - rank[rule], 0, |InternalOf(internal, rule)| + 1
  {
    var inner := InternalOf(internal, rule);
    var nested := ExternalReferencesOf(rule, inner, 0, internal, refs, rank, bound);
    forall x, a | a in inner && x in ExternalReferences(a, internal, refs, rank, bound) ensures x in nested {
      var k :| 0 <= k < |inner| && inner[k] == a;
    }
  }

  /** The `flat_map` of `external_references_for_node` over the internal rules of
      `parent` from `i` on. */
  function ExternalReferencesOf(parent: string, inner: seq<string>, i: nat, internal: map<string, seq<string>>,
                                refs: map<string, seq<string>>, ghost rank: map<string, nat>, ghost bound: nat): (r: seq<string>)
    requires InternalRanked(internal, rank, bound) && parent in rank && rank[parent] < bound
    requires inner == InternalOf(internal, parent) && i <= |inner|
    requires forall n, a :: n in internal && a in internal[n] ==> a in refs
    ensures forall x :: x in r <==> exists k :: i <= k < |inner| && x in ExternalReferences(inner[k], internal, refs, rank, bound)
    decreases bound - rank[parent], 0, |inner| - i
  {
    if i == |inner| then []
    else
      assert inner[i] in internal[parent];
      ExternalReferences(inner[i], internal, refs, rank, bound) +
      ExternalReferencesOf(parent, inner, i + 1, internal, refs, rank, bound)
  }

  /** What the reparenting needs of the recorded cycles: each root and member is a
      rule, each member was entered after its root and still has a referer. */
  ghost predicate Reparentable(ms: seq<(string, string)>, refs: Table<seq<string>>, rank: map<string, nat>, bound: nat)
    requires refs.Valid()
  {
    forall k :: 0 <= k < |ms| ==>
      ms[k].0 in refs.entries && ms[k].1 in refs.entries &&
      ms[k].0 in rank && ms[k].1 in rank && rank[ms[k].0] < rank[ms[k].1] < bound &&
      FindReferers(ms[k].1, refs) != []
  }

  /** The state of the reparenting loop after the first `i` pairs of `ms`. */
  ghost predicate Reparenting(ms: seq<(string, string)>, i: nat, refs: Table<seq<string>>,
                              internal: map<string, seq<string>>, orphaned: seq<string>,
                              rank: map<string, nat>, bound: nat)
    requires refs.Valid() && i <= |ms|
  {
    InternalRanked(internal, rank, bound) &&
    (forall n, x :: n in internal && x in internal[n] ==> (n, x) in ms[..i]) &&
    (forall x :: x in orphaned <==> exists n :: n in internal && x in internal[n]) &&
    (forall k :: 0 <= k < i && |FindReferers(ms[k].1, refs)| == 1 ==> ms[k].0 in internal && ms[k].1 in internal[ms[k].0])
  }

  /** The reparenting loop of `break_cycles` over the (root, member) pairs `ms`: a
      member with exactly one referer moves into its root, and so does a member all
      of whose referers are internal to the root or among the root's external
      references. A member with no referer would raise; none has one. */
  method Reparent(ms: seq<(string, string)>, refs: Table<seq<string>>, ghost rank: map<string, nat>, ghost bound: nat)
    returns (internal: map<string, seq<string>>, orphaned: seq<string>)
    requires refs.Valid() && Reparentable(ms, refs, rank, bound)
    ensures forall n, x :: n in internal && x in internal[n] ==> (n, x) in ms
    ensures forall x :: x in orphaned <==> exists n :: n in internal && x in internal[n]
    ensures forall k :: 0 <= k < |ms| && |FindReferers(ms[k].1, refs)| == 1 ==>
              ms[k].0 in internal && ms[k].1 in internal[ms[k].0]
  {
    internal, orphaned := map[], [];
    var i := 0;
    while i < |ms|
      invariant i <= |ms| && Reparenting(ms, i, refs, internal, orphaned, rank, bound)
    {
      var (node, rule) := ms[i];
      var move := ShouldMove(ms, i, refs, internal, orphaned, rank, bound);
      ghost var before, orphanedBefore := internal, orphaned;
      if move {
        internal := internal[node := InternalOf(internal, node) + [rule]];
        orphaned := orphaned + [rule];
      }
      Reparented(ms, i, refs, before, orphanedBefore, rank, bound, move);
      i := i + 1;
    }
    assert ms[..i] == ms;
  }

  /** Whether the reparenting loop moves the `i`th member into its root. */
  method ShouldMove(ms: seq<(string, string)>, i: nat, refs: Table<seq<string>>,
                    internal: map<string, seq<string>>, orphaned: seq<string>, ghost rank: map<string, nat>, ghost bound: nat)
    returns (move: bool)
    requires refs.Valid() && i < |ms| && Reparentable(ms, refs, rank, bound)
    requires Reparenting(ms, i, refs, internal, orphaned, rank, bound)
    ensures |FindReferers(ms[i].1, refs)| == 1 ==> move
    ensures |FindReferers(ms[i].1, refs)| > 1 ==>
              (move <==> forall r :: r in FindReferers(ms[i].1, refs) ==>
                           r in InternalOf(internal, ms[i].0) || r in ExternalReferences(ms[i].0, internal, refs.entries, rank, bound))
  {
    var (node, rule) := ms[i];
    var referers := FindReferers(rule, refs);
    assert referers != [];
    move := |referers| == 1;
    if !move {
      InternalRulesAreTabled(ms, i, refs, internal, orphaned, rank, bound);
      var nodeReferences := ExternalReferences(node, internal, refs.entries, rank, bound);
      move := forall r :: r in referers ==> r in InternalOf(internal, node) || r in nodeReferences;
      // Otherwise the source prints that the rule cannot be internalized, and moves on.
    }
  }

  /** While the loop runs, every rule moved so far is one of the table's. */
  lemma InternalRulesAreTabled(ms: seq<(string, string)>, i: nat, refs: Table<seq<string>>,
                               internal: map<string, seq<string>>, orphaned: seq<string>, rank: map<string, nat>, bound: nat)
    requires refs.Valid() && i < |ms| && Reparentable(ms, refs, rank, bound)
    requires Reparenting(ms, i, refs, internal, orphaned, rank, bound)
    ensures forall n, a :: n in internal && a in internal[n] ==> a in refs.entries
  {
    forall n, a | n in internal && a in internal[n] ensures a in refs.entries {
      var k :| 0 <= k < i && ms[..i][k] == (n, a);
      assert ms[k] == (n, a);
    }
  }

  /** One step of the reparenting loop keeps its state. */
  lemma Reparented(ms: seq<(string, string)>, i: nat, refs: Table<seq<string>>,
                   internal: map<string, seq<string>>, orphaned: seq<string>,
                   rank: map<string, nat>, bound: nat, move: bool)
    requires refs.Valid() && i < |ms| && Reparentable(ms, refs, rank, bound)
    requires Reparenting(ms, i, refs, internal, orphaned, rank, bound)
    requires |FindReferers(ms[i].1, refs)| == 1 ==> move
    ensures var (node, rule) := ms[i];
            if move then Reparenting(ms, i + 1, refs, internal[node := InternalOf(internal, node) + [rule]], orphaned + [rule], rank, bound)
            else Reparenting(ms, i + 1, refs, internal, orphaned, rank, bound)
  {
    var (node, rule) := ms[i];
    assert ms[..i + 1] == ms[..i] + [ms[i]];
    if move {
      var internal' := internal[node := InternalOf(internal, node) + [rule]];
      ReparentKeepsOrphans(internal, orphaned, node, rule);
      MoveKeepsTheRanks(internal, rank, bound, node, rule);
      MoveKeepsThePairs(ms[..i], internal, node, rule);
      MoveKeepsTheMoved(ms, i, refs, internal, node, rule);
    }
  }

  /** Moving a rule entered after `node` into it keeps the internal rules ranked. */
  lemma MoveKeepsTheRanks(internal: map<string, seq<string>>, rank: map<string, nat>, bound: nat, node: string, rule: string)
    requires InternalRanked(internal, rank, bound)
    requires node in rank && rule in rank && rank[node] < rank[rule] < bound
    ensures InternalRanked(internal[node := InternalOf(internal, node) + [rule]], rank, bound)
  {
  }

  /** Moving the member of the next pair into its root keeps every internal rule one
      of the pairs seen so far. */
  lemma MoveKeepsThePairs(seen: seq<(string, string)>, internal: map<string, seq<string>>, node: string, rule: string)
    requires forall n, x :: n in internal && x in internal[n] ==> (n, x) in seen
    ensures var internal' := internal[node := InternalOf(internal, node) + [rule]];
            forall n, x :: n in internal' && x in internal'[n] ==> (n, x) in seen + [(node, rule)]
  {
    var internal' := internal[node := InternalOf(internal, node) + [rule]];
    forall n, x | n in internal' && x in internal'[n] ensures (n, x) in seen + [(node, rule)] {
      if n != node || x != rule {
        assert x in internal[n];
      }
    }
  }

  /** Moving a member into its root keeps every member moved so far where it was. */
  lemma MoveKeepsTheMoved(ms: seq<(string, string)>, i: nat, refs: Table<seq<string>>,
                          internal: map<string, seq<string>>, node: string, rule: string)
    requires refs.Valid() && i < |ms| && ms[i] == (node, rule)
    requires forall k :: 0 <= k < i && |FindReferers(ms[k].1, refs)| == 1 ==> ms[k].0 in internal && ms[k].1 in internal[ms[k].0]
    ensures var internal' := internal[node := InternalOf(internal, node) + [rule]];
            forall k :: 0 <= k < i + 1 && |FindReferers(ms[k].1, refs)| == 1 ==> ms[k].0 in internal' && ms[k].1 in internal'[ms[k].0]
  {
  }

  /** Moving `rule` into `node` keeps the orphaned rules those that are internal to some rule. */
  lemma ReparentKeepsOrphans(internal: map<string, seq<string>>, orphaned: seq<string>, node: string, rule: string)
    requires forall x :: x in orphaned <==> exists n :: n in internal && x in internal[n]
    ensures var internal' := internal[node := InternalOf(internal, node) + [rule]];
            forall x :: x in orphaned + [rule] <==> exists n :: n in internal' && x in internal'[n]
  {
    var internal' := internal[node := InternalOf(internal, node) + [rule]];
    forall x ensures x in orphaned + [rule] <==> exists n :: n in internal' && x in internal'[n] {
      if x in orphaned {
        var n :| n in internal && x in internal[n];
        assert x in internal'[n];
      } else if x == rule {
        assert x in internal'[node];
      }
      if exists n :: n in internal' && x in internal'[n] {
        var n :| n in internal' && x in internal'[n];
        if n != node || x != rule {
          assert n in internal && x in internal[n];
        }
      }
    }
  }

  // ----- break_cycles and to_ruby -----

  /** Why `break_cycles` raises: a node `references` does not understand
      (ArgumentError), or a reference to a name that is not a rule (NoMethodError). */
  datatype Failure = UnknownRuleType | UndefinedRule(name: string)

  datatype Result<T> = Ok(value: T) | Fail(failure: Failure)

  /** The four values `break_cycles` returns: the cycles under their roots, the rules
      moved into each root, the rules moved, and the broken references. */
  datatype Broken = Broken(cycles: Table<seq<seq<string>>>, internal: map<string, seq<string>>,
                           orphaned: seq<string>, refs: Table<seq<string>>)

  /** A recorded cycle: the members, other than the root, each referring to the next;
      the last referred back to the root and no longer does. */
  ghost predicate CycleBroken(orig: map<string, seq<string>>, refs: map<string, seq<string>>, root: string, c: seq<string>)
  {
    c != [] && root !in c && Chain(refs, [root] + c) &&
    c[|c| - 1] in orig && root in orig[c[|c| - 1]] && c[|c| - 1] in refs && root !in refs[c[|c| - 1]]
  }

  /** What the walk of `break_cycles` promises of the references it returns: they
      keep the rules in order and only lose entries, each lost entry closes a
      recorded cycle, and no cycle is left but a rule referring to itself. */
  ghost predicate CyclesBroken(orig: Table<seq<string>>, cycles: Table<seq<seq<string>>>, refs: Table<seq<string>>)
  {
    orig.Valid() && refs.Valid() && refs.keys == orig.keys && cycles.Valid() &&
    (forall x, m :: x in refs.entries && x in orig.entries && m in refs.entries[x] ==> m in orig.entries[x]) &&
    (forall x, m :: x in orig.entries && x in refs.entries && m in orig.entries[x] && m !in refs.entries[x] ==>
       Closes(cycles, m, x)) &&
    (forall n, c :: n in cycles.entries && c in cycles.entries[n] ==> CycleBroken(orig.entries, refs.entries, n, c)) &&
    OnlySelfCycles(refs.entries)
  }

  /** What the reparenting promises: only members of a root's cycles move into it,
      the orphaned rules are the moved ones, and every member with a single referer
      moves into each root whose cycle it belongs to. */
  ghost predicate Reparents(b: Broken)
  {
    b.refs.Valid() && b.cycles.Valid() &&
    var ms := Memberships(b.cycles.keys, b.cycles.entries);
    (forall n, x :: n in b.internal && x in b.internal[n] ==> (n, x) in ms) &&
    (forall x :: x in b.orphaned <==> exists n :: n in b.internal && x in b.internal[n]) &&
    (forall n, x :: (n, x) in ms && |FindReferers(x, b.refs)| == 1 ==> n in b.internal && x in b.internal[n])
  }

  /** The finished walk gives what `break_cycles` promises of its references. */
  lemma WalkBreaksTheCycles(orig: Table<seq<string>>, refs: map<string, seq<string>>, cycles: Table<seq<seq<string>>>,
                            rank: map<string, nat>, finish: map<string, nat>, next: nat)
    requires orig.Valid() && Breaking(orig.entries, refs, orig.entries.Keys, [], cycles, rank, finish, next)
    ensures CyclesBroken(orig, cycles, Table(orig.keys, refs))
  {
    WalkLeavesOnlySelfCycles(orig.entries, refs, cycles, rank, finish, next);
    forall n, c | n in cycles.entries && c in cycles.entries[n] ensures CycleBroken(orig.entries, refs, n, c) {
      assert CycleOk(orig.entries, refs, rank, n, c);
      forall j | 0 <= j < |c| ensures c[j] != n {
        assert ([n] + c)[0] == n && ([n] + c)[j + 1] == c[j];
      }
    }
  }

  /** Every member of a cycle the walk recorded is ranked after its root and keeps a
      referer, so the reparenting may run over them. */
  lemma WalkReadiesTheMembers(orig: Table<seq<string>>, refs: map<string, seq<string>>, cycles: Table<seq<seq<string>>>,
                              rank: map<string, nat>, finish: map<string, nat>, next: nat)
    requires orig.Valid() && Breaking(orig.entries, refs, orig.entries.Keys, [], cycles, rank, finish, next)
    ensures Reparentable(Memberships(cycles.keys, cycles.entries), Table(orig.keys, refs), rank, next)
  {
    var table := Table(orig.keys, refs);
    var ms := Memberships(cycles.keys, cycles.entries);
    forall k | 0 <= k < |ms|
      ensures ms[k].0 in table.entries && ms[k].1 in table.entries &&
              ms[k].0 in rank && ms[k].1 in rank && rank[ms[k].0] < rank[ms[k].1] < next &&
              FindReferers(ms[k].1, table) != []
    {
      var (n, x) := ms[k];
      assert (n, x) in ms;
      var c :| c in cycles.entries[n] && x in c;
      var j :| 0 <= j < |c| && c[j] == x;
      assert CycleOk(orig.entries, refs, rank, n, c);
      assert ([n] + c)[0] == n && ([n] + c)[j + 1] == x;
      MembersKeepAReferer(orig.entries, refs, rank, cycles, n, c, j);
      ReferersReferToTheNode(x, table);
      assert ([n] + c)[j] in FindReferers(x, table);
    }
  }

  /** The reparenting loop's promises, stated over the members of the cycles. */
  lemma ReparentingReparents(cycles: Table<seq<seq<string>>>, internal: map<string, seq<string>>, orphaned: seq<string>,
                             refs: Table<seq<string>>)
    requires refs.Valid() && cycles.Valid()
    requires var ms := Memberships(cycles.keys, cycles.entries);
             (forall n, x :: n in internal && x in internal[n] ==> (n, x) in ms) &&
             (forall x :: x in orphaned <==> exists n :: n in internal && x in internal[n]) &&
             (forall k :: 0 <= k < |ms| && |FindReferers(ms[k].1, refs)| == 1 ==> ms[k].0 in internal && ms[k].1 in internal[ms[k].0])
    ensures Reparents(Broken(cycles, internal, orphaned, refs))
  {
    var ms := Memberships(cycles.keys, cycles.entries);
    forall n, x | (n, x) in ms && |FindReferers(x, refs)| == 1 ensures n in internal && x in internal[n] {
      var k :| 0 <= k < |ms| && ms[k] == (n, x);
      assert ms[k].0 == n && ms[k].1 == x;
      assert |FindReferers(ms[k].1, refs)| == 1;
    }
  }

  /** `break_cycles`: the references of the rules, with every cycle broken, and the
      members of each cycle moved into its root where they can be. */
  method BreakCycles(rules: Table<Pattern>) returns (r: Result<Broken>)
    requires rules.Valid()
    ensures r == Fail(UnknownRuleType) <==> References(rules).None?
    ensures r.Fail? && r.failure.UndefinedRule? <==> References(rules).Some? && !Defined(References(rules).value.entries)
    ensures r.Ok? ==> References(rules).Some? && Defined(References(rules).value.entries) &&
                      CyclesBroken(References(rules).value, r.value.cycles, r.value.refs) && Reparents(r.value)
  {
    var refs := References(rules);
    if refs.None? {
      return Fail(UnknownRuleType);
    }
    ReferencesAreTheMentions(rules);
    var undefined, refs', cycles, rank, finish, next := FindCycles(refs.value);
    if undefined.Some? {
      return Fail(UndefinedRule(undefined.value));
    }
    WalkBreaksTheCycles(refs.value, refs', cycles, rank, finish, next);
    WalkReadiesTheMembers(refs.value, refs', cycles, rank, finish, next);
    var broken := Table(refs.value.keys, refs');
    var internal, orphaned := Reparent(Memberships(cycles.keys, cycles.entries), broken, rank, next);
    ReparentingReparents(cycles, internal, orphaned, broken);
    r := Ok(Broken(cycles, internal, orphaned, broken));
  }

  /** Each listed rule comes after every rule it refers to, other than itself and
      the rules left out. */
  ghost predicate RefersBackwards(refs: map<string, seq<string>>, names: seq<string>, left: seq<string>)
  {
    forall i, m :: 0 <= i < |names| && names[i] in refs && m in refs[names[i]] && m != names[i] && m !in left ==>
      m in names[..i]
  }

  /** With no cycle but self references, `sorted_names` lists each rule after every
      other rule it refers to. */
  lemma SortedWithoutCycles(refs: map<string, seq<string>>, names: seq<string>)
    requires ReferencesFirst(refs, names) && OnlySelfCycles(refs)
    ensures RefersBackwards(refs, names, [])
  {
    forall i, m | 0 <= i < |names| && names[i] in refs && m in refs[names[i]] && m != names[i]
      ensures m in names[..i]
    {
      NoWayBack(refs, names[i], m);
    }
  }

  /** With only self cycles, a reference of a rule to another rule never leads back
      to it. */
  lemma NoWayBack(refs: map<string, seq<string>>, x: string, m: string)
    requires OnlySelfCycles(refs) && x in refs && m in refs[x] && m != x
    ensures !Reaches(refs, m, x)
  {
    forall path | Chain(refs, path) && |path| >= 1 && path[0] == m
      ensures path[|path| - 1] != x
    {
      var closed := [x] + path;
      assert Chain(refs, closed) by {
        forall k | 0 <= k < |closed| - 1 ensures closed[k] in refs && closed[k + 1] in refs[closed[k]] {
          if k > 0 {
            assert closed[k] == path[k - 1] && closed[k + 1] == path[k];
          }
        }
      }
      assert closed[0] == x && closed[1] == m && closed[|closed| - 1] == path[|path| - 1];
    }
  }

  /** Leaving names out keeps each remaining rule after the remaining rules it
      refers to. */
  lemma {:induction false} MinusRefersBackwards(refs: map<string, seq<string>>, names: seq<string>, left: seq<string>)
    requires RefersBackwards(refs, names, [])
    ensures RefersBackwards(refs, Minus(names, left), left)
  {
    if names != [] {
      var init := names[..|names| - 1];
      var last := names[|names| - 1];
      assert RefersBackwards(refs, init, []) by {
        forall i, m | 0 <= i < |init| && init[i] in refs && m in refs[init[i]] && m != init[i]
          ensures m in init[..i]
        {
          assert init[i] == names[i] && init[..i] == names[..i];
          assert 0 <= i < |names| && names[i] in refs && m in refs[names[i]] && m != names[i] && m !in [];
        }
      }
      MinusRefersBackwards(refs, init, left);
      var r := Minus(names, left);
      var r0 := Minus(init, left);
      forall i, m | 0 <= i < |r| && r[i] in refs && m in refs[r[i]] && m != r[i] && m !in left
        ensures m in r[..i]
      {
        if i < |r0| {
          assert r[i] == r0[i] && r[..i] == r0[..i];
        } else {
          assert r[i] == last && r[..i] == r0;
          assert m in names[..|names| - 1];
        }
      }
    }
  }

  /** Leaving names out keeps each remaining key before the remaining names not
      reached from it or an earlier key. */
  lemma {:induction false} MinusKeepsKeysFirst(refs: map<string, seq<string>>, keys: seq<string>, n: nat,
                                               names: seq<string>, left: seq<string>)
    requires KeysFirst(refs, keys, n, names, [])
    ensures KeysFirst(refs, keys, n, Minus(names, left), left)
  {
    if names != [] {
      var init := names[..|names| - 1];
      var last := names[|names| - 1];
      assert KeysFirst(refs, keys, n, init, []) by {
        forall a, q | 0 <= a < n && a < |keys| && 0 <= q < |init|
          ensures !ReachedBefore(refs, keys, a + 1, init[q]) ==> keys[a] in init[..q]
        {
          assert init[q] == names[q] && init[..q] == names[..q];
        }
      }
      MinusKeepsKeysFirst(refs, keys, n, init, left);
      var r := Minus(names, left);
      var r0 := Minus(init, left);
      forall a, q | 0 <= a < n && a < |keys| && 0 <= q < |r| && keys[a] !in left
        ensures !ReachedBefore(refs, keys, a + 1, r[q]) ==> keys[a] in r[..q]
      {
        if q < |r0| {
          assert r[q] == r0[q] && r[..q] == r0[..q];
        } else {
          assert r[q] == last && r[..q] == r0;
          assert names[|names| - 1] == last && names[..|names| - 1] == init;
        }
      }
    }
  }

  /** Every name in the graph of defined references is a rule. */
  lemma DefinedUniverse(refs: map<string, seq<string>>)
    requires Defined(refs)
    ensures Universe(refs) == refs.Keys
  {
  }

  /** The rules `to_ruby` writes out at the top level, in order, with the result of
      `break_cycles` they are written from. */
  datatype Emitted = Emitted(names: seq<string>, broken: Broken)

  /** `to_ruby`, less the writing of each rule: `sorted_names` of the broken
      references, less the rules moved into a cycle's root. Every rule not moved is
      written once, after the rules it refers to that are written too. */
  method TopLevelNames(rules: Table<Pattern>) returns (r: Result<Emitted>)
    requires rules.Valid()
    ensures r == Fail(UnknownRuleType) <==> !AllSupported(rules)
    ensures r.Fail? && r.failure.UndefinedRule? <==> References(rules).Some? && !Defined(References(rules).value.entries)
    ensures r.Ok? ==> References(rules).Some? &&
                      CyclesBroken(References(rules).value, r.value.broken.cycles, r.value.broken.refs) &&
                      Reparents(r.value.broken)
    ensures r.Ok? ==> forall x :: x in r.value.names <==> x in rules.entries && x !in r.value.broken.orphaned
    ensures r.Ok? ==> Distinct(r.value.names)
    ensures r.Ok? ==> RefersBackwards(r.value.broken.refs.entries, r.value.names, r.value.broken.orphaned)
    ensures r.Ok? ==> KeysFirst(r.value.broken.refs.entries, rules.keys, |rules.keys|, r.value.names, r.value.broken.orphaned)
  {
    ReferencesAreTheMentions(rules);
    var broken := BreakCycles(rules);
    if broken.Fail? {
      return Fail(broken.failure);
    }
    var b := broken.value;
    var sorted := SortedNames(b.refs);
    DefinedUniverse(References(rules).value.entries);
    SortedWithoutCycles(b.refs.entries, sorted);
    MinusRefersBackwards(b.refs.entries, sorted, b.orphaned);
    MinusKeepsKeysFirst(b.refs.entries, b.refs.keys, |b.refs.keys|, sorted, b.orphaned);
    r := Ok(Emitted(Minus(sorted, b.orphaned), b));
  }
}
