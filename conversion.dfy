/** Pieces shared by the grammar readers of `Parsers::BNF`, `Parsers::EBNF` and
    `Parsers::W3C_EBNF`: the reference-count hash, the classification of a direct
    self-reference, the elimination of direct left and right recursion that BNF and
    W3C apply, the final sort by reference count, and the path expansion that EBNF
    and W3C use to find indirectly recursive rules.
 */
module Conversion {
  import opened Grammar

  /** `Hash.new(0)` of reference counts: its keys in insertion order, and its values. */
  datatype Tally = Tally(order: seq<string>, count: map<string, nat>)
  {
    predicate Valid()
    {
      count.Keys == (set k | k in order) && Distinct(order)
    }

    /** `reference_counts[k]`: the count, 0 for a missing key. */
    function Get(k: string): nat
    {
      if k in count then count[k] else 0
    }

    /** `reference_counts[k] += 1` */
    function Bump(k: string): (r: Tally)
      ensures Valid() ==> r.Valid()
      ensures r.Get(k) == Get(k) + 1
      ensures forall x :: x != k ==> r.Get(x) == Get(x)
      ensures r.count.Keys == count.Keys + {k}
    {
      if k in count then Tally(order, count[k := count[k] + 1])
      else Tally(order + [k], count[k := 1])
    }

    /** `reference_counts[k] = 0 unless reference_counts.key?(k)` */
    function Touch(k: string): (r: Tally)
      ensures Valid() ==> r.Valid()
      ensures forall x :: r.Get(x) == Get(x)
      ensures r.count.Keys == count.Keys + {k}
    {
      if k in count then this else Tally(order + [k], count[k := 0])
    }
  }

  const NoCounts := Tally([], map[])

  predicate Distinct(s: seq<string>)
  {
    forall i, j :: 0 <= i < j < |s| ==> s[i] != s[j]
  }

  /** `is_recursive = [list_index, kind]` */
  datatype Tag = Tag(list: nat, kind: Kind)

  /** How a self-reference at index `j` of an alternative of length `n` is classified,
      given the kind already recorded for the same alternative (if any). */
  function ClassifyKind(previous: Option<Kind>, j: nat, n: nat): (k: Kind)
    ensures k == Left <==> j == 0
    ensures k == Both <==> j != 0 && j == n - 1 && previous == Some(Left)
    ensures k == Right <==> j != 0 && j == n - 1 && previous != Some(Left)
    ensures k == Center <==> j != 0 && j != n - 1
  {
    if j == 0 then Left
    else if j == n - 1 then (if previous == Some(Left) then Both else Right)
    else Center
  }

  /** The single `is_recursive` of BNF and W3C: a self-reference in alternative `i`
      replaces whatever was recorded before, and only a `:left` mark on the same
      alternative can turn a later one into `:both`. */
  function Classify(previous: Option<Tag>, i: nat, j: nat, n: nat): Tag
  {
    Tag(i, ClassifyKind(if previous.Some? && previous.value.list == i then Some(previous.value.kind) else None, j, n))
  }

  /** `mapped.length > 1 ? Alternation.with(*mapped) : mapped.first`, where nil means
      that the rule was not converted. */
  function Finish(mapped: seq<Pattern>): (r: Option<Pattern>)
    ensures |mapped| > 1 ==> r == Some(Alt(mapped))
    ensures |mapped| == 1 ==> (r.Some? <==> mapped[0] != Nil) && (r.Some? ==> r.value == mapped[0])
    ensures |mapped| == 0 ==> r.None?
  {
    if |mapped| > 1 then Some(Alt(mapped))
    else if |mapped| == 1 && mapped[0] != Nil then Some(mapped[0])
    else None
  }

  function Drop1<T>(s: seq<T>): seq<T>
  {
    if s == [] then [] else s[1..]
  }

  function DropLast<T>(s: seq<T>): seq<T>
  {
    if s == [] then [] else s[..|s| - 1]
  }

  /** What follows the self-reference of a left-recursive alternative, joined back into one pattern. */
  function LeftRemainder(recursive: Pattern): Pattern
  {
    Join(Drop1(ToA(recursive)))
  }

  /** What precedes the self-reference of a right-recursive alternative, joined back into one pattern. */
  function RightRemainder(recursive: Pattern): Pattern
  {
    Join(DropLast(ToA(recursive)))
  }

  /** The alternatives other than the one at `idx`. */
  function Others(mapped: seq<Pattern>, idx: nat): (r: seq<Pattern>)
    requires idx < |mapped|
    ensures |r| == |mapped| - 1
    ensures forall k :: 0 <= k < |r| ==> r[k] == mapped[if k < idx then k else k + 1]
  {
    mapped[..idx] + mapped[idx + 1..]
  }

  /** A base alternative under right recursion: `any(remainder)` goes in front. */
  function PrependRepetition(remainder: Pattern, list: Pattern): Pattern
  {
    if remainder == list then AtLeast(1, remainder)
    else if list.Cat? then Cat([Any(remainder)] + list.elems)
    else Cat([Any(remainder), list])
  }

  /** A base alternative under left recursion: `any(remainder)` is pushed onto a
      Concatenation, but a lone element gets it in front, as the code is written. */
  function AppendRepetition(remainder: Pattern, list: Pattern): Pattern
  {
    if remainder == list then AtLeast(1, remainder)
    else if list.Cat? then Cat(list.elems + [Any(remainder)])
    else Cat([Any(remainder), list])
  }

  function MapAtLeastOne(s: seq<Pattern>): (r: seq<Pattern>)
    ensures |r| == |s| && forall k :: 0 <= k < |s| ==> r[k] == AtLeast(1, s[k])
  {
    if s == [] then [] else [AtLeast(1, s[0])] + MapAtLeastOne(s[1..])
  }

  function MapPrepend(remainder: Pattern, s: seq<Pattern>): (r: seq<Pattern>)
    ensures |r| == |s| && forall k :: 0 <= k < |s| ==> r[k] == PrependRepetition(remainder, s[k])
  {
    if s == [] then [] else [PrependRepetition(remainder, s[0])] + MapPrepend(remainder, s[1..])
  }

  function MapAppend(remainder: Pattern, s: seq<Pattern>): (r: seq<Pattern>)
    ensures |r| == |s| && forall k :: 0 <= k < |s| ==> r[k] == AppendRepetition(remainder, s[k])
  {
    if s == [] then [] else [AppendRepetition(remainder, s[0])] + MapAppend(remainder, s[1..])
  }

  /** The direct-recursion elimination of BNF and W3C, acting on the converted
      alternatives `mapped` and the one recorded tag. The recursive alternative is
      compared by identity in the source; it is the only alternative built around
      the self-reference node, so it is identified here by its index. */
  function Eliminate(mapped: seq<Pattern>, tag: Option<Tag>): (r: seq<Pattern>)
    requires tag.Some? ==> tag.value.list < |mapped|
    ensures tag.None? || tag.value.kind == Center ==> r == mapped
    ensures tag.Some? && tag.value.kind == Both ==>
              if |ToA(mapped[tag.value.list])| == 2 then
                |r| == |mapped| - 1 &&
                forall k :: 0 <= k < |r| ==> r[k] == AtLeast(1, Others(mapped, tag.value.list)[k])
              else r == mapped
    ensures tag.Some? && tag.value.kind == Right ==>
              var rem := RightRemainder(mapped[tag.value.list]);
              |r| == |mapped| - 1 &&
              forall k :: 0 <= k < |r| ==>
                var m := Others(mapped, tag.value.list)[k];
                (m == rem ==> r[k] == AtLeast(1, rem)) &&
                (m != rem ==> r[k] == Cat([Any(rem)] + ToA(m)))
    ensures tag.Some? && tag.value.kind == Left ==>
              var rem := LeftRemainder(mapped[tag.value.list]);
              |r| == |mapped| - 1 &&
              forall k :: 0 <= k < |r| ==>
                var m := Others(mapped, tag.value.list)[k];
                (m == rem ==> r[k] == AtLeast(1, rem)) &&
                (m != rem && m.Cat? ==> r[k] == Cat(m.elems + [Any(rem)])) &&
                (m != rem && !m.Cat? ==> r[k] == Cat([Any(rem), m]))
  {
    if tag.None? then mapped
    else
      var idx := tag.value.list;
      var recursive := mapped[idx];
      match tag.value.kind
      case Both => if |ToA(recursive)| == 2 then MapAtLeastOne(Others(mapped, idx)) else mapped
      case Right => MapPrepend(RightRemainder(recursive), Others(mapped, idx))
      case Left => MapAppend(LeftRemainder(recursive), Others(mapped, idx))
      case Center => mapped
  }

  /** Every count in `s` is at most every count after it. */
  predicate SortedBy(s: seq<string>, t: Tally)
  {
    forall i, j :: 0 <= i < j < |s| ==> t.Get(s[i]) <= t.Get(s[j])
  }

  lemma SortedHeadIsLeast(s: seq<string>, t: Tally)
    requires SortedBy(s, t) && s != []
    ensures forall y :: y in s ==> t.Get(s[0]) <= t.Get(y)
  {
    forall y | y in s ensures t.Get(s[0]) <= t.Get(y) {
      var k :| 0 <= k < |s| && s[k] == y;
    }
  }

  function Insert(x: string, sorted: seq<string>, t: Tally): (r: seq<string>)
    ensures multiset(r) == multiset(sorted) + multiset{x}
    ensures forall y :: y in r <==> y == x || y in sorted
  {
    if sorted == [] then [x]
    else if t.Get(x) <= t.Get(sorted[0]) then [x] + sorted
    else
      assert sorted == [sorted[0]] + sorted[1..];
      [sorted[0]] + Insert(x, sorted[1..], t)
  }

  lemma ConsKeepsSorted(h: string, s: seq<string>, t: Tally)
    requires SortedBy(s, t)
    requires forall y :: y in s ==> t.Get(h) <= t.Get(y)
    ensures SortedBy([h] + s, t)
  {
    var r := [h] + s;
    forall i, j | 0 <= i < j < |r| ensures t.Get(r[i]) <= t.Get(r[j]) {
      assert r[j] == s[j - 1];
      if i > 0 { assert r[i] == s[i - 1]; }
    }
  }

  /** A name inserted into a list sorted by count lands where the list stays sorted. */
  lemma {:induction false} InsertKeepsSorted(x: string, sorted: seq<string>, t: Tally)
    requires SortedBy(sorted, t)
    ensures SortedBy(Insert(x, sorted, t), t)
  {
    if sorted != [] {
      SortedHeadIsLeast(sorted, t);
      if t.Get(x) <= t.Get(sorted[0]) {
        ConsKeepsSorted(x, sorted, t);
      } else {
        var rest := Insert(x, sorted[1..], t);
        InsertKeepsSorted(x, sorted[1..], t);
        assert SortedBy(sorted[1..], t) by {
          forall i, j | 0 <= i < j < |sorted[1..]| ensures t.Get(sorted[1..][i]) <= t.Get(sorted[1..][j]) {
            assert sorted[1..][i] == sorted[i + 1] && sorted[1..][j] == sorted[j + 1];
          }
        }
        forall y | y in rest ensures t.Get(sorted[0]) <= t.Get(y) {
          if y != x { assert y in sorted; }
        }
        ConsKeepsSorted(sorted[0], rest, t);
      }
    }
  }

  lemma {:induction false} InsertKeepsDistinct(x: string, sorted: seq<string>, t: Tally)
    requires SortedBy(sorted, t) && Distinct(sorted) && x !in sorted
    ensures Distinct(Insert(x, sorted, t))
  {
    if sorted != [] && t.Get(x) > t.Get(sorted[0]) {
      InsertKeepsDistinct(x, sorted[1..], t);
      assert sorted[0] !in Insert(x, sorted[1..], t);
    }
  }

  /** `sort_by {|k, _| reference_counts[k]}`: the names by ascending count. Ruby's sort
      is not stable; only the order between different counts is meaningful here. */
  function SortByCount(names: seq<string>, t: Tally): (r: seq<string>)
    ensures multiset(r) == multiset(names)
    ensures forall y :: y in r <==> y in names
    ensures SortedBy(r, t)
  {
    if names == [] then []
    else
      assert names == [names[0]] + names[1..];
      InsertKeepsSorted(names[0], SortByCount(names[1..], t), t);
      Insert(names[0], SortByCount(names[1..], t), t)
  }

  /** Sorting keeps distinct keys distinct. */
  lemma {:induction false} SortKeepsDistinct(names: seq<string>, t: Tally)
    requires Distinct(names)
    ensures Distinct(SortByCount(names, t))
  {
    if names != [] {
      SortKeepsDistinct(names[1..], t);
      InsertKeepsDistinct(names[0], SortByCount(names[1..], t), t);
    }
  }

  /** A rule that takes part in path expansion: its name and the rules it refers to. */
  datatype Node = Node(name: string, refs: seq<string>)

  /** Among `nodes`, a rule named `a` refers to `b`. */
  predicate Edge(nodes: seq<Node>, a: string, b: string)
  {
    exists k :: 0 <= k < |nodes| && nodes[k].name == a && b in nodes[k].refs
  }

  /** Each step of `path` follows a reference, starting from one of the rules. */
  predicate IsChain(nodes: seq<Node>, path: seq<string>)
  {
    |path| >= 1 &&
    (exists k :: 0 <= k < |nodes| && nodes[k].name == path[0]) &&
    forall i :: 0 <= i < |path| - 1 ==> Edge(nodes, path[i], path[i + 1])
  }

  /** `name` lies on a cycle of references that returns to it. */
  ghost predicate OnCycle(nodes: seq<Node>, name: string)
  {
    exists path :: IsChain(nodes, path) && |path| >= 2 && path[0] == name && path[|path| - 1] == name
  }

  /** The paths that end in `name`, each extended by every reference in `refs`. */
  function Extend(paths: seq<seq<string>>, name: string, refs: seq<string>): seq<seq<string>>
  {
    if paths == [] then []
    else if |paths[0]| > 0 && paths[0][|paths[0]| - 1] == name then
      Fan(paths[0], refs) + Extend(paths[1..], name, refs)
    else [paths[0]] + Extend(paths[1..], name, refs)
  }

  function Fan(path: seq<string>, refs: seq<string>): (r: seq<seq<string>>)
    ensures |r| == |refs| && forall i :: 0 <= i < |refs| ==> r[i] == path + [refs[i]]
  {
    if refs == [] then [] else [path + [refs[0]]] + Fan(path, refs[1..])
  }

  /** The rules that some path ending in `name` returns to: `recursive_rules[reference] ||= Recursion.new`. */
  function Closed(paths: seq<seq<string>>, name: string, refs: seq<string>): set<string>
  {
    set p, r | p in paths && |p| > 0 && p[|p| - 1] == name && r in refs && r == p[0] :: r
  }

  /** The `reduce` over the still unconverted rules: a new path for each rule, then
      every path ending in it is extended by its references, and a path that comes
      back to its first rule gives that rule a Recursion proxy. */
  function ExpandPaths(nodes: seq<Node>, i: nat, paths: seq<seq<string>>, proxies: set<string>): (r: set<string>)
    requires i <= |nodes|
    decreases |nodes| - i
  {
    if i == |nodes| then proxies
    else
      var name := nodes[i].name;
      var started := paths + [[name]];
      ExpandPaths(nodes, i + 1, Extend(started, name, nodes[i].refs),
                  proxies + Closed(started, name, nodes[i].refs))
  }

  lemma {:induction false} ExtendKeepsChains(nodes: seq<Node>, i: nat, paths: seq<seq<string>>)
    requires i < |nodes|
    requires forall p :: p in paths ==> IsChain(nodes, p)
    ensures forall p :: p in Extend(paths, nodes[i].name, nodes[i].refs) ==> IsChain(nodes, p)
    decreases |paths|
  {
    if paths != [] {
      ExtendKeepsChains(nodes, i, paths[1..]);
      var p := paths[0];
      if |p| > 0 && p[|p| - 1] == nodes[i].name {
        forall q | q in Fan(p, nodes[i].refs) ensures IsChain(nodes, q) {
          var k :| 0 <= k < |nodes[i].refs| && q == p + [nodes[i].refs[k]];
          StepExtendsChain(nodes, i, p, nodes[i].refs[k]);
        }
      }
    }
  }

  /** A chain ending in the rule at `i`, followed by one of its references, is a chain. */
  lemma StepExtendsChain(nodes: seq<Node>, i: nat, p: seq<string>, r: string)
    requires i < |nodes| && IsChain(nodes, p) && p[|p| - 1] == nodes[i].name && r in nodes[i].refs
    ensures IsChain(nodes, p + [r])
  {
    var q := p + [r];
    assert Edge(nodes, q[|q| - 2], q[|q| - 1]);
    assert q[0] == p[0];
    forall j | 0 <= j < |q| - 1 ensures Edge(nodes, q[j], q[j + 1]) {
      if j < |q| - 2 {
        assert q[j] == p[j] && q[j + 1] == p[j + 1];
      }
    }
  }

  /** Each rule that a path closes on lies on a cycle. */
  lemma ClosedLieOnCycles(nodes: seq<Node>, i: nat, paths: seq<seq<string>>)
    requires i < |nodes|
    requires forall p :: p in paths ==> IsChain(nodes, p)
    ensures forall r :: r in Closed(paths, nodes[i].name, nodes[i].refs) ==> OnCycle(nodes, r)
  {
    forall r | r in Closed(paths, nodes[i].name, nodes[i].refs) ensures OnCycle(nodes, r) {
      var p :| p in paths && |p| > 0 && p[|p| - 1] == nodes[i].name && r in nodes[i].refs && r == p[0];
      StepExtendsChain(nodes, i, p, r);
      var c := p + [r];
      assert c[0] == r && c[|c| - 1] == r;
    }
  }

  /** Every proxy that path expansion creates is for a rule that lies on a cycle of
      references among the unconverted rules. */
  lemma {:induction false} ProxiesLieOnCycles(nodes: seq<Node>, i: nat, paths: seq<seq<string>>, proxies: set<string>)
    requires i <= |nodes|
    requires forall p :: p in paths ==> IsChain(nodes, p)
    requires forall r :: r in proxies ==> OnCycle(nodes, r)
    ensures forall r :: r in ExpandPaths(nodes, i, paths, proxies) ==> OnCycle(nodes, r)
    decreases |nodes| - i
  {
    if i < |nodes| {
      var started := paths + [[nodes[i].name]];
      assert IsChain(nodes, [nodes[i].name]);
      assert forall p :: p in started ==> IsChain(nodes, p);
      ExtendKeepsChains(nodes, i, started);
      ClosedLieOnCycles(nodes, i, started);
      ProxiesLieOnCycles(nodes, i + 1, Extend(started, nodes[i].name, nodes[i].refs),
                         proxies + Closed(started, nodes[i].name, nodes[i].refs));
    }
  }

  // The rule table of the EBNF and W3C readers.

  /** What the EBNF and W3C `convert_rhs` consult but does not change: the rule being converted, the
      rule table (every declared name, nil until converted) and the names that have a
      `Recursion` proxy. */
  datatype Env = Env(owner: string, rules: map<string, Option<Pattern>>, proxies: set<string>)
  {
    /** `rules[name]` is truthy. */
    predicate Converted(name: string)
    {
      name in rules && rules[name].Some?
    }

    /** A reference that makes the conversion bail out: declared, not converted yet,
        not proxied, and not the rule itself. */
    predicate Unresolvable(name: string)
    {
      name in rules && rules[name].None? && name != owner && name !in proxies
    }

    /** A reference to the rule itself reaches the self-reference branch: the first
        branch only takes converted rules without a proxy. */
    predicate SeesItself()
    {
      !(Converted(owner) && owner !in proxies)
    }
  }

  /** A lone rule `owner`, not yet converted, with no proxies. */
  function Alone(owner: string): Env
  {
    Env(owner, map[owner := None], {})
  }

  /** The rule table and the reference counts of a reading in progress. */
  datatype EState = EState(rules: map<string, Option<Pattern>>, counts: Tally)

  /** What `EBNF.read` and `W3C_EBNF.read` return: every rule with its pattern (nil when it never
      converted), by ascending reference count; and the target of each `Recursion`
      proxy. */
  datatype Outcome = Outcome(listing: seq<(string, Option<Pattern>)>, recursions: map<string, Option<Pattern>>)

  /** `names.map {|name| [name, rules[name]] }`: each name paired with its entry, in order. */
  function Entries<V>(names: seq<string>, rules: map<string, V>): (r: seq<(string, V)>)
    requires forall n :: n in names ==> n in rules
    ensures |r| == |names| && forall k :: 0 <= k < |r| ==> r[k] == (names[k], rules[names[k]])
  {
    if names == [] then [] else [(names[0], rules[names[0]])] + Entries(names[1..], rules)
  }

  /** The entries of a list of names hold each of those names, and no other. */
  lemma EntriesHoldTheNames(sorted: seq<string>, names: seq<string>, rules: map<string, Option<Pattern>>)
    requires forall n :: n in sorted <==> n in names
    requires forall n :: n in names ==> n in rules
    ensures var r := Entries(sorted, rules);
            (forall k :: 0 <= k < |r| ==> r[k].0 in names && r[k].1 == rules[r[k].0]) &&
            (forall n :: n in names ==> exists k :: 0 <= k < |r| && r[k].0 == n)
  {
    var r := Entries(sorted, rules);
    forall k | 0 <= k < |r| ensures r[k].0 in names {
      assert sorted[k] in sorted;
    }
    forall n | n in names ensures exists k :: 0 <= k < |r| && r[k].0 == n {
      var k :| 0 <= k < |sorted| && sorted[k] == n;
      assert r[k].0 == n;
    }
  }

  /** The entries of a list of names keep the list's order. */
  lemma EntriesKeepTheOrder(sorted: seq<string>, st: EState)
    requires Distinct(sorted) && SortedBy(sorted, st.counts)
    requires forall n :: n in sorted ==> n in st.rules
    ensures var r := Entries(sorted, st.rules);
            (forall i, j :: 0 <= i < j < |r| ==> r[i].0 != r[j].0) &&
            (forall i, j :: 0 <= i < j < |r| ==> st.counts.Get(r[i].0) <= st.counts.Get(r[j].0))
  {
  }

  /** `rules.sort_by {|k, v| reference_counts[k]}.to_h`: every name once, with its
      entry, by ascending count. */
  function ByCount(names: seq<string>, st: EState): (r: seq<(string, Option<Pattern>)>)
    requires Distinct(names) && forall n :: n in names ==> n in st.rules
    ensures forall k :: 0 <= k < |r| ==> r[k].0 in names && r[k].1 == st.rules[r[k].0]
    ensures forall n :: n in names ==> exists k :: 0 <= k < |r| && r[k].0 == n
    ensures forall i, j :: 0 <= i < j < |r| ==> r[i].0 != r[j].0
    ensures forall i, j :: 0 <= i < j < |r| ==> st.counts.Get(r[i].0) <= st.counts.Get(r[j].0)
  {
    var sorted := SortByCount(names, st.counts);
    SortKeepsDistinct(names, st.counts);
    EntriesHoldTheNames(sorted, names, st.rules);
    EntriesKeepTheOrder(sorted, st);
    Entries(sorted, st.rules)
  }

  /** Sorting the keys of a hash filled from `declared`: every declared name once,
      with its entry. */
  lemma ByCountListsEachName(declared: seq<string>, st: EState)
    requires forall n :: n in declared ==> n in st.rules
    ensures var l := ByCount(Dedup(declared), st);
            (forall k :: 0 <= k < |l| ==> l[k].0 in declared && l[k].0 in st.rules && l[k].1 == st.rules[l[k].0]) &&
            (forall n :: n in declared ==> exists k :: 0 <= k < |l| && l[k].0 == n) &&
            (forall i, j :: 0 <= i < j < |l| ==> l[i].0 != l[j].0)
  {
    var names := Dedup(declared);
    var l := ByCount(names, st);
    forall n | n in declared ensures exists k :: 0 <= k < |l| && l[k].0 == n {
      assert n in names;
    }
  }

  /** Two tables with the same names and the same entry under each name are equal. */
  lemma SameEntries(a: map<string, Option<Pattern>>, b: map<string, Option<Pattern>>)
    requires a.Keys == b.Keys && forall r :: r in a ==> a[r] == b[r]
    ensures a == b
  {
  }

  /** `recursive_rules.each {|name, recursion| recursion.grammar = rules[name]}` */
  method FixUp(proxies: set<string>, rules: map<string, Option<Pattern>>) returns (recursions: map<string, Option<Pattern>>)
    requires proxies <= rules.Keys
    ensures recursions.Keys == proxies && forall r :: r in proxies ==> recursions[r] == rules[r]
  {
    recursions := map[];
    var pending := proxies;
    while pending != {}
      invariant pending <= proxies
      invariant recursions.Keys == proxies - pending
      invariant forall r :: r in recursions ==> recursions[r] == rules[r]
      decreases pending
    {
      var r :| r in pending;
      recursions := recursions[r := rules[r]];
      pending := pending - {r};
    }
  }
}
