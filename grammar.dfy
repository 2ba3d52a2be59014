/** The pattern algebra that the parsers consume and produce.

    Ruby's `Grammar` library (Alternation, Concatenation, Repetition,
    Recursion and their combinators) is not part of this model; it is
    represented here by one datatype, structural equality and a few
    predicates. Besides the pattern kinds the matcher interprets, the
    datatype has the values the grammar readers leave inside a converted
    rule (rule references, the raw self-reference node, a stray integer,
    nil), so that both sides can be stated over one type.
 */
module Grammar {

  datatype Option<+T> = None | Some(value: T)
  {
    function GetOr(default: T): T
    {
      match this
      case Some(v) => v
      case None => default
    }
  }

  /** The classification of a direct self-reference inside one alternative. */
  datatype Kind = Left | Right | Both | Center

  datatype Pattern =
    | Lit(text: string)                       // a String pattern
    | CharRange(lo: char, hi: char)           // a Range of characters, 'a'..'z'
    | Alt(alts: seq<Pattern>)                 // Grammar::Alternation
    | Cat(elems: seq<Pattern>)                // Grammar::Concatenation
    | Rep(inner: Pattern, min: Option<nat>, max: Option<nat>)  // Grammar::Repetition
    | Rec(rule: string)                       // Grammar::Recursion, resolved through a rule table
    | RuleRef(rule: string, target: Pattern)  // a reference to a converted rule (RuleReference)
    | RecursiveRef(rule: string)              // RecursiveReference
    | SelfRef(rule: string)                   // the parse node of a direct self-reference, kept as it is
    | Tagged(node: Pattern, listIndex: nat, kind: Kind)  // the [node, [index, kind]] pair of a W3C self-reference
    | Number(n: nat)                          // the integer that the unknown-rule branch leaves behind
    | Nil                                     // Ruby's nil where a pattern was expected

  /** `Grammar::Repetition.any(p)`: zero or more. */
  function Any(p: Pattern): Pattern { Rep(p, Some(0), None) }

  /** `Grammar::Repetition.optional(p)`: zero or one. */
  function Optional(p: Pattern): Pattern { Rep(p, Some(0), Some(1)) }

  /** `Grammar::Repetition.at_least(n, p)` and `p.at_least(n)`; `one_or_more` is `AtLeast(1, p)`. */
  function AtLeast(n: nat, p: Pattern): Pattern { Rep(p, Some(n), None) }

  /** `optional?`: a repetition of zero or one. */
  predicate IsOptional(p: Pattern)
  {
    p.Rep? && p.min.GetOr(0) == 0 && p.max == Some(1)
  }

  /** `to_a` of a converted alternative: the elements of a Concatenation, else the element alone. */
  function ToA(p: Pattern): (r: seq<Pattern>)
    ensures |r| >= 1 || p.Cat?
  {
    if p.Cat? then p.elems else [p]
  }

  /** `list.length > 1 ? Concatenation.with(*list) : list.first` */
  function Join(list: seq<Pattern>): Pattern
  {
    if |list| > 1 then Cat(list) else if |list| == 1 then list[0] else Nil
  }

  /** What a successful match produces. */
  datatype Tree =
    | Text(text: string)                              // the matched text of a String or Range
    | AltMatch(pattern: Pattern, choice: Tree, start: nat)              // `pattern.new`: an Alternation's winning branch
    | CatMatch(pattern: Pattern, parts: seq<Option<Tree>>, start: nat)  // `pattern.new`: a Concatenation, nil for tolerated failures
    | List(items: seq<Tree>)                          // a Repetition's matches

  /** `list.uniq`: the first occurrence of each element, in order. */
  function Dedup(list: seq<string>): (r: seq<string>)
    ensures forall x :: x in r <==> x in list
    ensures forall i, j :: 0 <= i < j < |r| ==> r[i] != r[j]
  {
    DedupFrom(list, [])
  }

  function DedupFrom(list: seq<string>, seen: seq<string>): (r: seq<string>)
    requires forall i, j :: 0 <= i < j < |seen| ==> seen[i] != seen[j]
    ensures forall x :: x in r <==> x in list || x in seen
    ensures forall i, j :: 0 <= i < j < |r| ==> r[i] != r[j]
    ensures |seen| <= |r| && r[..|seen|] == seen
    decreases |list|
  {
    if list == [] then seen
    else if list[0] in seen then DedupFrom(list[1..], seen)
    else DedupFrom(list[1..], seen + [list[0]])
  }
}
