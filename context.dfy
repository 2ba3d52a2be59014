/** `Parsers::Context`: a chain of scopes. A lookup walks from the innermost scope
    outward and answers with the nearest binding; a write always goes into the
    scope it is made on.
 */
module Contexts {
  import opened Grammar

  /** The binding of `key` in the first scope of `scopes` that has one. */
  function Nearest<K, V>(scopes: seq<map<K, V>>, key: K): Option<V>
  {
    if scopes == [] then None
    else if key in scopes[0] then Some(scopes[0][key])
    else Nearest(scopes[1..], key)
  }

  /** `Nearest` finds `v` exactly when some scope binds `key` to `v` and no scope
      before it binds `key` at all. */
  lemma {:induction false} NearestIsFirstBinding<K, V>(scopes: seq<map<K, V>>, key: K, v: V)
    ensures Nearest(scopes, key) == Some(v) <==>
            exists i :: 0 <= i < |scopes| && key in scopes[i] && scopes[i][key] == v &&
                        forall j :: 0 <= j < i ==> key !in scopes[j]
  {
    if scopes != [] {
      NearestIsFirstBinding(scopes[1..], key, v);
      if Nearest(scopes, key) == Some(v) && key !in scopes[0] {
        var i :| 0 <= i < |scopes[1..]| && key in scopes[1..][i] && scopes[1..][i][key] == v &&
                 forall j :: 0 <= j < i ==> key !in scopes[1..][j];
        assert key in scopes[i + 1] && forall j :: 0 <= j < i + 1 ==> key !in scopes[j] by {
          forall j | 0 <= j < i + 1 ensures key !in scopes[j] {
            if j > 0 { assert scopes[j] == scopes[1..][j - 1]; }
          }
        }
      }
      if exists i :: 0 <= i < |scopes| && key in scopes[i] && scopes[i][key] == v &&
                     forall j :: 0 <= j < i ==> key !in scopes[j] {
        var i :| 0 <= i < |scopes| && key in scopes[i] && scopes[i][key] == v &&
                 forall j :: 0 <= j < i ==> key !in scopes[j];
        if i > 0 {
          assert key in scopes[1..][i - 1] && forall j :: 0 <= j < i - 1 ==> key !in scopes[1..][j];
        }
      }
    }
  }

  /** Some scope binds `key` exactly when `Nearest` finds a binding for it. */
  lemma {:induction false} NearestFindsAnyBinding<K, V>(scopes: seq<map<K, V>>, key: K)
    ensures Nearest(scopes, key).Some? <==> exists i :: 0 <= i < |scopes| && key in scopes[i]
  {
    if scopes != [] {
      NearestFindsAnyBinding(scopes[1..], key);
      if key !in scopes[0] && exists i :: 0 <= i < |scopes| && key in scopes[i] {
        var i :| 0 <= i < |scopes| && key in scopes[i];
        assert key in scopes[1..][i - 1];
      }
    }
  }

  class Context<K(==), V> {
    /** The bindings of this scope. */
    var local: map<K, V>
    /** The enclosing scope, if any. */
    const parent: Context?<K, V>
    /** This scope and every scope enclosing it. */
    ghost const Repr: set<object>

    ghost predicate Valid()
      reads this, Repr
      decreases Repr
    {
      this in Repr &&
      (parent == null ==> Repr == {this}) &&
      (parent != null ==>
         parent in Repr && parent.Repr <= Repr && this !in parent.Repr &&
         Repr == {this} + parent.Repr && parent.Valid())
    }

    /** The bindings of every scope, innermost first. */
    ghost function Scopes(): seq<map<K, V>>
      requires Valid()
      reads Repr
      decreases Repr
    {
      [local] + (if parent == null then [] else parent.Scopes())
    }

    /** `initialize(local:, parent:)`: a nil `local` is an empty scope. */
    constructor (local: Option<map<K, V>>, parent: Context?<K, V>)
      requires parent != null ==> parent.Valid()
      ensures Valid() && this.parent == parent
      ensures this.local == local.GetOr(map[])
      ensures Repr == {this} + (if parent == null then {} else parent.Repr)
    {
      this.local := local.GetOr(map[]);
      this.parent := parent;
      Repr := {this} + (if parent == null then {} else parent.Repr);
    }

    /** `[]`: the value bound to `key` in this scope, else in the enclosing ones, else nil. */
    function Get(key: K): (r: Option<V>)
      requires Valid()
      reads Repr
      ensures r == Nearest(Scopes(), key)
      decreases Repr
    {
      if key in local then Some(local[key])
      else if parent == null then None
      else parent.Get(key)
    }

    /** `key?`: whether this scope or an enclosing one binds `key`. */
    function HasKey(key: K): (r: bool)
      requires Valid()
      reads Repr
      ensures r <==> Get(key).Some?
      decreases Repr
    {
      key in local || (parent != null && parent.HasKey(key))
    }

    /** `[]=`: binds `key` in this scope only. */
    method Set(key: K, value: V)
      requires Valid()
      modifies this
      ensures Valid() && local == old(local)[key := value]
      ensures Get(key) == Some(value)
      ensures forall k :: k != key ==> Get(k) == Nearest(old(Scopes()), k)
    {
      local := local[key := value];
    }

    /** `pop`: the enclosing scope. */
    function Pop(): (r: Context?<K, V>)
      requires Valid()
      reads Repr
      ensures r != null ==> r.Valid() && r.Scopes() == Scopes()[1..]
    {
      parent
    }

    /** `push`: a new innermost scope holding `local`, enclosed by this one. */
    method Push(local: map<K, V>) returns (c: Context<K, V>)
      requires Valid()
      ensures fresh(c) && c.Valid() && c.parent == this && c.local == local
      ensures c.Scopes() == [local] + Scopes()
      ensures forall k :: c.Get(k) == if k in local then Some(local[k]) else Get(k)
    {
      c := new Context(Some(local), this);
    }

    /** `push_pattern`: a new scope only for a pattern that declares a non-empty
        context; otherwise this one. */
    method PushPattern(context: Option<map<K, V>>) returns (c: Context<K, V>)
      requires Valid()
      ensures c.Valid()
      ensures context.Some? && context.value != map[] ==>
                fresh(c) && c.parent == this && c.Scopes() == [context.value] + Scopes()
      ensures !(context.Some? && context.value != map[]) ==> c == this
    {
      if context.Some? && context.value != map[] {
        c := Push(context.value);
      } else {
        c := this;
      }
    }
  }
}
