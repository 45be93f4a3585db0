/** The "Extends traits" line of a class or trait page: the parent traits
    found transitively by a worklist over the resolved trait hierarchy. Types
    are identified by their printed names, as the code compares them. */
module Traits {
  import opened Sorting

  /** The resolved hierarchy: each trait's parent traits, and a height that
      witnesses what the resolver guarantees, that inheritance is acyclic. */
  datatype Hierarchy = Hierarchy(parents: map<string, seq<string>>, height: map<string, nat>)

  /** A trait's parents; none for a name the hierarchy does not resolve. */
  function Parents(h: Hierarchy, t: string): seq<string> {
    if t in h.parents then h.parents[t] else []
  }

  function Height(h: Hierarchy, t: string): nat {
    if t in h.height then h.height[t] else 0
  }

  /** Every parent sits strictly lower than its child. */
  predicate Ranked(h: Hierarchy) {
    forall t, i | t in h.parents && 0 <= i < |h.parents[t]| :: Height(h, h.parents[t][i]) < Height(h, t)
  }

  /** `t` and everything it extends, directly or not. */
  ghost function Ancestors(h: Hierarchy, t: string): set<string>
    requires Ranked(h)
    decreases Height(h, t)
  {
    {t} + (set i, a | 0 <= i < |Parents(h, t)| && a in Ancestors(h, Parents(h, t)[i]) :: a)
  }

  /** Everything reachable from the direct parents, the direct parents included. */
  ghost function Reach(h: Hierarchy, direct: seq<string>): set<string>
    requires Ranked(h)
  {
    set i, a | 0 <= i < |direct| && a in Ancestors(h, direct[i]) :: a
  }

  /** A parent of an ancestor is an ancestor. */
  lemma {:induction false} AncestorsClosed(h: Hierarchy, t: string, x: string, p: string)
    requires Ranked(h)
    requires x in Ancestors(h, t) && p in Parents(h, x)
    ensures p in Ancestors(h, t)
    decreases Height(h, t)
  {
    var ps := Parents(h, x);
    var k :| 0 <= k < |ps| && ps[k] == p;
    if x == t {
      assert p in Ancestors(h, ps[k]);
    } else {
      var i, y :| 0 <= i < |Parents(h, t)| && y == Parents(h, t)[i] && x in Ancestors(h, y);
      AncestorsClosed(h, y, x, p);
      assert p in Ancestors(h, Parents(h, t)[i]);
    }
  }

  /** A set holding `t` and closed under parents holds all of `t`'s ancestors. */
  lemma {:induction false} ClosedHoldsAncestors(h: Hierarchy, s: set<string>, t: string)
    requires Ranked(h)
    requires t in s
    requires forall x, i | x in s && 0 <= i < |Parents(h, x)| :: Parents(h, x)[i] in s
    ensures Ancestors(h, t) <= s
    decreases Height(h, t)
  {
    forall a | a in Ancestors(h, t) ensures a in s {
      if a != t {
        var i :| 0 <= i < |Parents(h, t)| && a in Ancestors(h, Parents(h, t)[i]);
        ClosedHoldsAncestors(h, s, Parents(h, t)[i]);
      }
    }
  }

  // ---- termination of the worklist ----

  /** The number of paths up from `t`: one for `t` and those of each parent. */
  ghost function Weight(h: Hierarchy, t: string): nat
    requires Ranked(h)
    decreases Height(h, t), 1
  {
    1 + ParentsWeight(h, Parents(h, t), Height(h, t))
  }

  ghost function ParentsWeight(h: Hierarchy, ps: seq<string>, bound: nat): nat
    requires Ranked(h)
    requires forall i | 0 <= i < |ps| :: Height(h, ps[i]) < bound
    decreases bound, 0, |ps|
  {
    if |ps| == 0 then 0 else Weight(h, ps[0]) + ParentsWeight(h, ps[1..], bound)
  }

  /** The work left in a worklist. */
  ghost function TodoWeight(h: Hierarchy, todo: seq<string>): nat
    requires Ranked(h)
  {
    if |todo| == 0 then 0 else Weight(h, todo[0]) + TodoWeight(h, todo[1..])
  }

  lemma {:induction false} ParentsWeightIsTodoWeight(h: Hierarchy, ps: seq<string>, bound: nat)
    requires Ranked(h)
    requires forall i | 0 <= i < |ps| :: Height(h, ps[i]) < bound
    ensures ParentsWeight(h, ps, bound) == TodoWeight(h, ps)
    decreases |ps|
  {
    if |ps| > 0 {
      ParentsWeightIsTodoWeight(h, ps[1..], bound);
    }
  }

  lemma {:induction false} TodoWeightConcat(h: Hierarchy, a: seq<string>, b: seq<string>)
    requires Ranked(h)
    ensures TodoWeight(h, a + b) == TodoWeight(h, a) + TodoWeight(h, b)
    decreases |a|
  {
    if |a| > 0 {
      assert (a + b)[0] == a[0] && (a + b)[1..] == a[1..] + b;
      TodoWeightConcat(h, a[1..], b);
    } else {
      assert a + b == b;
    }
  }

  /** Replacing a trait by its parents removes exactly one unit of work. */
  lemma Unfold(h: Hierarchy, t: string, rest: seq<string>)
    requires Ranked(h)
    ensures TodoWeight(h, rest + Parents(h, t)) + 1 == TodoWeight(h, [t] + rest)
  {
    ParentsWeightIsTodoWeight(h, Parents(h, t), Height(h, t));
    TodoWeightConcat(h, rest, Parents(h, t));
    assert ([t] + rest)[1..] == rest;
  }

  // ---- the worklist ----

  ghost predicate NoDuplicates(xs: seq<string>) {
    forall i, j | 0 <= i < j < |xs| :: xs[i] != xs[j]
  }

  /** The closure invariant: what has been handled (the traits found, and
      the direct parents already expanded) has each of its parents handled
      or still waiting. */
  ghost predicate Closed(h: Hierarchy, traits: seq<string>, done: set<string>, todo: seq<string>) {
    forall x, i | (x in traits || x in done) && 0 <= i < |Parents(h, x)| ::
      Parents(h, x)[i] in traits || Parents(h, x)[i] in done || Parents(h, x)[i] in todo
  }

  /** The loop invariant: what was found is reached and not direct, what
      waits is reached, every direct parent was expanded or still waits,
      the closure invariant holds, and nothing was found twice. */
  ghost predicate Inv(h: Hierarchy, direct: seq<string>, traits: seq<string>, done: set<string>, todo: seq<string>)
    requires Ranked(h)
  {
    && (forall t | t in traits :: t in Reach(h, direct) && t !in direct)
    && (forall t | t in done :: t in direct && t in Reach(h, direct))
    && (forall t | t in todo :: t in Reach(h, direct))
    && (forall d | d in direct :: d in done || d in todo)
    && Closed(h, traits, done, todo)
    && NoDuplicates(traits)
  }

  lemma InvInitially(h: Hierarchy, direct: seq<string>)
    requires Ranked(h)
    ensures Inv(h, direct, [], {}, direct)
  {
    forall i | 0 <= i < |direct| ensures direct[i] in Reach(h, direct) {
      assert direct[i] in Ancestors(h, direct[i]);
    }
  }

  /** Taking a type not found before: its parents join the worklist, and it
      is recorded as found, or as an expanded direct parent. */
  lemma ExpandKeepsInv(h: Hierarchy, direct: seq<string>, traits: seq<string>, done: set<string>, tt: string, rest: seq<string>)
    requires Ranked(h) && Inv(h, direct, traits, done, [tt] + rest) && tt !in traits
    ensures tt !in direct ==> Inv(h, direct, traits + [tt], done, rest + Parents(h, tt))
    ensures tt in direct ==> Inv(h, direct, traits, done + {tt}, rest + Parents(h, tt))
  {
    assert tt in [tt] + rest;
    ParentsReached(h, direct, tt);
    var todo := rest + Parents(h, tt);
    forall t | t in todo ensures t in Reach(h, direct) {
      if t !in rest {
        var i :| 0 <= i < |Parents(h, tt)| && Parents(h, tt)[i] == t;
      }
    }
    forall i | 0 <= i < |Parents(h, tt)| ensures Parents(h, tt)[i] in todo {
      assert todo[|rest| + i] == Parents(h, tt)[i];
    }
    if tt !in direct {
      var traits' := traits + [tt];
      forall i, j | 0 <= i < j < |traits'| ensures traits'[i] != traits'[j] {
        if j == |traits| {
          assert traits'[i] == traits[i];
        }
      }
    }
  }

  lemma SkipKeepsInv(h: Hierarchy, direct: seq<string>, traits: seq<string>, done: set<string>, tt: string, rest: seq<string>)
    requires Ranked(h) && Inv(h, direct, traits, done, [tt] + rest) && tt in traits
    ensures Inv(h, direct, traits, done, rest)
  {
    assert forall t | t in [tt] + rest :: t == tt || t in rest;
    forall d | d in direct ensures d in done || d in rest {
      assert d !in traits;
    }
  }

  /** With nothing left waiting, what was found is everything reached that is
      not a direct parent. */
  lemma InvFinally(h: Hierarchy, direct: seq<string>, traits: seq<string>, done: set<string>)
    requires Ranked(h) && Inv(h, direct, traits, done, [])
    ensures forall t :: t in traits <==> t in Reach(h, direct) && t !in direct
  {
    var handled := (set x | x in traits) + done;
    forall t | t in Reach(h, direct) && t !in direct
      ensures t in traits
    {
      var i :| 0 <= i < |direct| && t in Ancestors(h, direct[i]);
      ClosedHoldsAncestors(h, handled, direct[i]);
    }
  }

  /** The loop of WriteDecl: take the first waiting type; unless it was
      already found, queue its parents, and record it when it is neither a
      direct parent nor found before. The result is every trait the class
      extends transitively but not directly, each once. */
  method TransitiveTraits(h: Hierarchy, direct: seq<string>) returns (traits: seq<string>)
    requires Ranked(h)
    ensures forall t :: t in traits <==> t in Reach(h, direct) && t !in direct
    ensures NoDuplicates(traits)
  {
    var todo := direct;
    traits := [];
    ghost var done: set<string> := {};
    InvInitially(h, direct);
    while |todo| != 0
      invariant Inv(h, direct, traits, done, todo)
      decreases TodoWeight(h, todo)
    {
      var tt := todo[0];
      var rest := todo[1..];
      assert todo == [tt] + rest;
      if tt !in traits {
        Unfold(h, tt, rest);
        ExpandKeepsInv(h, direct, traits, done, tt, rest);
        todo := rest + Parents(h, tt);
        if tt !in direct && tt !in traits {
          traits := traits + [tt];
        } else {
          done := done + {tt};
        }
      } else {
        SkipKeepsInv(h, direct, traits, done, tt, rest);
        todo := rest;
      }
    }
    InvFinally(h, direct, traits, done);
  }

  /** The parents of a reached type are reached. */
  lemma ParentsReached(h: Hierarchy, direct: seq<string>, t: string)
    requires Ranked(h) && t in Reach(h, direct)
    ensures forall i | 0 <= i < |Parents(h, t)| :: Parents(h, t)[i] in Reach(h, direct)
  {
    var k :| 0 <= k < |direct| && t in Ancestors(h, direct[k]);
    forall i | 0 <= i < |Parents(h, t)|
      ensures Parents(h, t)[i] in Reach(h, direct)
    {
      AncestorsClosed(h, direct[k], t, Parents(h, t)[i]);
    }
  }

  /** The "[Transitively: ...]" list: the traits found, sorted by name. */
  method SortedTransitiveTraits(h: Hierarchy, direct: seq<string>, le: (string, string) -> bool)
    returns (traits: seq<string>)
    requires Ranked(h)
    ensures forall t :: t in traits <==> t in Reach(h, direct) && t !in direct
    ensures NoDuplicates(traits)
    ensures TotalPreorder(le) ==> SortedOn(traits, x => x, le)
  {
    var found := TransitiveTraits(h, direct);
    traits := SortOn(found, x => x, le);
    if TotalPreorder(le) {
      SortOnSorted(found, x => x, le);
    }
    forall t ensures t in traits <==> t in found {
      assert t in traits <==> t in multiset(traits);
      assert t in found <==> t in multiset(found);
    }
    NoDuplicatesPermutation(found, traits);
  }

  /** A permutation of a list without duplicates has none. */
  lemma NoDuplicatesPermutation(a: seq<string>, b: seq<string>)
    requires NoDuplicates(a) && multiset(a) == multiset(b)
    ensures NoDuplicates(b)
  {
    forall x | x in multiset(a) ensures multiset(a)[x] == 1 {
      CountOnce(a, x);
    }
    forall i, j | 0 <= i < j < |b| ensures b[i] != b[j] {
      assert b[i] in multiset(a);
      OnceMeansDistinct(b, i, j);
    }
  }

  lemma OnceMeansDistinct(b: seq<string>, i: nat, j: nat)
    requires i < j < |b| && multiset(b)[b[i]] == 1
    ensures b[i] != b[j]
  {
    var x := b[i];
    assert b == b[..j] + [b[j]] + b[j + 1..];
    assert b[..j][i] == x;
    assert multiset(b[..j])[x] >= 1;
    assert multiset(b)[x] == multiset(b[..j])[x] + multiset([b[j]])[x] + multiset(b[j + 1..])[x];
  }

  lemma {:induction false} CountOnce(a: seq<string>, x: string)
    requires NoDuplicates(a) && x in a
    ensures multiset(a)[x] == 1
    decreases |a|
  {
    assert a == [a[0]] + a[1..];
    if a[0] == x {
      assert x !in a[1..];
    } else {
      CountOnce(a[1..], x);
    }
  }
}
