/**
 * Shared vocabulary of the semantic-distance engine: terms, the parent relation of an
 * ontology, the reflexive-transitive ancestor closure that every component relies on,
 * and sums over finite sets of terms.
 */
module Ontology {

  /** A term is an opaque identifier. */
  type Term = string

  /** Direct parents of every term but the root, as the lists the callers supply. */
  type Parents = map<Term, seq<Term>>

  /** Usage counts; a term missing from the map is used zero times. */
  type Usage = map<Term, int>

  datatype Option<+T> = None | Some(value: T)

  datatype Result<+T, +E> = Success(value: T) | Failure(error: E)

  /** The usage a term is declared with, 0 when it is not declared. */
  function Own(usage: Usage, t: Term): int
  {
    if t in usage then usage[t] else 0
  }

  /** No term is declared as one of its own direct parents. */
  predicate NoSelfParent(parents: Parents)
  {
    forall t :: t in parents ==> t !in parents[t]
  }

  /** Every term with a parent list has at least one parent. */
  predicate NonEmptyParents(parents: Parents)
  {
    forall t :: t in parents ==> |parents[t]| > 0
  }

  /**
   * The rank map certifies that following a parent link goes strictly down in rank,
   * except for a term naming itself (both builders reject those before traversing).
   * Without such a map the recursive traversal of the source does not terminate.
   */
  ghost predicate RankedUpToSelf(parents: Parents, rank: map<Term, nat>)
  {
    && (forall t :: t in parents ==> t in rank)
    && (forall t, p :: t in parents && p in parents[t] && p != t ==> p in rank && rank[p] < rank[t])
  }

  /** The parent relation is a DAG, witnessed by the rank map. */
  ghost predicate Acyclic(parents: Parents, rank: map<Term, nat>)
  {
    RankedUpToSelf(parents, rank) && NoSelfParent(parents)
  }

  /** How far a term sits above the roots; roots (terms without a parent list) are at 0. */
  ghost function Height(parents: Parents, rank: map<Term, nat>, t: Term): nat
    requires RankedUpToSelf(parents, rank)
  {
    if t in parents then rank[t] + 1 else 0
  }

  /**
   * The ancestor closure of t: t itself and, for each direct parent, that parent's closure.
   * A term reachable along several paths is one member of the set.
   */
  ghost function Closure(parents: Parents, rank: map<Term, nat>, t: Term): (c: set<Term>)
    requires Acyclic(parents, rank)
    ensures t in c
    decreases Height(parents, rank, t)
  {
    if t !in parents then {t}
    else {t} + (set p, a | p in parents[t] && a in Closure(parents, rank, p) :: a)
  }

  /** The members of a closure: the term itself and the members of its parents' closures. */
  lemma ClosureMembers(parents: Parents, rank: map<Term, nat>, t: Term, a: Term)
    requires Acyclic(parents, rank) && t in parents
    ensures a in Closure(parents, rank, t) <==>
      a == t || exists p :: p in parents[t] && a in Closure(parents, rank, p)
  {
  }

  /** A direct parent and all of its ancestors are ancestors of the child. */
  lemma ClosureOfParent(parents: Parents, rank: map<Term, nat>, t: Term, p: Term)
    requires Acyclic(parents, rank)
    requires t in parents && p in parents[t]
    ensures p in Closure(parents, rank, t)
    ensures Closure(parents, rank, p) <= Closure(parents, rank, t)
  {
    forall a | a in Closure(parents, rank, p) ensures a in Closure(parents, rank, t) {
      assert p in parents[t] && a in Closure(parents, rank, p);
    }
  }

  /** Every proper ancestor of t sits strictly lower than t. */
  lemma {:induction false} ClosureDescends(parents: Parents, rank: map<Term, nat>, t: Term, a: Term)
    requires Acyclic(parents, rank)
    requires a in Closure(parents, rank, t) && a != t
    ensures t in parents
    ensures Height(parents, rank, a) < Height(parents, rank, t)
    decreases Height(parents, rank, t)
  {
    var p :| p in parents[t] && a in Closure(parents, rank, p);
    if a != p {
      ClosureDescends(parents, rank, p, a);
    }
  }

  /** Two terms that are ancestors of each other are the same term. */
  lemma ClosureAntisymmetric(parents: Parents, rank: map<Term, nat>, a: Term, b: Term)
    requires Acyclic(parents, rank)
    requires a in Closure(parents, rank, b) && b in Closure(parents, rank, a)
    ensures a == b
  {
    if a != b {
      ClosureDescends(parents, rank, b, a);
      ClosureDescends(parents, rank, a, b);
    }
  }

  /** An ancestor of an ancestor is an ancestor: closures are transitive. */
  lemma {:induction false} ClosureTransitive(parents: Parents, rank: map<Term, nat>, t: Term, a: Term)
    requires Acyclic(parents, rank)
    requires a in Closure(parents, rank, t)
    ensures Closure(parents, rank, a) <= Closure(parents, rank, t)
    decreases Height(parents, rank, t)
  {
    if a != t {
      var p :| p in parents[t] && a in Closure(parents, rank, p);
      ClosureTransitive(parents, rank, p, a);
    }
  }

  /** When every parent list is non-empty, every closure reaches a term without parents. */
  lemma {:induction false} ClosureReachesRoot(parents: Parents, rank: map<Term, nat>, t: Term)
    returns (r: Term)
    requires Acyclic(parents, rank) && NonEmptyParents(parents)
    ensures r in Closure(parents, rank, t) && r !in parents
    decreases Height(parents, rank, t)
  {
    if t !in parents {
      r := t;
    } else {
      var p := parents[t][0];
      r := ClosureReachesRoot(parents, rank, p);
      assert p in parents[t];
    }
  }

  /** The sum of the weights of the members of s. */
  ghost function Total<K>(s: set<K>, w: map<K, int>): int
    requires s <= w.Keys
  {
    if s == {} then 0 else var k :| k in s; w[k] + Total(s - {k}, w)
  }

  /** Any member can be taken out of a sum first. */
  lemma {:induction false} TotalRemove<K>(s: set<K>, w: map<K, int>, k: K)
    requires s <= w.Keys && k in s
    ensures Total(s, w) == w[k] + Total(s - {k}, w)
    decreases |s|
  {
    var j :| j in s && Total(s, w) == w[j] + Total(s - {j}, w);
    if j != k {
      TotalRemove(s - {j}, w, k);
      TotalRemove(s - {k}, w, j);
      assert s - {j} - {k} == s - {k} - {j};
    }
  }

  /** With non-negative weights, a subset never sums to more. */
  lemma {:induction false} TotalSubset<K>(s: set<K>, s': set<K>, w: map<K, int>)
    requires s <= s' <= w.Keys
    requires forall k :: k in s' ==> w[k] >= 0
    ensures 0 <= Total(s, w) <= Total(s', w)
    decreases |s'|
  {
    if s' != {} {
      var k :| k in s';
      TotalRemove(s', w, k);
      if k in s {
        TotalRemove(s, w, k);
        TotalSubset(s - {k}, s' - {k}, w);
      } else {
        TotalSubset(s, s' - {k}, w);
      }
    }
  }

  /** The sum of the real weights of the members of s. */
  ghost function RealTotal<K>(s: set<K>, w: map<K, real>): real
    requires s <= w.Keys
  {
    if s == {} then 0.0 else var k :| k in s; w[k] + RealTotal(s - {k}, w)
  }

  /** Any member can be taken out of a real sum first. */
  lemma {:induction false} RealTotalRemove<K>(s: set<K>, w: map<K, real>, k: K)
    requires s <= w.Keys && k in s
    ensures RealTotal(s, w) == w[k] + RealTotal(s - {k}, w)
    decreases |s|
  {
    var j :| j in s && RealTotal(s, w) == w[j] + RealTotal(s - {j}, w);
    if j != k {
      RealTotalRemove(s - {j}, w, k);
      RealTotalRemove(s - {k}, w, j);
      assert s - {j} - {k} == s - {k} - {j};
    }
  }

  // ---------------------------------------------------------------------------
  // Term lists as the source's dictionaries produce them

  /** The terms a list mentions. */
  function Elements(s: seq<Term>): set<Term>
  {
    set x | x in s
  }

  /** Lists the members of s once each. */
  ghost predicate Enumerates(order: seq<Term>, s: set<Term>)
  {
    && (forall x :: x in order <==> x in s)
    && (forall i, j :: 0 <= i < j < |order| ==> order[i] != order[j])
  }

  /** A list enumerating a set holds exactly its members. */
  lemma EnumeratesElements(order: seq<Term>, s: set<Term>)
    requires Enumerates(order, s)
    ensures Elements(order) == s
  {
  }

  /** The members of a set as a list, in the unspecified order of a dictionary's keys. */
  method ListOf(s: set<Term>) returns (list: seq<Term>)
    ensures Enumerates(list, s)
  {
    list := [];
    var remaining := s;
    while remaining != {}
      invariant remaining <= s
      invariant forall x :: x in list <==> x in s - remaining
      invariant forall i, j :: 0 <= i < j < |list| ==> list[i] != list[j]
      decreases |remaining|
    {
      var x :| x in remaining;
      assert x !in list;
      list := list + [x];
      remaining := remaining - {x};
    }
  }
}
