/**
 * The index builder (`process` in lib/xbio/SemanticDistance/sd.py): validates a parent
 * relation and usage counts, computes every term's ancestor closure, finds the single root,
 * propagates usage to ancestors and turns accumulated usage into probabilities relative
 * to the root.
 */
module IndexBuilder {
  import opened Ontology

  /** What the builder hands to the query engine: ancestor closures and probabilities. */
  datatype Index = Index(ancestors: map<Term, set<Term>>, ic: map<Term, real>)

  /** ValueError (first three) and InvalidOntology (next two) of the source; RootUnused is
      the KeyError raised when no used term lies below the root. */
  datatype BuildError =
    | NegativeUsage(term: Term)
    | OwnParent(term: Term)
    | NoParent(term: Term)
    | SeveralRoots(roots: set<Term>)
    | NoRoot
    | RootUnused

  predicate NonNegativeUsage(usage: Usage)
  {
    forall t :: t in usage ==> usage[t] >= 0
  }

  predicate WellFormedParents(parents: Parents)
  {
    NoSelfParent(parents) && NonEmptyParents(parents)
  }

  /** Inputs that pass validation, on a parent relation without cycles. */
  ghost predicate ValidInput(parents: Parents, usage: Usage, rank: map<Term, nat>)
  {
    Acyclic(parents, rank) && NonEmptyParents(parents) && NonNegativeUsage(usage)
  }

  /** The closure of every term that has a parent list. */
  ghost function Ancestors(parents: Parents, rank: map<Term, nat>): map<Term, set<Term>>
    requires Acyclic(parents, rank)
  {
    map t | t in parents :: Closure(parents, rank, t)
  }

  /** Every term named by the closures: their keys and all their members. */
  function TermsOf(anc: map<Term, set<Term>>): set<Term>
  {
    anc.Keys + (set t, a | t in anc && a in anc[t] :: a)
  }

  /** The terms that have no parent list. */
  function RootsAmong(parents: Parents, terms: set<Term>): set<Term>
  {
    set t | t in terms && t !in parents
  }

  /** The terms whose usage is propagated: used at least once, and not the root. */
  function UsedTerms(usage: Usage, terms: set<Term>, root: Term): set<Term>
  {
    set t | t in terms && t in usage && usage[t] > 0 && t != root
  }

  /** The used terms whose usage reaches a: a is one of their proper ancestors. */
  function Contributors(anc: map<Term, set<Term>>, used: set<Term>, a: Term): set<Term>
  {
    set d | d in used && d in anc && d != a && a in anc[d]
  }

  /** The ancestors of the used terms: the terms that receive a probability. */
  function Covered(anc: map<Term, set<Term>>, used: set<Term>): set<Term>
  {
    set d, a | d in used && d in anc && a in anc[d] :: a
  }

  /** a's own usage plus the usage of each distinct used term below it, each counted once. */
  ghost function Accumulated(anc: map<Term, set<Term>>, usage: Usage, used: set<Term>, a: Term): int
    requires used <= usage.Keys
  {
    Own(usage, a) + Total(Contributors(anc, used, a), usage)
  }

  ghost function AccumulatedMap(anc: map<Term, set<Term>>, usage: Usage, used: set<Term>): map<Term, int>
    requires used <= usage.Keys
  {
    map a | a in Covered(anc, used) :: Accumulated(anc, usage, used, a)
  }

  /** Accumulated usage of each covered term divided by the root's. */
  ghost function Probabilities(anc: map<Term, set<Term>>, usage: Usage, used: set<Term>, root: Term): map<Term, real>
    requires used <= usage.Keys
    requires Accumulated(anc, usage, used, root) > 0
  {
    map a | a in Covered(anc, used) ::
      Accumulated(anc, usage, used, a) as real / Accumulated(anc, usage, used, root) as real
  }

  /** What `process` returns on validated input. */
  ghost function Build(parents: Parents, usage: Usage, rank: map<Term, nat>): Result<Index, BuildError>
    requires ValidInput(parents, usage, rank)
  {
    var anc := Ancestors(parents, rank);
    var roots := RootsAmong(parents, TermsOf(anc));
    if |roots| > 1 then Failure(SeveralRoots(roots))
    else if |roots| == 0 then Failure(NoRoot)
    else
      var root :| root in roots;
      var used := UsedTerms(usage, TermsOf(anc), root);
      if used == {} then Failure(RootUnused)
      else
        OnlyMember(roots, root);
        AccumulatedBounds(parents, usage, rank, root);
        Success(Index(anc, Probabilities(anc, usage, used, root)))
  }

  // ---------------------------------------------------------------------------
  // Facts about the specification
  // ---------------------------------------------------------------------------

  lemma OnlyMember<T>(s: set<T>, x: T)
    requires |s| == 1 && x in s
    ensures s == {x}
  {
    assert |s - {x}| == 0;
  }

  /** Every term is its own ancestor, and a parent's ancestors are its child's. */
  lemma AncestorsClosed(parents: Parents, rank: map<Term, nat>, t: Term)
    requires Acyclic(parents, rank) && t in parents
    ensures var anc := Ancestors(parents, rank);
      && t in anc[t]
      && (forall p :: p in parents[t] ==> p in anc[t] && (p in anc ==> anc[p] <= anc[t]))
  {
    forall p | p in parents[t] {
      ClosureOfParent(parents, rank, t, p);
    }
  }

  /** The closure of any listed term stays among the listed terms. */
  lemma TermsClosed(parents: Parents, rank: map<Term, nat>, t: Term)
    requires Acyclic(parents, rank)
    requires t in TermsOf(Ancestors(parents, rank))
    ensures Closure(parents, rank, t) <= TermsOf(Ancestors(parents, rank))
  {
    var anc := Ancestors(parents, rank);
    var k: Term :| k in anc && t in anc[k];
    ClosureTransitive(parents, rank, k, t);
    forall a | a in Closure(parents, rank, t) ensures a in TermsOf(anc) {
      assert a in anc[k];
    }
  }

  /** With exactly one root, the root is an ancestor of every listed term. */
  lemma RootIsShared(parents: Parents, rank: map<Term, nat>, root: Term, t: Term)
    requires Acyclic(parents, rank) && NonEmptyParents(parents)
    requires RootsAmong(parents, TermsOf(Ancestors(parents, rank))) == {root}
    requires t in TermsOf(Ancestors(parents, rank))
    ensures root !in parents && root in Closure(parents, rank, t)
  {
    var r := ClosureReachesRoot(parents, rank, t);
    TermsClosed(parents, rank, t);
    assert r in RootsAmong(parents, TermsOf(Ancestors(parents, rank)));
  }

  /** No root is found exactly when the parent relation is empty. */
  lemma NoRootIffEmpty(parents: Parents, rank: map<Term, nat>)
    requires Acyclic(parents, rank) && NonEmptyParents(parents)
    ensures RootsAmong(parents, TermsOf(Ancestors(parents, rank))) == {} <==> parents == map[]
  {
    var anc := Ancestors(parents, rank);
    if parents != map[] {
      var t :| t in parents;
      var r := ClosureReachesRoot(parents, rank, t);
      assert r in anc[t];
      assert r in RootsAmong(parents, TermsOf(anc));
    } else {
      assert TermsOf(anc) == {};
    }
  }

  /** A term outside the covered set receives nothing from below. */
  lemma UncoveredOwnUsage(anc: map<Term, set<Term>>, usage: Usage, used: set<Term>, a: Term)
    requires used <= usage.Keys && a !in Covered(anc, used)
    ensures Accumulated(anc, usage, used, a) == Own(usage, a)
  {
    assert Contributors(anc, used, a) == {};
  }

  /** Adding one more used term t raises exactly its proper ancestors by t's usage. */
  lemma AccumulatedStep(anc: map<Term, set<Term>>, usage: Usage, done: set<Term>, t: Term, a: Term)
    requires done + {t} <= usage.Keys && t !in done && t in anc
    ensures Accumulated(anc, usage, done + {t}, a)
         == Accumulated(anc, usage, done, a) + (if a in anc[t] && a != t then usage[t] else 0)
  {
    var c := Contributors(anc, done, a);
    var c' := Contributors(anc, done + {t}, a);
    if a in anc[t] && a != t {
      assert c' == c + {t};
      TotalRemove(c', usage, t);
      assert c' - {t} == c;
    } else {
      assert c' == c;
    }
  }

  /** The root receives the usage of every used term: its total is the usage mass of the ontology. */
  lemma RootAccumulatesAll(parents: Parents, usage: Usage, rank: map<Term, nat>, root: Term)
    requires ValidInput(parents, usage, rank)
    requires RootsAmong(parents, TermsOf(Ancestors(parents, rank))) == {root}
    ensures var anc := Ancestors(parents, rank);
      var used := UsedTerms(usage, TermsOf(anc), root);
      Accumulated(anc, usage, used, root) == Own(usage, root) + Total(used, usage)
  {
    var anc := Ancestors(parents, rank);
    var used := UsedTerms(usage, TermsOf(anc), root);
    forall d | d in used ensures d in anc && root in anc[d] {
      RootIsShared(parents, rank, root, d);
    }
    assert Contributors(anc, used, root) == used;
  }

  /** The root is covered exactly when some term is used. */
  lemma RootCoveredIffUsed(parents: Parents, usage: Usage, rank: map<Term, nat>, root: Term)
    requires ValidInput(parents, usage, rank)
    requires RootsAmong(parents, TermsOf(Ancestors(parents, rank))) == {root}
    ensures var anc := Ancestors(parents, rank);
      var used := UsedTerms(usage, TermsOf(anc), root);
      used != {} <==> root in Covered(anc, used)
  {
    var anc := Ancestors(parents, rank);
    var used := UsedTerms(usage, TermsOf(anc), root);
    if used != {} {
      var d :| d in used;
      RootIsShared(parents, rank, root, d);
      UsedHasParents(parents, usage, rank, root, d);
      CoveredBy(anc, used, d, root);
    }
  }

  /** A used term other than the root has a parent list, so its ancestors are its closure. */
  lemma UsedHasParents(parents: Parents, usage: Usage, rank: map<Term, nat>, root: Term, d: Term)
    requires Acyclic(parents, rank)
    requires RootsAmong(parents, TermsOf(Ancestors(parents, rank))) == {root}
    requires d in UsedTerms(usage, TermsOf(Ancestors(parents, rank)), root)
    ensures d in parents && d in Ancestors(parents, rank) && Ancestors(parents, rank)[d] == Closure(parents, rank, d)
  {
    assert d !in RootsAmong(parents, TermsOf(Ancestors(parents, rank)));
  }

  /** Every ancestor of a used term is covered. */
  lemma CoveredBy(anc: map<Term, set<Term>>, used: set<Term>, d: Term, a: Term)
    requires d in used && d in anc && a in anc[d]
    ensures a in Covered(anc, used)
  {
  }

  /**
   * A covered term has positive accumulated usage, never more than the root's, as long as
   * every used term is a non-root term below the root with positive usage.
   */
  lemma AccumulatedBoundsAt(anc: map<Term, set<Term>>, usage: Usage, used: set<Term>, root: Term, a: Term)
    requires used <= usage.Keys
    requires forall d :: d in used ==> usage[d] > 0 && d in anc && d != root && root in anc[d]
    requires a in Covered(anc, used)
    requires Own(usage, root) >= 0 && Own(usage, a) >= 0
    requires a !in used && a != root ==> Own(usage, a) == 0
    ensures 0 < Accumulated(anc, usage, used, a) <= Accumulated(anc, usage, used, root)
  {
    assert Contributors(anc, used, root) == used;
    var d :| d in used && d in anc && a in anc[d];
    var c := Contributors(anc, used, a);
    TotalSubset(c, used, usage);
    if a in used {
      TotalSubset(c, used - {a}, usage);
      TotalRemove(used, usage, a);
    } else {
      assert d in c;
      TotalRemove(c, usage, d);
      TotalSubset({}, c - {d}, usage);
    }
  }

  /** Every covered term has positive accumulated usage, never more than the root's. */
  lemma AccumulatedBounds(parents: Parents, usage: Usage, rank: map<Term, nat>, root: Term)
    requires ValidInput(parents, usage, rank)
    requires RootsAmong(parents, TermsOf(Ancestors(parents, rank))) == {root}
    ensures var anc := Ancestors(parents, rank);
      var used := UsedTerms(usage, TermsOf(anc), root);
      && (used != {} <==> root in Covered(anc, used))
      && forall a :: a in Covered(anc, used) ==>
           0 < Accumulated(anc, usage, used, a) <= Accumulated(anc, usage, used, root)
  {
    RootCoveredIffUsed(parents, usage, rank, root);
    var anc := Ancestors(parents, rank);
    var terms := TermsOf(anc);
    var used := UsedTerms(usage, terms, root);
    forall d | d in used ensures d in anc && root in anc[d] {
      RootIsShared(parents, rank, root, d);
    }
    forall a | a in Covered(anc, used)
      ensures 0 < Accumulated(anc, usage, used, a) <= Accumulated(anc, usage, used, root)
    {
      var d :| d in used && d in anc && a in anc[d];
      assert a in terms;
      AccumulatedBoundsAt(anc, usage, used, root, a);
    }
  }

  /** Above a term, accumulated usage never decreases. */
  lemma AccumulatedMonotone(parents: Parents, usage: Usage, rank: map<Term, nat>, root: Term, a: Term, b: Term)
    requires ValidInput(parents, usage, rank)
    requires root !in parents
    requires b in parents && a in Closure(parents, rank, b)
    ensures var anc := Ancestors(parents, rank);
      var used := UsedTerms(usage, TermsOf(anc), root);
      Accumulated(anc, usage, used, b) <= Accumulated(anc, usage, used, a)
  {
    var anc := Ancestors(parents, rank);
    var used := UsedTerms(usage, TermsOf(anc), root);
    if a != b {
      ContributorsGrow(parents, rank, used, a, b);
      var cb := Contributors(anc, used, b);
      var ca := Contributors(anc, used, a);
      if b in used {
        TotalGrow(cb, ca, usage, b);
      } else {
        assert b in TermsOf(anc);
        assert Own(usage, b) == 0;
        TotalSubset(cb, ca, usage);
      }
    }
  }

  /** Every used term strictly below b is strictly below each ancestor a of b, and so is b. */
  lemma ContributorsGrow(parents: Parents, rank: map<Term, nat>, used: set<Term>, a: Term, b: Term)
    requires Acyclic(parents, rank)
    requires b in parents && a in Closure(parents, rank, b) && a != b
    ensures var anc := Ancestors(parents, rank);
      && Contributors(anc, used, b) <= Contributors(anc, used, a)
      && (b in used ==> b in Contributors(anc, used, a) && b !in Contributors(anc, used, b))
  {
    var anc := Ancestors(parents, rank);
    forall d | d in Contributors(anc, used, b) ensures d in Contributors(anc, used, a) {
      ClosureTransitive(parents, rank, d, b);
      if d == a {
        ClosureAntisymmetric(parents, rank, a, b);
      }
    }
  }

  /** Adding a member with its non-negative weight to a subset keeps the sum within the superset's. */
  lemma TotalGrow(s: set<Term>, s': set<Term>, w: map<Term, int>, k: Term)
    requires s <= s' <= w.Keys && k in s' && k !in s
    requires forall x :: x in s' ==> w[x] >= 0
    ensures w[k] + Total(s, w) <= Total(s', w)
  {
    TotalSubset(s + {k}, s', w);
    TotalRemove(s + {k}, w, k);
    assert s + {k} - {k} == s;
  }

  /** An ancestor of a covered term is covered. */
  lemma CoveredClosed(parents: Parents, usage: Usage, rank: map<Term, nat>, root: Term, b: Term, a: Term)
    requires Acyclic(parents, rank)
    requires b in parents && a in Closure(parents, rank, b)
    ensures var anc := Ancestors(parents, rank);
      var used := UsedTerms(usage, TermsOf(anc), root);
      b in Covered(anc, used) ==> a in Covered(anc, used)
  {
    var anc := Ancestors(parents, rank);
    var used := UsedTerms(usage, TermsOf(anc), root);
    if b in Covered(anc, used) {
      var d :| d in used && d in anc && b in anc[d];
      ClosureTransitive(parents, rank, d, b);
      assert a in anc[d];
    }
  }

  lemma DivideMonotone(x: real, y: real, z: real)
    requires 0.0 < z && x <= y
    ensures x / z <= y / z
  {
  }

  lemma RatioBounds(x: real, y: real)
    requires 0.0 < x <= y
    ensures 0.0 < x / y <= 1.0
    ensures x == y ==> x / y == 1.0
  {
    DivideMonotone(x, y, y);
  }

  /** A successful build has a unique root, some used term, and the index of the specification. */
  lemma BuiltShape(parents: Parents, usage: Usage, rank: map<Term, nat>, idx: Index)
    returns (root: Term)
    requires ValidInput(parents, usage, rank)
    requires Build(parents, usage, rank) == Success(idx)
    ensures RootsAmong(parents, TermsOf(Ancestors(parents, rank))) == {root}
    ensures var anc := Ancestors(parents, rank);
      var used := UsedTerms(usage, TermsOf(anc), root);
      && used != {}
      && Accumulated(anc, usage, used, root) > 0
      && idx == Index(anc, Probabilities(anc, usage, used, root))
  {
    var roots := RootsAmong(parents, TermsOf(Ancestors(parents, rank)));
    root :| root in roots;
    OnlyMember(roots, root);
    AccumulatedBounds(parents, usage, rank, root);
  }

  /** On validated input the builder only fails for lack of a single root or of any used term. */
  lemma BuildErrors(parents: Parents, usage: Usage, rank: map<Term, nat>)
    requires ValidInput(parents, usage, rank)
    ensures Build(parents, usage, rank).Failure? ==>
      Build(parents, usage, rank).error.SeveralRoots? || Build(parents, usage, rank).error.NoRoot?
      || Build(parents, usage, rank).error.RootUnused?
  {
  }

  /** The root of a built index is an ancestor of every term and has probability exactly 1. */
  lemma BuiltRoot(parents: Parents, usage: Usage, rank: map<Term, nat>, idx: Index)
    returns (root: Term)
    requires ValidInput(parents, usage, rank)
    requires Build(parents, usage, rank) == Success(idx)
    ensures root !in parents && root in idx.ic && idx.ic[root] == 1.0
    ensures forall t :: t in idx.ancestors ==> root in idx.ancestors[t]
  {
    root := BuiltShape(parents, usage, rank, idx);
    var anc := Ancestors(parents, rank);
    var used := UsedTerms(usage, TermsOf(anc), root);
    RootCoveredIffUsed(parents, usage, rank, root);
    var total := Accumulated(anc, usage, used, root);
    RatioBounds(total as real, total as real);
    forall t | t in idx.ancestors ensures root in idx.ancestors[t] {
      RootIsShared(parents, rank, root, t);
    }
  }

  /** Every probability of a built index lies in (0, 1]. */
  lemma BuiltProbabilityBounds(parents: Parents, usage: Usage, rank: map<Term, nat>, idx: Index)
    requires ValidInput(parents, usage, rank)
    requires Build(parents, usage, rank) == Success(idx)
    ensures forall t :: t in idx.ic ==> 0.0 < idx.ic[t] <= 1.0
  {
    var root := BuiltShape(parents, usage, rank, idx);
    var anc := Ancestors(parents, rank);
    var used := UsedTerms(usage, TermsOf(anc), root);
    var total := Accumulated(anc, usage, used, root);
    AccumulatedBounds(parents, usage, rank, root);
    forall t | t in idx.ic ensures 0.0 < idx.ic[t] <= 1.0 {
      RatioBounds(Accumulated(anc, usage, used, t) as real, total as real);
    }
  }

  /**
   * In a built index an ancestor of a term with a probability has one too, and it is never
   * smaller than its descendant's.
   */
  lemma BuiltMonotone(parents: Parents, usage: Usage, rank: map<Term, nat>, idx: Index, t: Term, a: Term)
    requires ValidInput(parents, usage, rank)
    requires Build(parents, usage, rank) == Success(idx)
    requires t in idx.ancestors && t in idx.ic && a in idx.ancestors[t]
    ensures a in idx.ic && idx.ic[t] <= idx.ic[a]
  {
    var root := BuiltShape(parents, usage, rank, idx);
    var anc := Ancestors(parents, rank);
    var used := UsedTerms(usage, TermsOf(anc), root);
    var total := Accumulated(anc, usage, used, root);
    CoveredClosed(parents, usage, rank, root, t, a);
    AccumulatedMonotone(parents, usage, rank, root, a, t);
    DivideMonotone(Accumulated(anc, usage, used, t) as real, Accumulated(anc, usage, used, a) as real, total as real);
  }

  /** A built index gives a probability to exactly the ancestors of used non-root terms. */
  lemma BuiltDomain(parents: Parents, usage: Usage, rank: map<Term, nat>, idx: Index)
    returns (root: Term)
    requires ValidInput(parents, usage, rank)
    requires Build(parents, usage, rank) == Success(idx)
    ensures root !in parents
    ensures forall a :: a in idx.ic <==>
              exists d :: d in idx.ancestors && d in usage && usage[d] > 0 && d != root && a in idx.ancestors[d]
  {
    root := BuiltShape(parents, usage, rank, idx);
    var anc := Ancestors(parents, rank);
    var used := UsedTerms(usage, TermsOf(anc), root);
    forall a ensures a in idx.ic <==>
      exists d :: d in anc && d in usage && usage[d] > 0 && d != root && a in anc[d]
    {
      if exists d :: d in anc && d in usage && usage[d] > 0 && d != root && a in anc[d] {
        var d :| d in anc && d in usage && usage[d] > 0 && d != root && a in anc[d];
        assert d in TermsOf(anc);
        assert d in used;
      }
    }
  }

  // ---------------------------------------------------------------------------
  // The builder, step by step
  // ---------------------------------------------------------------------------

  /** Rejects the first negative usage count met. */
  method CheckUsage(usage: Usage) returns (err: Option<BuildError>)
    ensures err == None <==> NonNegativeUsage(usage)
    ensures err.Some? ==> err.value.NegativeUsage? && err.value.term in usage && usage[err.value.term] < 0
  {
    var todo := usage.Keys;
    while todo != {}
      invariant todo <= usage.Keys
      invariant forall t :: t in usage && t !in todo ==> usage[t] >= 0
      decreases todo
    {
      var t :| t in todo;
      if usage[t] < 0 {
        return Some(NegativeUsage(t));
      }
      todo := todo - {t};
    }
    return None;
  }

  /** Rejects the first term met that is its own parent or has no parent. */
  method CheckParents(parents: Parents) returns (err: Option<BuildError>)
    ensures err == None <==> WellFormedParents(parents)
    ensures err.Some? ==> match err.value
      case OwnParent(t) => t in parents && t in parents[t]
      case NoParent(t) => t in parents && parents[t] == []
      case _ => false
  {
    var todo := parents.Keys;
    while todo != {}
      invariant todo <= parents.Keys
      invariant forall t :: t in parents && t !in todo ==> t !in parents[t] && |parents[t]| > 0
      decreases todo
    {
      var t :| t in todo;
      if t in parents[t] {
        return Some(OwnParent(t));
      }
      if |parents[t]| == 0 {
        return Some(NoParent(t));
      }
      todo := todo - {t};
    }
    return None;
  }

  /** The union of the closures of the terms of ps. */
  ghost function ClosureOfAll(parents: Parents, rank: map<Term, nat>, ps: seq<Term>): set<Term>
    requires Acyclic(parents, rank)
  {
    if ps == [] then {} else ClosureOfAll(parents, rank, ps[..|ps| - 1]) + Closure(parents, rank, ps[|ps| - 1])
  }

  lemma {:induction false} ClosureOfAllMembers(parents: Parents, rank: map<Term, nat>, ps: seq<Term>, a: Term)
    requires Acyclic(parents, rank)
    ensures a in ClosureOfAll(parents, rank, ps) <==> exists p :: p in ps && a in Closure(parents, rank, p)
  {
    if ps != [] {
      var front, last := ps[..|ps| - 1], ps[|ps| - 1];
      assert ps == front + [last];
      ClosureOfAllMembers(parents, rank, front, a);
      if a in Closure(parents, rank, last) {
        assert last in ps;
      }
      forall p | p in ps && a in Closure(parents, rank, p) ensures a in ClosureOfAll(parents, rank, ps) {
        if p != last {
          assert p in front;
        }
      }
    }
  }

  /** The closure of a term with a parent list is the term and its parents' closures. */
  lemma ClosureUnfold(parents: Parents, rank: map<Term, nat>, t: Term)
    requires Acyclic(parents, rank) && t in parents
    ensures Closure(parents, rank, t) == {t} + ClosureOfAll(parents, rank, parents[t])
  {
    forall a ensures a in Closure(parents, rank, t) <==> a in {t} + ClosureOfAll(parents, rank, parents[t]) {
      ClosureMembers(parents, rank, t, a);
      ClosureOfAllMembers(parents, rank, parents[t], a);
    }
  }

  /** Adds t and, through its parents, all of its ancestors to the set collected so far. */
  method BackPropagation(parents: Parents, ghost rank: map<Term, nat>, t: Term, acc: set<Term>)
    returns (r: set<Term>)
    requires Acyclic(parents, rank)
    ensures r == acc + Closure(parents, rank, t)
    decreases Height(parents, rank, t)
  {
    r := acc + {t};
    if t !in parents {
      assert Closure(parents, rank, t) == {t};
      return;
    }
    var ps := parents[t];
    for i := 0 to |ps|
      invariant r == acc + {t} + ClosureOfAll(parents, rank, ps[..i])
    {
      assert ps[i] in parents[t];
      r := BackPropagation(parents, rank, ps[i], r);
      assert ps[..i + 1][..i] == ps[..i];
    }
    assert ps[..|ps|] == ps;
    ClosureUnfold(parents, rank, t);
  }

  /** The closure of every term that has a parent list, one traversal per term. */
  method FindAncestors(parents: Parents, ghost rank: map<Term, nat>) returns (anc: map<Term, set<Term>>)
    requires Acyclic(parents, rank)
    ensures anc == Ancestors(parents, rank)
  {
    anc := map[];
    var todo := parents.Keys;
    while todo != {}
      invariant todo <= parents.Keys
      invariant anc.Keys == parents.Keys - todo
      invariant forall t :: t in anc ==> anc[t] == Closure(parents, rank, t)
      decreases todo
    {
      var t :| t in todo;
      var c := BackPropagation(parents, rank, t, {});
      anc := anc[t := c];
      todo := todo - {t};
    }
  }

  /** Every term named by the closures. */
  method ListTerms(anc: map<Term, set<Term>>) returns (terms: set<Term>)
    ensures terms == TermsOf(anc)
  {
    terms := {};
    var todo := anc.Keys;
    ghost var done: set<Term> := {};
    while todo != {}
      invariant todo <= anc.Keys && done == anc.Keys - todo
      invariant terms == done + (set k, a | k in done && a in anc[k] :: a)
      decreases todo
    {
      var t :| t in todo;
      terms := terms + {t} + anc[t];
      todo := todo - {t};
      done := done + {t};
    }
  }

  /** The listed terms that have no parent list. */
  method FindRoots(parents: Parents, terms: set<Term>) returns (roots: set<Term>)
    ensures roots == RootsAmong(parents, terms)
  {
    roots := {};
    var todo := terms;
    while todo != {}
      invariant todo <= terms
      invariant roots == RootsAmong(parents, terms - todo)
      decreases todo
    {
      var t :| t in todo;
      if t !in parents {
        roots := roots + {t};
      }
      todo := todo - {t};
    }
  }

  /**
   * The counts part-way through the inner propagation loop for t: the ancestors of t in seen
   * have received t's usage, the others not yet.
   */
  ghost function PartialAccumulated(anc: map<Term, set<Term>>, usage: Usage, done: set<Term>, t: Term, seen: set<Term>)
    : map<Term, int>
    requires done <= usage.Keys
  {
    Raised(anc, usage, done, Covered(anc, done), t, seen)
  }

  /** The counts over the covered terms cov, raised by t's usage on the terms of seen other than t. */
  ghost function Raised(anc: map<Term, set<Term>>, usage: Usage, done: set<Term>, cov: set<Term>, t: Term, seen: set<Term>)
    : map<Term, int>
    requires done <= usage.Keys
  {
    map a | a in cov + seen :: Accumulated(anc, usage, done, a) + (if a in seen && a != t then Own(usage, t) else 0)
  }

  /** Handing t's usage to one more of its ancestors. */
  lemma PartialAccumulatedAdd(anc: map<Term, set<Term>>, usage: Usage, done: set<Term>, t: Term, seen: set<Term>, a: Term,
                              m: map<Term, int>, v: int)
    requires done <= usage.Keys && a !in seen
    requires m == PartialAccumulated(anc, usage, done, t, seen)
    requires v == (if a in m then m[a] else Own(usage, a)) + (if a != t then Own(usage, t) else 0)
    ensures PartialAccumulated(anc, usage, done, t, seen + {a}) == m[a := v]
  {
    var cov := Covered(anc, done);
    if a !in m {
      UncoveredOwnUsage(anc, usage, done, a);
    }
    RaisedAdd(anc, usage, done, cov, t, seen, a, m, v);
  }

  lemma RaisedAdd(anc: map<Term, set<Term>>, usage: Usage, done: set<Term>, cov: set<Term>, t: Term, seen: set<Term>, a: Term,
                  m: map<Term, int>, v: int)
    requires done <= usage.Keys && a !in seen
    requires m == Raised(anc, usage, done, cov, t, seen)
    requires a !in m ==> Accumulated(anc, usage, done, a) == Own(usage, a)
    requires v == (if a in m then m[a] else Own(usage, a)) + (if a != t then Own(usage, t) else 0)
    ensures Raised(anc, usage, done, cov, t, seen + {a}) == m[a := v]
  {
    var m' := Raised(anc, usage, done, cov, t, seen + {a});
    assert m'.Keys == m[a := v].Keys;
    forall b | b in m' ensures m'[b] == m[a := v][b] {
      if b != a {
        assert b in m;
      }
    }
  }

  /** Once every ancestor of t has been handled, the counts are those with t used as well. */
  lemma PartialAccumulatedDone(anc: map<Term, set<Term>>, usage: Usage, done: set<Term>, t: Term)
    requires done + {t} <= usage.Keys && t !in done && t in anc
    ensures PartialAccumulated(anc, usage, done, t, anc[t]) == AccumulatedMap(anc, usage, done + {t})
  {
    assert Covered(anc, done + {t}) == Covered(anc, done) + anc[t];
    forall a | a in Covered(anc, done) + anc[t]
      ensures PartialAccumulated(anc, usage, done, t, anc[t])[a] == Accumulated(anc, usage, done + {t}, a)
    {
      AccumulatedStep(anc, usage, done, t, a);
    }
  }

  /**
   * The inner propagation loop for one used term t: each of its distinct ancestors is first
   * given its own declared usage (once) and then, unless it is t itself, t's usage.
   */
  method PropagateTerm(anc: map<Term, set<Term>>, usage: Usage, ghost done: set<Term>, t: Term, acc0: map<Term, int>)
    returns (acc: map<Term, int>)
    requires done + {t} <= usage.Keys && t !in done && t in anc
    requires acc0 == AccumulatedMap(anc, usage, done)
    ensures acc == AccumulatedMap(anc, usage, done + {t})
  {
    acc := acc0;
    var cnt := usage[t];
    var pending := anc[t];
    assert acc == PartialAccumulated(anc, usage, done, t, {});
    while pending != {}
      invariant pending <= anc[t]
      invariant acc == PartialAccumulated(anc, usage, done, t, anc[t] - pending)
      decreases pending
    {
      var a :| a in pending;
      var count := if a in acc then acc[a] else if a in usage then usage[a] else 0;
      if a != t {
        count := count + cnt;
      }
      PartialAccumulatedAdd(anc, usage, done, t, anc[t] - pending, a, acc, count);
      acc := acc[a := count];
      assert anc[t] - (pending - {a}) == (anc[t] - pending) + {a};
      pending := pending - {a};
    }
    assert anc[t] - pending == anc[t];
    PartialAccumulatedDone(anc, usage, done, t);
  }

  /** Propagation of usage over the used terms, one term at a time. */
  method PropagateUsage(anc: map<Term, set<Term>>, usage: Usage, used: set<Term>)
    returns (acc: map<Term, int>)
    requires used <= anc.Keys && used <= usage.Keys
    ensures acc == AccumulatedMap(anc, usage, used)
    ensures acc.Keys == Covered(anc, used) && forall a :: a in acc ==> acc[a] == Accumulated(anc, usage, used, a)
  {
    acc := map[];
    var todo := used;
    ghost var done: set<Term> := {};
    assert AccumulatedMap(anc, usage, {}) == map[];
    while todo != {}
      invariant todo <= used && done == used - todo
      invariant acc == AccumulatedMap(anc, usage, done)
      decreases todo
    {
      var t :| t in todo;
      acc := PropagateTerm(anc, usage, done, t, acc);
      done := done + {t};
      todo := todo - {t};
    }
    assert done == used;
  }

  /**
   * The inner conversion loop for one used term: each of its ancestors not converted yet
   * gets its accumulated usage divided by the root's, and the source's check that the value
   * lies in (0, 1] always holds.
   */
  method ConvertTerm(usage: Usage, acc: map<Term, int>, root: Term, below: set<Term>, ic0: map<Term, real>)
    returns (ic: map<Term, real>)
    requires below <= acc.Keys && root in acc
    requires forall a :: a in acc ==> 0 < acc[a] <= acc[root]
    requires forall a :: a in ic0 ==> a in acc && ic0[a] == acc[a] as real / acc[root] as real
    ensures ic.Keys == ic0.Keys + below
    ensures forall a :: a in ic ==> a in acc && ic[a] == acc[a] as real / acc[root] as real
  {
    var maximum := acc[root] as real;
    ic := ic0;
    var pending := below;
    while pending != {}
      invariant pending <= below
      invariant ic.Keys == ic0.Keys + (below - pending)
      invariant forall a :: a in ic ==> a in acc && ic[a] == acc[a] as real / maximum
      decreases pending
    {
      var a :| a in pending;
      pending := pending - {a};
      if a in ic {
        continue;
      }
      ic := ic[a := acc[a] as real / maximum];
      RatioBounds(acc[a] as real, maximum);
      assert a !in usage || (0.0 < ic[a] <= 1.0);
    }
  }

  /**
   * Conversion to probabilities: each ancestor of a used term, the first time it is met,
   * gets its accumulated usage divided by the root's.
   */
  method ToProbabilities(anc: map<Term, set<Term>>, usage: Usage, used: set<Term>, acc: map<Term, int>, root: Term)
    returns (ic: map<Term, real>)
    requires used <= anc.Keys && used <= usage.Keys
    requires acc.Keys == Covered(anc, used) && root in acc
    requires forall a :: a in acc ==> 0 < acc[a] <= acc[root]
    ensures ic.Keys == acc.Keys
    ensures forall a :: a in ic ==> ic[a] == acc[a] as real / acc[root] as real
  {
    ic := map[];
    var todo := used;
    ghost var done: set<Term> := {};
    while todo != {}
      invariant todo <= used && done == used - todo
      invariant ic.Keys == Covered(anc, done)
      invariant forall a :: a in ic ==> a in acc && ic[a] == acc[a] as real / acc[root] as real
      decreases todo
    {
      var t :| t in todo;
      assert Covered(anc, done + {t}) == Covered(anc, done) + anc[t];
      assert anc[t] <= acc.Keys;
      ic := ConvertTerm(usage, acc, root, anc[t], ic);
      done := done + {t};
      todo := todo - {t};
    }
    assert done == used;
  }

  /**
   * The steps of `process` after the root is found: usage propagation below the root and
   * conversion to probabilities.
   */
  method FromRoot(parents: Parents, usage: Usage, ghost rank: map<Term, nat>,
                  anc: map<Term, set<Term>>, terms: set<Term>, root: Term)
    returns (r: Result<Index, BuildError>)
    requires ValidInput(parents, usage, rank)
    requires anc == Ancestors(parents, rank) && terms == TermsOf(anc)
    requires RootsAmong(parents, terms) == {root}
    ensures r == Build(parents, usage, rank)
  {
    var used := set t | t in terms && t in usage && usage[t] > 0 && t != root;
    assert used == UsedTerms(usage, terms, root);
    forall t | t in used ensures t in anc {
      assert t in RootsAmong(parents, terms) || t in parents;
    }
    var acc := PropagateUsage(anc, usage, used);
    BuildWithRoot(parents, usage, rank, root);
    if root !in acc {
      return Failure(RootUnused);
    }
    var ic := ToProbabilities(anc, usage, used, acc, root);
    ProbabilitiesFrom(anc, usage, used, root, acc, ic);
    r := Success(Index(anc, ic));
  }

  /** With a single root, `process` stops when nothing is used and otherwise returns the probabilities. */
  lemma BuildWithRoot(parents: Parents, usage: Usage, rank: map<Term, nat>, root: Term)
    requires ValidInput(parents, usage, rank)
    requires RootsAmong(parents, TermsOf(Ancestors(parents, rank))) == {root}
    ensures var anc := Ancestors(parents, rank);
      var used := UsedTerms(usage, TermsOf(anc), root);
      && (used == {} <==> root !in Covered(anc, used))
      && (used == {} ==> Build(parents, usage, rank) == Failure(RootUnused))
      && (used != {} ==>
            && Accumulated(anc, usage, used, root) > 0
            && Build(parents, usage, rank) == Success(Index(anc, Probabilities(anc, usage, used, root))))
      && forall a :: a in Covered(anc, used) ==> 0 < Accumulated(anc, usage, used, a) <= Accumulated(anc, usage, used, root)
  {
    AccumulatedBounds(parents, usage, rank, root);
  }

  /** Values computed as in the conversion loop are the probabilities of the specification. */
  lemma ProbabilitiesFrom(anc: map<Term, set<Term>>, usage: Usage, used: set<Term>, root: Term,
                          acc: map<Term, int>, ic: map<Term, real>)
    requires used <= usage.Keys
    requires acc == AccumulatedMap(anc, usage, used) && root in acc && acc[root] > 0
    requires ic.Keys == acc.Keys
    requires forall a :: a in ic ==> ic[a] == acc[a] as real / acc[root] as real
    ensures ic == Probabilities(anc, usage, used, root)
  {
  }

  /** The steps of `process` on validated input: closures, term list, root detection, and the rest. */
  method BuildValidated(parents: Parents, usage: Usage, ghost rank: map<Term, nat>)
    returns (r: Result<Index, BuildError>)
    requires ValidInput(parents, usage, rank)
    ensures r == Build(parents, usage, rank)
  {
    var anc := FindAncestors(parents, rank);
    var terms := ListTerms(anc);
    var roots := FindRoots(parents, terms);
    if |roots| > 1 {
      return Failure(SeveralRoots(roots));
    }
    if |roots| == 0 {
      return Failure(NoRoot);
    }
    var root :| root in roots;
    OnlyMember(roots, root);
    r := FromRoot(parents, usage, rank, anc, terms, root);
  }

  /**
   * `process`: validation, then closures, root detection, propagation and probabilities.
   * A cycle other than a term naming itself makes the source recurse forever; the ghost
   * rank map excludes those inputs.
   */
  method Process(parents: Parents, usage: Usage, ghost rank: map<Term, nat>)
    returns (r: Result<Index, BuildError>)
    requires RankedUpToSelf(parents, rank)
    ensures !NonNegativeUsage(usage) <==> r.Failure? && r.error.NegativeUsage?
    ensures r.Failure? && r.error.NegativeUsage? ==>
      r.error.term in usage && usage[r.error.term] < 0
    ensures NonNegativeUsage(usage) && !WellFormedParents(parents) <==>
      r.Failure? && (r.error.OwnParent? || r.error.NoParent?)
    ensures r.Failure? && r.error.OwnParent? ==>
      r.error.term in parents && r.error.term in parents[r.error.term]
    ensures r.Failure? && r.error.NoParent? ==>
      r.error.term in parents && parents[r.error.term] == []
    ensures NonNegativeUsage(usage) && WellFormedParents(parents) ==> r == Build(parents, usage, rank)
  {
    var bad := CheckUsage(usage);
    if bad.Some? {
      return Failure(bad.value);
    }
    bad := CheckParents(parents);
    if bad.Some? {
      return Failure(bad.value);
    }
    r := BuildValidated(parents, usage, rank);
    BuildErrors(parents, usage, rank);
  }
}
