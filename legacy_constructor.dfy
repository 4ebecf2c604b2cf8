/**
 * The older index builder, class SemanticDistanceConstructor of
 * SemanticDistance/sd_constructor.py. It keeps the parent relation and usage counts it was
 * created with and fills its ancestor and information-content tables over repeated calls,
 * each of which may cover only some of the terms. Unlike `process`, it works on the term
 * lists it is given, so a term listed twice is counted twice, and it never replaces a
 * value computed by an earlier call.
 */
module LegacyConstructor {
  import opened Ontology
  import opened IndexBuilder

  /** The AssertionError and KeyError exits of `calculate_ic`. */
  datatype IcError =
    | NotPrepared                          // called while the ancestor table is still empty
    | ExtraRoot                            // a second listed occurrence of a term without parents
    | NoRootListed                         // no listed term is without parents
    | NotTraversed(term: Term)             // a used term whose ancestors were never found
    | RootNotReached                       // no used term lies below the root: its count is missing
    | IcOutOfRange(term: Term, value: real) // a declared term whose new value is outside (0, 1]

  /** What the root search and the usage filter settle on before any count is propagated. */
  datatype Plan = Plan(root: Term, used: seq<Term>)

  // ---------------------------------------------------------------------------
  // Specification of `find_ancestors` and `calculate_ic`
  // ---------------------------------------------------------------------------

  /** The closures of the given terms. */
  ghost function Closures(parents: Parents, rank: map<Term, nat>, targets: set<Term>): map<Term, set<Term>>
    requires Acyclic(parents, rank)
  {
    map t | t in targets :: Closure(parents, rank, t)
  }

  /** The terms `find_ancestors` traverses: the given ones, or every term with a parent list. */
  function Targets(parents: Parents, terms: Option<seq<Term>>): set<Term>
  {
    if terms.None? then parents.Keys else Elements(terms.value)
  }

  /** The listed occurrences of terms without a parent list, in list order. */
  function RootsIn(parents: Parents, list: seq<Term>): (roots: seq<Term>)
    ensures |roots| <= |list|
  {
    if list == [] then []
    else
      var t := list[|list| - 1];
      assert list == list[..|list| - 1] + [t];
      RootsIn(parents, list[..|list| - 1]) + (if t !in parents then [t] else [])
  }

  /** The listed occurrences of terms used at least once, other than the root, in list order. */
  function UsedIn(usage: Usage, list: seq<Term>, root: Term): (used: seq<Term>)
    ensures |used| <= |list|
  {
    if list == [] then []
    else
      var t := list[|list| - 1];
      assert list == list[..|list| - 1] + [t];
      UsedIn(usage, list[..|list| - 1], root) + (if t in usage && usage[t] > 0 && t != root then [t] else [])
  }

  /** The first used term whose ancestors were never found, if there is one. */
  function Untraversed(anc: map<Term, set<Term>>, used: seq<Term>): (r: Option<Term>)
    ensures r.None? <==> forall t :: t in used ==> t in anc
    ensures r.Some? ==>
      exists k :: 0 <= k < |used| && used[k] == r.value && r.value !in anc && forall j :: 0 <= j < k ==> used[j] in anc
  {
    if used == [] then None
    else
      var t := used[|used| - 1];
      assert used == used[..|used| - 1] + [t];
      var earlier := Untraversed(anc, used[..|used| - 1]);
      if earlier.Some? then earlier
      else if t !in anc then Some(t)
      else None
  }

  /**
   * The count accumulated for a: its own declared usage plus, for every occurrence of a used
   * term strictly below it, that term's usage.
   */
  ghost function Tally(anc: map<Term, set<Term>>, usage: Usage, used: seq<Term>, a: Term): int
  {
    if used == [] then Own(usage, a)
    else
      var t := used[|used| - 1];
      Tally(anc, usage, used[..|used| - 1], a) + (if t in anc && a in anc[t] && a != t then Own(usage, t) else 0)
  }

  /** The accumulated count of every ancestor of a used term. */
  ghost function TallyMap(anc: map<Term, set<Term>>, usage: Usage, used: seq<Term>): map<Term, int>
  {
    map a | a in Covered(anc, Elements(used)) :: Tally(anc, usage, used, a)
  }

  /** The values the probability loop adds: each counted term not known yet gets its count over the root's. */
  function Ratios(tally: map<Term, int>, root: Term, known: map<Term, real>): map<Term, real>
    requires root in tally && tally[root] > 0
  {
    map a | a in tally && a !in known :: tally[a] as real / tally[root] as real
  }

  /** The root and the used terms `calculate_ic` settles on for the listed terms, or why it stops first. */
  function Prepared(parents: Parents, usage: Usage, anc: map<Term, set<Term>>, list: seq<Term>): (r: Result<Plan, IcError>)
    ensures r.Success? ==> r.value.root in list && r.value.root !in parents
    ensures r.Success? ==> forall t :: t in r.value.used ==> t in list && t in anc && t in usage && usage[t] > 0
  {
    if anc == map[] then Failure(NotPrepared)
    else
      var roots := RootsIn(parents, list);
      RootsInMembers(parents, list);
      if |roots| > 1 then Failure(ExtraRoot)
      else if roots == [] then Failure(NoRootListed)
      else
        var used := UsedIn(usage, list, roots[0]);
        UsedInMembers(usage, list, roots[0]);
        match Untraversed(anc, used)
        case Some(t) => Failure(NotTraversed(t))
        case None =>
          if roots[0] !in Covered(anc, Elements(used)) then Failure(RootNotReached)
          else Success(Plan(roots[0], used))
  }

  /** The values a successful `calculate_ic` adds to the known ones. */
  ghost function Added(parents: Parents, usage: Usage, anc: map<Term, set<Term>>, list: seq<Term>,
                       known: map<Term, real>): map<Term, real>
    requires NonNegativeUsage(usage)
    requires Prepared(parents, usage, anc, list).Success?
  {
    var plan := Prepared(parents, usage, anc, list).value;
    TallyPositive(anc, usage, plan.used, plan.root);
    Ratios(TallyMap(anc, usage, plan.used), plan.root, known)
  }

  // ---------------------------------------------------------------------------
  // Facts about the specification
  // ---------------------------------------------------------------------------

  /** Traversing one more term replaces that term's entry by its closure. */
  lemma ClosuresAdd(parents: Parents, rank: map<Term, nat>, start: map<Term, set<Term>>, s: set<Term>, t: Term)
    requires Acyclic(parents, rank)
    ensures start + Closures(parents, rank, s + {t}) == (start + Closures(parents, rank, s))[t := Closure(parents, rank, t)]
  {
    var m, m' := Closures(parents, rank, s), Closures(parents, rank, s + {t});
    assert m'.Keys == m.Keys + {t};
    OverrideAdd(start, m, m', t, Closure(parents, rank, t));
  }

  /** Overriding with a map that has one more entry is overriding and then setting that entry. */
  lemma OverrideAdd<V>(start: map<Term, V>, m: map<Term, V>, m': map<Term, V>, t: Term, v: V)
    requires m'.Keys == m.Keys + {t} && m'[t] == v
    requires forall k :: k in m && k != t ==> m'[k] == m[k]
    ensures start + m' == (start + m)[t := v]
  {
    var lhs, rhs := start + m', (start + m)[t := v];
    assert lhs.Keys == rhs.Keys;
    forall k | k in lhs ensures lhs[k] == rhs[k] {
      if k != t && k in m {
        assert lhs[k] == m'[k];
      }
    }
  }

  /** The roots found are exactly the listed terms without a parent list. */
  lemma {:induction false} RootsInMembers(parents: Parents, list: seq<Term>)
    ensures forall t :: t in RootsIn(parents, list) <==> t in list && t !in parents
  {
    if list != [] {
      var front := list[..|list| - 1];
      assert list == front + [list[|list| - 1]];
      RootsInMembers(parents, front);
    }
  }

  /** The used terms found are exactly the listed terms used at least once, other than the root. */
  lemma {:induction false} UsedInMembers(usage: Usage, list: seq<Term>, root: Term)
    ensures forall t :: t in UsedIn(usage, list, root) <==> t in list && t in usage && usage[t] > 0 && t != root
  {
    if list != [] {
      var front := list[..|list| - 1];
      assert list == front + [list[|list| - 1]];
      UsedInMembers(usage, front, root);
    }
  }

  /** Every prefix of a list has its roots listed first among the list's roots. */
  lemma {:induction false} RootsInPrefix(parents: Parents, list: seq<Term>, n: nat)
    requires n <= |list|
    ensures RootsIn(parents, list[..n]) <= RootsIn(parents, list)
    decreases |list| - n
  {
    if n < |list| {
      var front := list[..|list| - 1];
      RootsInPrefix(parents, front, n);
      assert front[..n] == list[..n];
      var rf := RootsIn(parents, front[..n]);
      assert RootsIn(parents, front) == RootsIn(parents, list)[..|RootsIn(parents, front)|];
      assert rf == RootsIn(parents, front)[..|rf|];
    } else {
      assert list[..n] == list;
    }
  }

  /** An accumulated count never falls below the term's own usage. */
  lemma {:induction false} TallyAtLeastOwn(anc: map<Term, set<Term>>, usage: Usage, used: seq<Term>, a: Term)
    requires NonNegativeUsage(usage)
    ensures Tally(anc, usage, used, a) >= Own(usage, a)
  {
    if used != [] {
      TallyAtLeastOwn(anc, usage, used[..|used| - 1], a);
    }
  }

  /**
   * Every ancestor of a used term gets a positive count, so the lower bound of the source's
   * check on new values never fails.
   */
  lemma {:induction false} TallyPositive(anc: map<Term, set<Term>>, usage: Usage, used: seq<Term>, a: Term)
    requires NonNegativeUsage(usage)
    requires forall t :: t in used ==> t in usage && usage[t] > 0
    requires a in Covered(anc, Elements(used))
    ensures Tally(anc, usage, used, a) > 0
  {
    var front := used[..|used| - 1];
    var t := used[|used| - 1];
    assert used == front + [t];
    TallyAtLeastOwn(anc, usage, front, a);
    if t in anc && a in anc[t] {
      assert Own(usage, t) > 0;
      if a == t {
        assert Own(usage, a) > 0;
      }
    } else {
      var d :| d in Elements(used) && d in anc && a in anc[d];
      assert d in front;
      TallyPositive(anc, usage, front, a);
    }
  }

  /** A term below no used term keeps its own declared usage. */
  lemma {:induction false} TallyUncovered(anc: map<Term, set<Term>>, usage: Usage, used: seq<Term>, a: Term)
    requires a !in Covered(anc, Elements(used))
    ensures Tally(anc, usage, used, a) == Own(usage, a)
  {
    if used != [] {
      var front := used[..|used| - 1];
      assert used == front + [used[|used| - 1]];
      assert Elements(front) <= Elements(used);
      TallyUncovered(anc, usage, front, a);
    }
  }

  /**
   * On a list without repetitions the count is the one `process` accumulates over the set of
   * used terms.
   */
  lemma {:induction false} TallyDistinct(anc: map<Term, set<Term>>, usage: Usage, used: seq<Term>, a: Term)
    requires forall t :: t in used ==> t in anc && t in usage
    requires forall i, j :: 0 <= i < j < |used| ==> used[i] != used[j]
    ensures Tally(anc, usage, used, a) == Accumulated(anc, usage, Elements(used), a)
  {
    if used == [] {
      assert Contributors(anc, {}, a) == {};
    } else {
      var front := used[..|used| - 1];
      var t := used[|used| - 1];
      assert used == front + [t];
      assert Elements(used) == Elements(front) + {t};
      TallyDistinct(anc, usage, front, a);
      AccumulatedStep(anc, usage, Elements(front), t, a);
    }
  }

  /** A list without repetitions is as long as the set it enumerates. */
  lemma {:induction false} EnumeratesSize(list: seq<Term>, s: set<Term>)
    requires Enumerates(list, s)
    ensures |list| == |s|
  {
    if list != [] {
      var front := list[..|list| - 1];
      var t := list[|list| - 1];
      assert list == front + [t];
      assert Enumerates(front, s - {t});
      EnumeratesSize(front, s - {t});
    } else {
      assert s == {};
    }
  }

  /** Filtering a list without repetitions keeps it without repetitions. */
  lemma {:induction false} RootsInDistinct(parents: Parents, list: seq<Term>)
    requires forall i, j :: 0 <= i < j < |list| ==> list[i] != list[j]
    ensures forall i, j :: 0 <= i < j < |RootsIn(parents, list)| ==> RootsIn(parents, list)[i] != RootsIn(parents, list)[j]
  {
    if list != [] {
      var front := list[..|list| - 1];
      assert list == front + [list[|list| - 1]];
      RootsInDistinct(parents, front);
      RootsInMembers(parents, front);
    }
  }

  lemma {:induction false} UsedInDistinct(usage: Usage, list: seq<Term>, root: Term)
    requires forall i, j :: 0 <= i < j < |list| ==> list[i] != list[j]
    ensures forall i, j :: 0 <= i < j < |UsedIn(usage, list, root)| ==> UsedIn(usage, list, root)[i] != UsedIn(usage, list, root)[j]
  {
    if list != [] {
      var front := list[..|list| - 1];
      assert list == front + [list[|list| - 1]];
      UsedInDistinct(usage, front, root);
      UsedInMembers(usage, front, root);
    }
  }

  /** The root of a successful call gets the value 1 unless an earlier call gave it one. */
  lemma AddedRoot(parents: Parents, usage: Usage, anc: map<Term, set<Term>>, list: seq<Term>, known: map<Term, real>)
    requires NonNegativeUsage(usage)
    requires Prepared(parents, usage, anc, list).Success?
    ensures var root := Prepared(parents, usage, anc, list).value.root;
      root !in known ==> root in Added(parents, usage, anc, list, known) && Added(parents, usage, anc, list, known)[root] == 1.0
    ensures forall a :: a in Added(parents, usage, anc, list, known) ==> a !in known && Added(parents, usage, anc, list, known)[a] > 0.0
  {
    var plan := Prepared(parents, usage, anc, list).value;
    var tally := TallyMap(anc, usage, plan.used);
    forall a | a in tally ensures tally[a] > 0 {
      TallyPositive(anc, usage, plan.used, a);
    }
    assert Added(parents, usage, anc, list, known) == Ratios(tally, plan.root, known);
    RatiosPositive(tally, plan.root, known);
  }

  lemma RatiosPositive(tally: map<Term, int>, root: Term, known: map<Term, real>)
    requires root in tally && forall a :: a in tally ==> tally[a] > 0
    ensures root !in known ==> root in Ratios(tally, root, known) && Ratios(tally, root, known)[root] == 1.0
    ensures forall a :: a in Ratios(tally, root, known) ==> a !in known && Ratios(tally, root, known)[a] > 0.0
  {
    var m := tally[root] as real;
    RatioBounds(m, m);
    forall a | a in Ratios(tally, root, known) ensures Ratios(tally, root, known)[a] > 0.0 {
      assert tally[a] as real > 0.0;
    }
  }

  /** Filtering a list without repetitions for terms without parents enumerates those terms. */
  lemma RootsInEnumerates(parents: Parents, list: seq<Term>, s: set<Term>)
    requires Enumerates(list, s)
    ensures Enumerates(RootsIn(parents, list), RootsAmong(parents, s))
    ensures |RootsIn(parents, list)| == |RootsAmong(parents, s)|
  {
    RootsInDistinct(parents, list);
    RootsInMembers(parents, list);
    EnumeratesSize(RootsIn(parents, list), RootsAmong(parents, s));
  }

  /**
   * On every term of complete ancestor tables with a single root, the root search finds
   * that root and the usage filter lists each used term once, all of them traversed.
   */
  lemma DefaultPlan(parents: Parents, usage: Usage, rank: map<Term, nat>, list: seq<Term>, root: Term)
    requires ValidInput(parents, usage, rank)
    requires Enumerates(list, TermsOf(Ancestors(parents, rank)))
    requires RootsAmong(parents, TermsOf(Ancestors(parents, rank))) == {root}
    ensures RootsIn(parents, list) == [root]
    ensures Enumerates(UsedIn(usage, list, root), UsedTerms(usage, TermsOf(Ancestors(parents, rank)), root))
    ensures Untraversed(Ancestors(parents, rank), UsedIn(usage, list, root)) == None
  {
    var terms := TermsOf(Ancestors(parents, rank));
    DefaultRoot(parents, list, terms, root);
    UsedInEnumerates(usage, list, terms, root);
    DefaultTraversed(parents, usage, rank, list, root);
  }

  /** A list enumerating terms with a single root lists that root alone among its roots. */
  lemma DefaultRoot(parents: Parents, list: seq<Term>, terms: set<Term>, root: Term)
    requires Enumerates(list, terms)
    requires RootsAmong(parents, terms) == {root}
    ensures RootsIn(parents, list) == [root]
  {
    RootsInEnumerates(parents, list, terms);
    assert RootsIn(parents, list)[0] in RootsAmong(parents, terms);
  }

  /** Every used term of the full listing has an ancestor table. */
  lemma DefaultTraversed(parents: Parents, usage: Usage, rank: map<Term, nat>, list: seq<Term>, root: Term)
    requires ValidInput(parents, usage, rank)
    requires Enumerates(list, TermsOf(Ancestors(parents, rank)))
    requires RootsAmong(parents, TermsOf(Ancestors(parents, rank))) == {root}
    ensures Untraversed(Ancestors(parents, rank), UsedIn(usage, list, root)) == None
  {
    var anc := Ancestors(parents, rank);
    var terms := TermsOf(anc);
    UsedInMembers(usage, list, root);
    forall t | t in UsedIn(usage, list, root) ensures t in anc {
      assert t in terms;
      assert t in RootsAmong(parents, terms) || t in parents;
    }
  }

  /** Filtering a list without repetitions for used terms enumerates those terms. */
  lemma UsedInEnumerates(usage: Usage, list: seq<Term>, s: set<Term>, root: Term)
    requires Enumerates(list, s)
    ensures Enumerates(UsedIn(usage, list, root), UsedTerms(usage, s, root))
  {
    UsedInDistinct(usage, list, root);
    UsedInMembers(usage, list, root);
  }

  /** The builder and the constructor stop for corresponding reasons, or both go on. */
  ghost predicate StopAlike(b: Result<Index, BuildError>, p: Result<Plan, IcError>)
  {
    && (b == Failure(NoRoot) <==> p == Failure(NotPrepared))
    && (b.Failure? && b.error.SeveralRoots? <==> p == Failure(ExtraRoot))
    && (b == Failure(RootUnused) <==> p == Failure(RootNotReached))
    && (b.Success? <==> p.Success?)
  }

  /**
   * A call on every term of complete ancestor tables, with nothing known yet, stops exactly
   * when `process` does, for the corresponding reason.
   */
  lemma DefaultCallStops(parents: Parents, usage: Usage, rank: map<Term, nat>, list: seq<Term>)
    requires ValidInput(parents, usage, rank)
    requires Enumerates(list, TermsOf(Ancestors(parents, rank)))
    ensures StopAlike(Build(parents, usage, rank), Prepared(parents, usage, Ancestors(parents, rank), list))
  {
    var anc := Ancestors(parents, rank);
    var roots := RootsAmong(parents, TermsOf(anc));
    NoRootIffEmpty(parents, rank);
    if anc == map[] {
      assert parents.Keys == anc.Keys;
    } else if |roots| != 1 {
      RootsInEnumerates(parents, list, TermsOf(anc));
    } else {
      var root :| root in roots;
      OnlyMember(roots, root);
      SingleRootStops(parents, usage, rank, list, root);
    }
  }

  lemma SingleRootStops(parents: Parents, usage: Usage, rank: map<Term, nat>, list: seq<Term>, root: Term)
    requires ValidInput(parents, usage, rank)
    requires Enumerates(list, TermsOf(Ancestors(parents, rank)))
    requires RootsAmong(parents, TermsOf(Ancestors(parents, rank))) == {root}
    ensures Ancestors(parents, rank) != map[]
    ensures StopAlike(Build(parents, usage, rank), Prepared(parents, usage, Ancestors(parents, rank), list))
  {
    var anc := Ancestors(parents, rank);
    NoRootIffEmpty(parents, rank);
    assert parents.Keys == anc.Keys;
    DefaultPlan(parents, usage, rank, list, root);
    BuildWithRoot(parents, usage, rank, root);
    var usedSet := UsedTerms(usage, TermsOf(anc), root);
    var used := UsedIn(usage, list, root);
    EnumeratesElements(used, usedSet);
    PreparedWithRoot(parents, usage, anc, list, root);
  }

  /** With one listed root and every used term traversed, the call stops only when the root is not reached. */
  lemma PreparedWithRoot(parents: Parents, usage: Usage, anc: map<Term, set<Term>>, list: seq<Term>, root: Term)
    requires anc != map[] && RootsIn(parents, list) == [root]
    requires Untraversed(anc, UsedIn(usage, list, root)) == None
    ensures var used := UsedIn(usage, list, root);
      Prepared(parents, usage, anc, list)
        == if root !in Covered(anc, Elements(used)) then Failure(RootNotReached) else Success(Plan(root, used))
  {
  }

  /**
   * When `process` succeeds, the same call adds exactly the probabilities `process` computes,
   * and all of them pass the source's check.
   */
  lemma DefaultCallMatchesBuild(parents: Parents, usage: Usage, rank: map<Term, nat>, list: seq<Term>, idx: Index)
    requires ValidInput(parents, usage, rank)
    requires Enumerates(list, TermsOf(Ancestors(parents, rank)))
    requires Build(parents, usage, rank) == Success(idx)
    ensures idx.ancestors == Ancestors(parents, rank)
    ensures Prepared(parents, usage, idx.ancestors, list).Success?
    ensures Added(parents, usage, idx.ancestors, list, map[]) == idx.ic
    ensures forall a :: a in idx.ic ==> 0.0 < idx.ic[a] <= 1.0
  {
    var root := BuiltShape(parents, usage, rank, idx);
    var anc := Ancestors(parents, rank);
    var usedSet := UsedTerms(usage, TermsOf(anc), root);
    DefaultPlan(parents, usage, rank, list, root);
    RootCoveredIffUsed(parents, usage, rank, root);
    var used := UsedIn(usage, list, root);
    EnumeratesElements(used, usedSet);
    assert Prepared(parents, usage, anc, list) == Success(Plan(root, used));
    TallyMapDistinct(anc, usage, used);
    RatiosOfAccumulated(anc, usage, usedSet, root);
    BuiltProbabilityBounds(parents, usage, rank, idx);
  }

  /** On a list without repetitions, all counts are those `process` accumulates. */
  lemma TallyMapDistinct(anc: map<Term, set<Term>>, usage: Usage, used: seq<Term>)
    requires forall t :: t in used ==> t in anc && t in usage
    requires forall i, j :: 0 <= i < j < |used| ==> used[i] != used[j]
    ensures TallyMap(anc, usage, used) == AccumulatedMap(anc, usage, Elements(used))
  {
    forall a | a in Covered(anc, Elements(used))
      ensures Tally(anc, usage, used, a) == Accumulated(anc, usage, Elements(used), a)
    {
      TallyDistinct(anc, usage, used, a);
    }
  }

  /** With nothing known yet, the ratios of the accumulated counts are the probabilities of `process`. */
  lemma RatiosOfAccumulated(anc: map<Term, set<Term>>, usage: Usage, used: set<Term>, root: Term)
    requires used <= usage.Keys
    requires root in Covered(anc, used) && Accumulated(anc, usage, used, root) > 0
    ensures Ratios(AccumulatedMap(anc, usage, used), root, map[]) == Probabilities(anc, usage, used, root)
  {
  }

  // ---------------------------------------------------------------------------
  // The steps of `calculate_ic`
  // ---------------------------------------------------------------------------

  /** Looking at one more listed term adds it to the roots found when it has no parents. */
  lemma RootsInStep(parents: Parents, list: seq<Term>, i: nat)
    requires i < |list|
    ensures RootsIn(parents, list[..i + 1]) == RootsIn(parents, list[..i]) + (if list[i] !in parents then [list[i]] else [])
  {
    assert list[..i + 1][..i] == list[..i];
  }

  /** The root search: the only listed occurrence of a term without parents. */
  method FindRoot(parents: Parents, list: seq<Term>) returns (r: Result<Term, IcError>)
    ensures var roots := RootsIn(parents, list);
      && (|roots| > 1 ==> r == Failure(ExtraRoot))
      && (roots == [] ==> r == Failure(NoRootListed))
      && (|roots| == 1 ==> r == Success(roots[0]))
  {
    var root: Option<Term> := None;
    for i := 0 to |list|
      invariant |RootsIn(parents, list[..i])| <= 1
      invariant root == if RootsIn(parents, list[..i]) == [] then None else Some(RootsIn(parents, list[..i])[0])
    {
      RootsInStep(parents, list, i);
      if list[i] !in parents {
        if root.Some? {
          RootsInPrefix(parents, list, i + 1);
          return Failure(ExtraRoot);
        }
        root := Some(list[i]);
      }
    }
    assert list[..|list|] == list;
    if root.None? {
      return Failure(NoRootListed);
    }
    return Success(root.value);
  }

  /** One more occurrence of a used term raises each of its proper ancestors by its usage. */
  lemma TallyAppend(anc: map<Term, set<Term>>, usage: Usage, done: seq<Term>, t: Term, a: Term)
    ensures Tally(anc, usage, done + [t], a)
         == Tally(anc, usage, done, a) + (if t in anc && a in anc[t] && a != t then Own(usage, t) else 0)
  {
    assert (done + [t])[..|done|] == done;
  }

  /**
   * The counts part-way through the inner loop for t: the ancestors of t in seen have
   * received t's usage, the others not yet.
   */
  ghost function PartialTally(anc: map<Term, set<Term>>, usage: Usage, done: seq<Term>, t: Term, seen: set<Term>)
    : map<Term, int>
  {
    TallyRaised(anc, usage, done, Covered(anc, Elements(done)), t, seen)
  }

  /** The counts over the covered terms cov, raised by t's usage on the terms of seen other than t. */
  ghost function TallyRaised(anc: map<Term, set<Term>>, usage: Usage, done: seq<Term>, cov: set<Term>, t: Term, seen: set<Term>)
    : map<Term, int>
  {
    map a | a in cov + seen :: Tally(anc, usage, done, a) + (if a in seen && a != t then Own(usage, t) else 0)
  }

  /** Handing t's usage to one more of its ancestors. */
  lemma PartialTallyAdd(anc: map<Term, set<Term>>, usage: Usage, done: seq<Term>, t: Term, seen: set<Term>, a: Term,
                        m: map<Term, int>, v: int)
    requires a !in seen
    requires m == PartialTally(anc, usage, done, t, seen)
    requires v == (if a in m then m[a] else Own(usage, a)) + (if a != t then Own(usage, t) else 0)
    ensures PartialTally(anc, usage, done, t, seen + {a}) == m[a := v]
  {
    if a !in m {
      TallyUncovered(anc, usage, done, a);
    }
    TallyRaisedAdd(anc, usage, done, Covered(anc, Elements(done)), t, seen, a, m, v);
  }

  lemma TallyRaisedAdd(anc: map<Term, set<Term>>, usage: Usage, done: seq<Term>, cov: set<Term>, t: Term, seen: set<Term>,
                       a: Term, m: map<Term, int>, v: int)
    requires a !in seen
    requires m == TallyRaised(anc, usage, done, cov, t, seen)
    requires a !in m ==> Tally(anc, usage, done, a) == Own(usage, a)
    requires v == (if a in m then m[a] else Own(usage, a)) + (if a != t then Own(usage, t) else 0)
    ensures TallyRaised(anc, usage, done, cov, t, seen + {a}) == m[a := v]
  {
    var m' := TallyRaised(anc, usage, done, cov, t, seen + {a});
    assert m'.Keys == m[a := v].Keys;
    forall b | b in m' ensures m'[b] == m[a := v][b] {
      if b != a {
        assert b in m;
      }
    }
  }

  /** Once every ancestor of t has been handled, the counts are those after t. */
  lemma PartialTallyDone(anc: map<Term, set<Term>>, usage: Usage, done: seq<Term>, t: Term)
    requires t in anc
    ensures PartialTally(anc, usage, done, t, anc[t]) == TallyMap(anc, usage, done + [t])
  {
    assert Elements(done + [t]) == Elements(done) + {t};
    assert Covered(anc, Elements(done + [t])) == Covered(anc, Elements(done)) + anc[t];
    forall a | a in Covered(anc, Elements(done)) + anc[t]
      ensures PartialTally(anc, usage, done, t, anc[t])[a] == Tally(anc, usage, done + [t], a)
    {
      TallyAppend(anc, usage, done, t, a);
    }
  }

  /**
   * The inner propagation loop for one used term t: each of its distinct ancestors first
   * receives its own declared usage (once) and then, unless it is t itself, t's usage.
   */
  method PropagateOne(anc: map<Term, set<Term>>, usage: Usage, done: seq<Term>, t: Term, acc0: map<Term, int>)
    returns (acc: map<Term, int>)
    requires t in anc && t in usage
    requires acc0 == TallyMap(anc, usage, done)
    ensures acc == TallyMap(anc, usage, done + [t])
  {
    acc := acc0;
    var cnt := usage[t];
    var pending := anc[t];
    assert acc == PartialTally(anc, usage, done, t, {});
    while pending != {}
      invariant pending <= anc[t]
      invariant acc == PartialTally(anc, usage, done, t, anc[t] - pending)
      decreases pending
    {
      var a :| a in pending;
      var count := if a in acc then acc[a] else if a in usage then usage[a] else 0;
      if a != t {
        count := count + cnt;
      }
      PartialTallyAdd(anc, usage, done, t, anc[t] - pending, a, acc, count);
      acc := acc[a := count];
      assert anc[t] - (pending - {a}) == (anc[t] - pending) + {a};
      pending := pending - {a};
    }
    assert anc[t] - pending == anc[t];
    PartialTallyDone(anc, usage, done, t);
  }

  /** Propagation of usage over the used terms, in list order, stopping at a term never traversed. */
  method Propagate(anc: map<Term, set<Term>>, usage: Usage, used: seq<Term>) returns (r: Result<map<Term, int>, IcError>)
    requires forall t :: t in used ==> t in usage
    ensures Untraversed(anc, used).Some? ==> r == Failure(NotTraversed(Untraversed(anc, used).value))
    ensures Untraversed(anc, used).None? ==> r == Success(TallyMap(anc, usage, used))
  {
    var acc: map<Term, int> := map[];
    assert TallyMap(anc, usage, []) == map[];
    for i := 0 to |used|
      invariant forall j :: 0 <= j < i ==> used[j] in anc
      invariant acc == TallyMap(anc, usage, used[..i])
    {
      var t := used[i];
      if t !in anc {
        ghost var k :| 0 <= k < |used| && used[k] == Untraversed(anc, used).value && used[k] !in anc
          && forall j :: 0 <= j < k ==> used[j] in anc;
        assert k == i;
        return Failure(NotTraversed(t));
      }
      acc := PropagateOne(anc, usage, used[..i], t, acc);
      assert used[..i + 1] == used[..i] + [t];
    }
    assert used[..|used|] == used;
    return Success(acc);
  }

  /** ic holds the known values unchanged and, besides them, only added values. */
  ghost predicate Keeps(known: map<Term, real>, added: map<Term, real>, ic: map<Term, real>)
  {
    && (forall a :: a in known ==> a in ic && ic[a] == known[a])
    && (forall a :: a in ic ==> a in known || (a in added && ic[a] == added[a]))
  }

  /** Every value stored beside the known ones for a declared term lies in (0, 1]. */
  ghost predicate Checked(usage: Usage, known: map<Term, real>, ic: map<Term, real>)
  {
    forall a :: a in ic && a !in known && a in usage ==> 0.0 < ic[a] <= 1.0
  }

  /**
   * The inner probability loop for the ancestors of one used term: each one without a value
   * gets its count over the root's, and a declared term whose value falls outside (0, 1]
   * stops the loop after its value was stored.
   */
  method ExtendOne(usage: Usage, tally: map<Term, int>, root: Term, known: map<Term, real>, below: set<Term>,
                   ic0: map<Term, real>)
    returns (bad: Option<Term>, ic: map<Term, real>)
    requires below <= tally.Keys && root in tally && tally[root] > 0
    requires Keeps(known, Ratios(tally, root, known), ic0) && Checked(usage, known, ic0)
    ensures Keeps(known, Ratios(tally, root, known), ic)
    ensures bad.None? ==> ic.Keys == ic0.Keys + below && Checked(usage, known, ic)
    ensures bad.Some? ==>
      var added := Ratios(tally, root, known);
      bad.value in ic && bad.value in added && bad.value in usage && !(0.0 < added[bad.value] <= 1.0)
  {
    ghost var added := Ratios(tally, root, known);
    var maximum := tally[root] as real;
    ic := ic0;
    var pending := below;
    while pending != {}
      invariant pending <= below
      invariant ic.Keys == ic0.Keys + (below - pending)
      invariant Keeps(known, added, ic) && Checked(usage, known, ic)
      decreases pending
    {
      var a :| a in pending;
      pending := pending - {a};
      if a in ic {
        continue;
      }
      var value := tally[a] as real / maximum;
      ic := ic[a := value];
      if !(a !in usage || (0.0 < value <= 1.0)) {
        return Some(a), ic;
      }
    }
    return None, ic;
  }

  /**
   * The probability loop: every ancestor of a used term that has no value yet gets its count
   * over the root's; a declared term whose value falls outside (0, 1] stops the loop after
   * its value was stored.
   */
  method ExtendIc(anc: map<Term, set<Term>>, usage: Usage, used: seq<Term>, tally: map<Term, int>, root: Term,
                  known: map<Term, real>)
    returns (r: Result<map<Term, real>, IcError>, ic: map<Term, real>)
    requires forall t :: t in used ==> t in anc
    requires tally.Keys == Covered(anc, Elements(used))
    requires root in tally && tally[root] > 0
    ensures var added := Ratios(tally, root, known);
      && (r.Success? <==> forall a :: a in added && a in usage ==> 0.0 < added[a] <= 1.0)
      && (r.Success? ==> r.value == ic && ic == known + added)
      && Keeps(known, added, ic)
      && (r.Failure? ==>
            && r.error.IcOutOfRange? && r.error.term in ic && r.error.term in added && r.error.term in usage
            && r.error.value == added[r.error.term] && !(0.0 < r.error.value <= 1.0))
  {
    ghost var added := Ratios(tally, root, known);
    ic := known;
    for i := 0 to |used|
      invariant ic.Keys == known.Keys + Covered(anc, Elements(used[..i]))
      invariant Keeps(known, added, ic) && Checked(usage, known, ic)
    {
      var t := used[i];
      assert Elements(used[..i + 1]) == Elements(used[..i]) + {t} by {
        assert used[..i + 1] == used[..i] + [t];
      }
      assert anc[t] <= tally.Keys;
      var bad;
      bad, ic := ExtendOne(usage, tally, root, known, anc[t], ic);
      if bad.Some? {
        return Failure(IcOutOfRange(bad.value, ic[bad.value])), ic;
      }
    }
    assert used[..|used|] == used;
    assert ic.Keys == (known + added).Keys;
    r := Success(ic);
  }

  /** The steps of `calculate_ic` between the emptiness check and the probability loop. */
  method Prepare(parents: Parents, usage: Usage, anc: map<Term, set<Term>>, list: seq<Term>)
    returns (r: Result<Plan, IcError>, tally: map<Term, int>)
    requires anc != map[]
    ensures r == Prepared(parents, usage, anc, list)
    ensures r.Success? ==> tally == TallyMap(anc, usage, r.value.used)
  {
    tally := map[];
    var found := FindRoot(parents, list);
    if found.Failure? {
      return Failure(found.error), tally;
    }
    var root := found.value;
    var used := UsedIn(usage, list, root);
    UsedInMembers(usage, list, root);
    var counted := Propagate(anc, usage, used);
    if counted.Failure? {
      return Failure(counted.error), tally;
    }
    tally := counted.value;
    if root !in tally {
      return Failure(RootNotReached), tally;
    }
    r := Success(Plan(root, used));
  }

  /**
   * What `calculate_ic` returns and leaves in the table, from the known values: the stop
   * found before any value is computed, with the table untouched; or the new values, none
   * of which replaces a known one, with success exactly when every new value of a declared
   * term lies in (0, 1], and otherwise a report of one that does not, stored with the values
   * computed before it.
   */
  ghost predicate Completes(parents: Parents, usage: Usage, anc: map<Term, set<Term>>, list: seq<Term>,
                            known: map<Term, real>, r: Result<map<Term, real>, IcError>, ic: map<Term, real>)
  {
    var p := Prepared(parents, usage, anc, list);
    && (p.Failure? ==> r == Failure(p.error) && ic == known)
    && (p.Success? && NonNegativeUsage(usage) ==>
          var added := Added(parents, usage, anc, list, known);
          && (r.Success? <==> forall a :: a in added && a in usage ==> 0.0 < added[a] <= 1.0)
          && (r.Success? ==> r.value == ic && ic == known + added)
          && Keeps(known, added, ic)
          && (r.Failure? ==>
                && r.error.IcOutOfRange? && r.error.term in ic && r.error.term in added && r.error.term in usage
                && r.error.value == added[r.error.term] && !(0.0 < r.error.value <= 1.0)))
  }

  /** `calculate_ic` on a non-empty ancestor table and a term list, from the known values. */
  method Calculate(parents: Parents, usage: Usage, anc: map<Term, set<Term>>, list: seq<Term>, known: map<Term, real>)
    returns (r: Result<map<Term, real>, IcError>, ic: map<Term, real>)
    requires NonNegativeUsage(usage) && anc != map[]
    ensures Completes(parents, usage, anc, list, known, r, ic)
  {
    var plan, tally := Prepare(parents, usage, anc, list);
    if plan.Failure? {
      return Failure(plan.error), known;
    }
    TallyPositive(anc, usage, plan.value.used, plan.value.root);
    r, ic := ExtendIc(anc, usage, plan.value.used, tally, plan.value.root, known);
  }

  /** The traversal loop of `find_ancestors`: each listed term's closure replaces its entry. */
  method AddClosures(parents: Parents, ghost rank: map<Term, nat>, list: seq<Term>, start: map<Term, set<Term>>)
    returns (found: map<Term, set<Term>>)
    requires Acyclic(parents, rank)
    ensures found == start + Closures(parents, rank, Elements(list))
  {
    found := start;
    assert Closures(parents, rank, {}) == map[];
    for i := 0 to |list|
      invariant found == start + Closures(parents, rank, Elements(list[..i]))
    {
      var c := BackPropagation(parents, rank, list[i], {});
      assert c == Closure(parents, rank, list[i]);
      assert Elements(list[..i + 1]) == Elements(list[..i]) + {list[i]};
      ClosuresAdd(parents, rank, start, Elements(list[..i]), list[i]);
      found := found[list[i] := c];
    }
    assert list[..|list|] == list;
  }

  // ---------------------------------------------------------------------------
  // The object
  // ---------------------------------------------------------------------------

  class SemanticDistanceConstructor {
    const usage: Usage
    const parents: Parents
    /** ANCESTORS: the closures found so far. */
    var ancestors: map<Term, set<Term>>
    /** INFORMATION_CONTENT: the values computed so far. */
    var ic: map<Term, real>

    /** What the constructor's assertions establish. */
    ghost predicate Valid()
    {
      NonNegativeUsage(usage) && WellFormedParents(parents)
    }

    constructor(usage: Usage, parents: Parents)
      requires NonNegativeUsage(usage) && WellFormedParents(parents)
      ensures this.usage == usage && this.parents == parents
      ensures ancestors == map[] && ic == map[]
      ensures Valid()
    {
      this.usage := usage;
      this.parents := parents;
      ancestors := map[];
      ic := map[];
    }

    /** `__init__` with its assertions: usage counts are checked first, then each parent list. */
    static method Create(usage: Usage, parents: Parents) returns (r: Result<SemanticDistanceConstructor, BuildError>)
      ensures r.Success? <==> NonNegativeUsage(usage) && WellFormedParents(parents)
      ensures r.Success? ==>
        && fresh(r.value) && r.value.Valid()
        && r.value.usage == usage && r.value.parents == parents
        && r.value.ancestors == map[] && r.value.ic == map[]
      ensures !NonNegativeUsage(usage) ==>
        r.Failure? && r.error.NegativeUsage? && r.error.term in usage && usage[r.error.term] < 0
      ensures NonNegativeUsage(usage) && r.Failure? ==> match r.error
        case OwnParent(t) => t in parents && t in parents[t]
        case NoParent(t) => t in parents && parents[t] == []
        case _ => false
    {
      var bad := CheckUsage(usage);
      if bad.Some? {
        return Failure(bad.value);
      }
      bad := CheckParents(parents);
      if bad.Some? {
        return Failure(bad.value);
      }
      var c := new SemanticDistanceConstructor(usage, parents);
      return Success(c);
    }

    /**
     * `find_ancestors`: the closure of each given term (by default every term with a parent
     * list) is stored, next to the closures of earlier calls; the whole table is returned.
     */
    method FindAncestors(terms: Option<seq<Term>>, ghost rank: map<Term, nat>) returns (r: map<Term, set<Term>>)
      requires Acyclic(parents, rank)
      modifies this
      ensures ancestors == old(ancestors) + Closures(parents, rank, Targets(parents, terms))
      ensures ic == old(ic)
      ensures r == ancestors
    {
      var list: seq<Term>;
      if terms.None? {
        list := ListOf(parents.Keys);
      } else {
        list := terms.value;
      }
      var found := AddClosures(parents, rank, list, ancestors);
      ancestors := found;
      r := found;
    }

    /**
     * `calculate_ic` on the given term list (by default every term of the ancestor table, in
     * the unspecified order of a dictionary's keys).
     */
    method CalculateIc(terms: Option<seq<Term>>) returns (r: Result<map<Term, real>, IcError>, ghost list: seq<Term>)
      requires Valid()
      modifies this
      ensures ancestors == old(ancestors)
      ensures terms.Some? ==> list == terms.value
      ensures terms.None? ==> Enumerates(list, TermsOf(ancestors))
      ensures Completes(parents, usage, ancestors, list, old(ic), r, ic)
    {
      var items := if terms.Some? then terms.value else [];
      list := items;
      if ancestors == map[] {
        return Failure(NotPrepared), list;
      }
      if terms.None? {
        var all := ListTerms(ancestors);
        items := ListOf(all);
        list := items;
      }
      var next;
      r, next := Calculate(parents, usage, ancestors, items, ic);
      ic := next;
    }
  }
}
