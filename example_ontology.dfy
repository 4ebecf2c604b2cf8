/**
 * The six-term ontology both documentation scripts use (doc/example.py and
 * SemanticDistance/example.py): A is the root, B and E are its children, C has both B and E
 * as parents, and D and F sit below C. The usage counts are A 3, B 5, C 2, D 5, E 2, F 2.
 * The lemmas below work the builder and the engine through this ontology and obtain the
 * answers the scripts announce.
 */
module ExampleOntology {
  import opened Ontology
  import opened IndexBuilder
  import opened DistanceEngine
  import LegacyDistance

  const ExampleParents: Parents :=
    map["B" := ["A"], "C" := ["B", "E"], "D" := ["C"], "E" := ["A"], "F" := ["C"]]

  const ExampleUsage: Usage :=
    map["A" := 3, "B" := 5, "C" := 2, "D" := 5, "E" := 2, "F" := 2]

  /** Every term ranks above its parents. */
  const ExampleRank: map<Term, nat> :=
    map["A" := 0, "B" := 1, "E" := 1, "C" := 2, "D" := 3, "F" := 3]

  /** The closures of the terms that have parents; the root has no entry. */
  const ExampleAncestors: map<Term, set<Term>> :=
    map["B" := {"A", "B"}, "C" := {"A", "B", "C", "E"}, "D" := {"A", "B", "C", "D", "E"},
        "E" := {"A", "E"}, "F" := {"A", "B", "C", "E", "F"}]

  /** Accumulated usage (A 19, B 14, C 9, D 5, E 11, F 2) over the root's 19. */
  const ExampleIc: map<Term, real> :=
    map["A" := 1.0, "B" := 14.0 / 19.0, "C" := 9.0 / 19.0, "D" := 5.0 / 19.0,
        "E" := 11.0 / 19.0, "F" := 2.0 / 19.0]

  /** Every parent list of the example is non-empty and goes down in rank. */
  lemma ExampleEdges()
    ensures Acyclic(ExampleParents, ExampleRank) && NonEmptyParents(ExampleParents)
  {
    var p, rk := ExampleParents, ExampleRank;
    assert p.Keys == {"B", "C", "D", "E", "F"};
    forall t | t in p ensures t in rk && t !in p[t] && |p[t]| > 0
      && forall q :: q in p[t] && q != t ==> q in rk && rk[q] < rk[t]
    {
      if t == "B" {
        assert p[t] == ["A"];
      } else if t == "C" {
        assert p[t] == ["B", "E"];
      } else if t == "D" {
        assert p[t] == ["C"];
      } else if t == "E" {
        assert p[t] == ["A"];
      } else {
        assert t == "F" && p[t] == ["C"];
      }
    }
  }

  /** The example passes validation: its usage counts are non-negative as well. */
  lemma ExampleValid()
    ensures ValidInput(ExampleParents, ExampleUsage, ExampleRank)
  {
    ExampleEdges();
    assert ExampleUsage.Keys == {"A", "B", "C", "D", "E", "F"};
  }

  /** A term with one parent: itself and that parent's closure. */
  lemma ClosureOfOne(parents: Parents, rank: map<Term, nat>, t: Term, q: Term)
    requires Acyclic(parents, rank) && t in parents && parents[t] == [q]
    ensures Closure(parents, rank, t) == {t} + Closure(parents, rank, q)
  {
    ClosureUnfold(parents, rank, t);
    assert [q][..0] == [];
  }

  /** A term with two parents: itself and both parents' closures. */
  lemma ClosureOfTwo(parents: Parents, rank: map<Term, nat>, t: Term, q: Term, q': Term)
    requires Acyclic(parents, rank) && t in parents && parents[t] == [q, q']
    ensures Closure(parents, rank, t) == {t} + Closure(parents, rank, q) + Closure(parents, rank, q')
  {
    ClosureUnfold(parents, rank, t);
    assert [q, q'][..1] == [q];
    assert [q][..0] == [];
  }

  // The closure of each term of the example is its row of the table above.

  lemma ClosureOfB()
    ensures Acyclic(ExampleParents, ExampleRank) && Closure(ExampleParents, ExampleRank, "B") == {"A", "B"}
  {
    ExampleEdges();
    assert "A" !in ExampleParents && ExampleParents["B"] == ["A"];
    ClosureOfOne(ExampleParents, ExampleRank, "B", "A");
  }

  lemma ClosureOfE()
    ensures Acyclic(ExampleParents, ExampleRank) && Closure(ExampleParents, ExampleRank, "E") == {"A", "E"}
  {
    ExampleEdges();
    assert "A" !in ExampleParents && ExampleParents["E"] == ["A"];
    ClosureOfOne(ExampleParents, ExampleRank, "E", "A");
  }

  lemma ClosureOfC()
    ensures Acyclic(ExampleParents, ExampleRank)
    ensures Closure(ExampleParents, ExampleRank, "C") == {"A", "B", "C", "E"}
  {
    ClosureOfB();
    ClosureOfE();
    assert ExampleParents["C"] == ["B", "E"];
    ClosureOfTwo(ExampleParents, ExampleRank, "C", "B", "E");
  }

  lemma ClosureOfD()
    ensures Acyclic(ExampleParents, ExampleRank)
    ensures Closure(ExampleParents, ExampleRank, "D") == {"A", "B", "C", "D", "E"}
  {
    ClosureOfC();
    assert ExampleParents["D"] == ["C"];
    ClosureOfOne(ExampleParents, ExampleRank, "D", "C");
  }

  lemma ClosureOfF()
    ensures Acyclic(ExampleParents, ExampleRank)
    ensures Closure(ExampleParents, ExampleRank, "F") == {"A", "B", "C", "E", "F"}
  {
    ClosureOfC();
    assert ExampleParents["F"] == ["C"];
    ClosureOfOne(ExampleParents, ExampleRank, "F", "C");
  }

  /** The closures of the example are the table above. */
  lemma ExampleClosures()
    ensures ValidInput(ExampleParents, ExampleUsage, ExampleRank)
    ensures Ancestors(ExampleParents, ExampleRank) == ExampleAncestors
  {
    ExampleValid();
    ExampleAncestorsRows();
    var anc := Ancestors(ExampleParents, ExampleRank);
    assert anc.Keys == {"B", "C", "D", "E", "F"};
    ClosureOfB();
    ClosureOfE();
    assert anc["B"] == ExampleAncestors["B"] && anc["E"] == ExampleAncestors["E"];
    ClosureOfC();
    assert anc["C"] == ExampleAncestors["C"];
    ClosureOfD();
    assert anc["D"] == ExampleAncestors["D"];
    ClosureOfF();
    assert anc["F"] == ExampleAncestors["F"];
    SameFiveEntries(anc, ExampleAncestors, "B", "C", "D", "E", "F");
  }

  /** The rows of the closure table, looked up by term. */
  lemma ExampleAncestorsRows()
    ensures ExampleAncestors.Keys == {"B", "C", "D", "E", "F"}
    ensures ExampleAncestors["B"] == {"A", "B"} && ExampleAncestors["E"] == {"A", "E"}
    ensures ExampleAncestors["C"] == {"A", "B", "C", "E"}
    ensures ExampleAncestors["D"] == {"A", "B", "C", "D", "E"}
    ensures ExampleAncestors["F"] == {"A", "B", "C", "E", "F"}
  {
  }

  /** Two maps with the same five keys and the same entries are equal. */
  lemma SameFiveEntries<V>(m: map<Term, V>, m': map<Term, V>, k1: Term, k2: Term, k3: Term, k4: Term, k5: Term)
    requires m.Keys == {k1, k2, k3, k4, k5} == m'.Keys
    requires m[k1] == m'[k1] && m[k2] == m'[k2] && m[k3] == m'[k3] && m[k4] == m'[k4] && m[k5] == m'[k5]
    ensures m == m'
  {
  }

  /** A map with five keys is the display of its five entries. */
  lemma FiveEntries<V>(m: map<Term, V>, k1: Term, k2: Term, k3: Term, k4: Term, k5: Term)
    requires m.Keys == {k1, k2, k3, k4, k5}
    ensures m == map[k1 := m[k1], k2 := m[k2], k3 := m[k3], k4 := m[k4], k5 := m[k5]]
  {
  }

  /** Sums of the example's usage counts that the accumulation needs. */
  lemma ExampleTotals()
    ensures Total({"F"}, ExampleUsage) == 2
    ensures Total({"D", "F"}, ExampleUsage) == 7
    ensures Total({"C", "D", "F"}, ExampleUsage) == 9
    ensures Total({"B", "C", "D", "E", "F"}, ExampleUsage) == 16
  {
    var u := ExampleUsage;
    TotalRemove({"F"}, u, "F");
    TotalRemove({"D", "F"}, u, "D");
    assert {"D", "F"} - {"D"} == {"F"};
    TotalRemove({"C", "D", "F"}, u, "C");
    assert {"C", "D", "F"} - {"C"} == {"D", "F"};
    TotalRemove({"B", "C", "D", "E", "F"}, u, "B");
    assert {"B", "C", "D", "E", "F"} - {"B"} == {"C", "D", "E", "F"};
    TotalRemove({"C", "D", "E", "F"}, u, "E");
    assert {"C", "D", "E", "F"} - {"E"} == {"C", "D", "F"};
  }

  /** The terms, the root and the used terms `process` finds in the example. */
  lemma ExampleTerms()
    ensures TermsOf(ExampleAncestors) == {"A", "B", "C", "D", "E", "F"}
    ensures RootsAmong(ExampleParents, TermsOf(ExampleAncestors)) == {"A"}
    ensures UsedTerms(ExampleUsage, TermsOf(ExampleAncestors), "A") == {"B", "C", "D", "E", "F"}
  {
    var anc := ExampleAncestors;
    assert anc.Keys == {"B", "C", "D", "E", "F"};
    assert "A" in anc["B"];
    var terms := TermsOf(anc);
    assert terms == {"A", "B", "C", "D", "E", "F"};
    assert ExampleParents.Keys == {"B", "C", "D", "E", "F"};
  }

  /** The used terms whose usage reaches each term of the example. */
  lemma ExampleContributors(used: set<Term>)
    requires used == {"B", "C", "D", "E", "F"}
    ensures Covered(ExampleAncestors, used) == {"A", "B", "C", "D", "E", "F"}
    ensures Contributors(ExampleAncestors, used, "A") == {"B", "C", "D", "E", "F"}
    ensures Contributors(ExampleAncestors, used, "B") == {"C", "D", "F"}
    ensures Contributors(ExampleAncestors, used, "C") == {"D", "F"}
    ensures Contributors(ExampleAncestors, used, "D") == {}
    ensures Contributors(ExampleAncestors, used, "E") == {"C", "D", "F"}
    ensures Contributors(ExampleAncestors, used, "F") == {}
  {
    var anc := ExampleAncestors;
    assert "A" in anc["B"] && "C" in anc["C"] && "E" in anc["E"] && "D" in anc["D"] && "F" in anc["F"];
  }

  /** Accumulated usage: A 19, B 14, C 9, D 5, E 11, F 2. */
  lemma ExampleAccumulated(used: set<Term>)
    requires used == {"B", "C", "D", "E", "F"}
    ensures Covered(ExampleAncestors, used) == {"A", "B", "C", "D", "E", "F"}
    ensures Accumulated(ExampleAncestors, ExampleUsage, used, "A") == 19
    ensures Accumulated(ExampleAncestors, ExampleUsage, used, "B") == 14
    ensures Accumulated(ExampleAncestors, ExampleUsage, used, "C") == 9
    ensures Accumulated(ExampleAncestors, ExampleUsage, used, "D") == 5
    ensures Accumulated(ExampleAncestors, ExampleUsage, used, "E") == 11
    ensures Accumulated(ExampleAncestors, ExampleUsage, used, "F") == 2
  {
    ExampleContributors(used);
    ExampleTotals();
    assert Total({}, ExampleUsage) == 0;
  }

  /** Each term's accumulated usage over the root's gives the probabilities above. */
  lemma ExampleProbabilities(used: set<Term>)
    requires used == {"B", "C", "D", "E", "F"}
    ensures Accumulated(ExampleAncestors, ExampleUsage, used, "A") > 0
    ensures Probabilities(ExampleAncestors, ExampleUsage, used, "A") == ExampleIc
  {
    ExampleAccumulated(used);
    var probs := Probabilities(ExampleAncestors, ExampleUsage, used, "A");
    assert probs.Keys == ExampleIc.Keys;
    assert probs["A"] == 19.0 / 19.0 == ExampleIc["A"];
    assert probs["B"] == ExampleIc["B"];
    assert probs["C"] == ExampleIc["C"];
    assert probs["D"] == ExampleIc["D"];
    assert probs["E"] == ExampleIc["E"];
    assert probs["F"] == ExampleIc["F"];
    SixEntries(probs, "A", "B", "C", "D", "E", "F");
    SixEntries(ExampleIc, "A", "B", "C", "D", "E", "F");
  }

  /** What `process` returns on the example: the closures, and A 1, B 14/19, ..., F 2/19. */
  lemma ExampleBuild()
    ensures ValidInput(ExampleParents, ExampleUsage, ExampleRank)
    ensures Build(ExampleParents, ExampleUsage, ExampleRank) == Success(Index(ExampleAncestors, ExampleIc))
  {
    ExampleClosures();
    ExampleTerms();
    ExampleProbabilities(UsedTerms(ExampleUsage, TermsOf(ExampleAncestors), "A"));
  }

  /** A map with six keys is the display of its six entries. */
  lemma SixEntries<V>(m: map<Term, V>, k1: Term, k2: Term, k3: Term, k4: Term, k5: Term, k6: Term)
    requires m.Keys == {k1, k2, k3, k4, k5, k6}
    ensures m == map[k1 := m[k1], k2 := m[k2], k3 := m[k3], k4 := m[k4], k5 := m[k5], k6 := m[k6]]
  {
  }

  /** Every closure of the table already holds its own term. */
  lemma ExampleReflexive()
    ensures WithSelf(ExampleAncestors) == ExampleAncestors
  {
    var r := WithSelf(ExampleAncestors);
    assert r.Keys == {"B", "C", "D", "E", "F"};
    assert r["B"] == ExampleAncestors["B"] && r["C"] == ExampleAncestors["C"];
    assert r["D"] == ExampleAncestors["D"] && r["E"] == ExampleAncestors["E"];
    assert r["F"] == ExampleAncestors["F"];
    FiveEntries(r, "B", "C", "D", "E", "F");
  }

  /** Items of the engine's answers, on an engine holding the example's index. */
  lemma ExampleVerdicts(e: SemanticDistance)
    requires e.ancestors == WithSelf(ExampleAncestors) && e.ic == ExampleIc
    ensures e.Verdict(None, "B", "B") == Exactly(Success(0.0))
    ensures e.Verdict(None, "B", "C") == Exactly(Success(e.lin(14.0 / 19.0, 9.0 / 19.0, 14.0 / 19.0)))
    ensures e.Verdict(None, "D", "C") == Exactly(Success(e.lin(5.0 / 19.0, 9.0 / 19.0, 9.0 / 19.0)))
    ensures e.Verdict(None, "B", "E") == Exactly(Success(e.lin(14.0 / 19.0, 11.0 / 19.0, 1.0)))
    ensures e.Verdict(None, "A", "B") == Exactly(Failure(NoAncestors("A")))
  {
    ExampleReflexive();
    var anc, ic := e.ancestors, e.ic;
    assert anc["B"] * anc["C"] == {"A", "B"};
    LeastOfUnique(ic, {"A", "B"}, "B");
    assert anc["D"] * anc["C"] == {"A", "B", "C", "E"};
    LeastOfUnique(ic, {"A", "B", "C", "E"}, "C");
    assert anc["B"] * anc["E"] == {"A"};
    LeastOfUnique(ic, {"A"}, "A");
    e.ReachesLin("B", "C");
    e.ReachesLin("D", "C");
    e.ReachesLin("B", "E");
  }

  /** The ancestors shared by B, C and D are A and B. */
  lemma SharedByBCD(anc: map<Term, set<Term>>)
    requires anc == ExampleAncestors
    ensures Known(anc, ["B", "C", "D"]) == {"B", "C", "D"}
    ensures SharedBy(anc, {"B", "C", "D"}) == {"A", "B"}
  {
    var known := {"B", "C", "D"};
    assert anc["B"] == {"A", "B"};
    forall x | x in SharedBy(anc, known) ensures x in {"A", "B"} {
      assert x in anc["B"];
    }
    assert "A" in anc["B"] && "A" in anc["C"] && "A" in anc["D"];
    assert "B" in anc["B"] && "B" in anc["C"] && "B" in anc["D"];
  }

  /** The ancestors shared by C, D and F are A, B, C and E. */
  lemma SharedByCDF(anc: map<Term, set<Term>>)
    requires anc == ExampleAncestors
    ensures Known(anc, ["C", "D", "F"]) == {"C", "D", "F"}
    ensures SharedBy(anc, {"C", "D", "F"}) == {"A", "B", "C", "E"}
  {
    var known := {"C", "D", "F"};
    var c := anc["C"];
    assert c == {"A", "B", "C", "E"};
    forall x | x in SharedBy(anc, known) ensures x in c {
      assert x in anc["C"];
    }
    assert c <= anc["D"] && c <= anc["F"];
    forall x | x in c ensures x in SharedBy(anc, known) {
      assert "C" in known && x in anc["C"];
    }
  }

  /** B, C and D share A and B, and B is the less probable. */
  lemma CandidatesOfBCD(anc: map<Term, set<Term>>)
    requires anc == WithSelf(ExampleAncestors)
    ensures Candidates(anc, ExampleIc, Known(anc, ["B", "C", "D"])) == {"A", "B"}
    ensures ExampleIc["B"] < ExampleIc["A"]
  {
    ExampleReflexive();
    SharedByBCD(anc);
  }

  /** C, D and F share A, B, C and E, and C is the least probable. */
  lemma CandidatesOfCDF(anc: map<Term, set<Term>>)
    requires anc == WithSelf(ExampleAncestors)
    ensures Candidates(anc, ExampleIc, Known(anc, ["C", "D", "F"])) == {"A", "B", "C", "E"}
    ensures ExampleIc["C"] < ExampleIc["A"] && ExampleIc["C"] < ExampleIc["B"] && ExampleIc["C"] < ExampleIc["E"]
  {
    ExampleReflexive();
    SharedByCDF(anc);
  }

  /** A, B, C and E are each a proper ancestor of another of the six terms. */
  lemma ExampleDominated(anc: map<Term, set<Term>>, terms: seq<Term>)
    requires anc == ExampleAncestors && terms == ["A", "B", "C", "D", "E", "F"]
    ensures Elements(terms) - Dominated(anc, terms) == {"D", "F"}
  {
    assert Elements(terms) == {"A", "B", "C", "D", "E", "F"};
    assert "D" in terms && "F" in terms;
    assert anc["D"] == {"A", "B", "C", "D", "E"};
    assert "A" in anc["D"] && "B" in anc["D"] && "C" in anc["D"] && "E" in anc["D"];
    forall t, a | t in terms && t in anc && a in anc[t] && a != t && a in terms ensures a != "D" && a != "F" {
    }
  }

  /** Keep looks at the first term, then at the rest. */
  lemma KeepCons(x: Term, rest: seq<Term>, keep: set<Term>)
    ensures Keep([x] + rest, keep) == (if x in keep then [x] else []) + Keep(rest, keep)
  {
    assert ([x] + rest)[1..] == rest;
  }

  /** Keeping the fourth and the sixth of six terms, in order. */
  lemma KeepFourthAndSixth(t1: Term, t2: Term, t3: Term, t4: Term, t5: Term, t6: Term, keep: set<Term>)
    requires t4 in keep && t6 in keep && t1 !in keep && t2 !in keep && t3 !in keep && t5 !in keep
    ensures Keep([t1, t2, t3, t4, t5, t6], keep) == [t4, t6]
  {
    KeepCons(t6, [], keep);
    assert [t6] == [t6] + [];
    KeepCons(t5, [t6], keep);
    assert [t5, t6] == [t5] + [t6];
    KeepCons(t4, [t5, t6], keep);
    assert [t4, t5, t6] == [t4] + [t5, t6];
    KeepCons(t3, [t4, t5, t6], keep);
    assert [t3, t4, t5, t6] == [t3] + [t4, t5, t6];
    KeepCons(t2, [t3, t4, t5, t6], keep);
    assert [t2, t3, t4, t5, t6] == [t2] + [t3, t4, t5, t6];
    KeepCons(t1, [t2, t3, t4, t5, t6], keep);
    assert [t1, t2, t3, t4, t5, t6] == [t1] + [t2, t3, t4, t5, t6];
  }

  /** Filtering the six terms down to the most specific ones leaves D and F. */
  lemma ExampleMostSpecific()
    ensures MostSpecific(WithSelf(ExampleAncestors), ["A", "B", "C", "D", "E", "F"]) == ["D", "F"]
  {
    ExampleReflexive();
    var terms := ["A", "B", "C", "D", "E", "F"];
    ExampleDominated(ExampleAncestors, terms);
    KeepFourthAndSixth("A", "B", "C", "D", "E", "F", {"D", "F"});
  }

  /** `process` on the example, run as the imperative builder. */
  method ExampleIndex() returns (index: Result<Index, BuildError>)
    ensures index == Success(Index(ExampleAncestors, ExampleIc))
  {
    ExampleBuild();
    index := Process(ExampleParents, ExampleUsage, ExampleRank);
  }

  /** An engine over the example's index; its closures already hold their own terms. */
  method ExampleEngine(lin: Lin) returns (e: SemanticDistance)
    ensures e.ancestors == ExampleAncestors && e.ic == ExampleIc && e.lin == lin
  {
    ExampleReflexive();
    var created := SemanticDistance.Create(ExampleAncestors, ExampleIc, lin);
    if created.Failure? {
      assert false;
    }
    e := created.value;
  }

  /**
   * The distances doc/example.py asks for. The formula is left open, so each distance is the
   * formula applied to the probabilities the source feeds it; a query naming the root fails,
   * since the root has no ancestor entry.
   */
  method ExampleDistances(e: SemanticDistance)
    returns (same: Result<real, QueryError>, bc: Result<real, QueryError>, dc: Result<real, QueryError>,
             be: Result<real, QueryError>, root: Result<real, QueryError>)
    requires e.ancestors == ExampleAncestors && e.ic == ExampleIc
    ensures same == Success(0.0)
    ensures bc == Success(e.lin(14.0 / 19.0, 9.0 / 19.0, 14.0 / 19.0))
    ensures dc == Success(e.lin(5.0 / 19.0, 9.0 / 19.0, 9.0 / 19.0))
    ensures be == Success(e.lin(14.0 / 19.0, 11.0 / 19.0, 1.0))
    ensures root == Failure(NoAncestors("A"))
  {
    ExampleReflexive();
    ExampleVerdicts(e);
    same := e.DistanceBetween("B", "B", None);
    bc := e.DistanceBetween("B", "C", None);
    dc := e.DistanceBetween("D", "C", None);
    be := e.DistanceBetween("B", "E", None);
    root := e.DistanceBetween("A", "B", None);
  }

  /** A member of s strictly below every other member is the only one no larger than all of them. */
  lemma OnlyLeast(ic: map<Term, real>, s: set<Term>, b: Term, r: Term)
    requires s <= ic.Keys && b in s && forall y :: y in s && y != b ==> ic[b] < ic[y]
    requires r in s && forall y :: y in s ==> ic[r] <= ic[y]
    ensures r == b
  {
  }

  /** The best common ancestor of B, C and D is B. */
  method BestOfBCD(e: SemanticDistance) returns (bcd: Result<Option<Term>, QueryError>)
    requires e.ancestors == ExampleAncestors && e.ic == ExampleIc
    ensures bcd == Success(Some("B"))
  {
    ExampleReflexive();
    CandidatesOfBCD(e.ancestors);
    bcd := e.BestCommonAncestor(["B", "C", "D"]);
    OnlyLeast(e.ic, {"A", "B"}, "B", bcd.value.value);
  }

  /** The best common ancestor of C, D and F is C. */
  method BestOfCDF(e: SemanticDistance) returns (cdf: Result<Option<Term>, QueryError>)
    requires e.ancestors == ExampleAncestors && e.ic == ExampleIc
    ensures cdf == Success(Some("C"))
  {
    ExampleReflexive();
    CandidatesOfCDF(e.ancestors);
    cdf := e.BestCommonAncestor(["C", "D", "F"]);
    OnlyLeast(e.ic, {"A", "B", "C", "E"}, "C", cdf.value.value);
  }

  /** The walk-through of doc/example.py, from `process` to the queries and their announced answers. */
  method ExampleSession(lin: Lin)
    returns (bc: Result<real, QueryError>, be: Result<real, QueryError>,
             bcd: Result<Option<Term>, QueryError>, specific: seq<Term>)
    ensures bc == Success(lin(14.0 / 19.0, 9.0 / 19.0, 14.0 / 19.0))
    ensures be == Success(lin(14.0 / 19.0, 11.0 / 19.0, 1.0))
    ensures bcd == Success(Some("B"))
    ensures specific == ["D", "F"]
  {
    var index := ExampleIndex();
    var e := ExampleEngine(lin);
    var same, dc, root;
    same, bc, dc, be, root := ExampleDistances(e);
    bcd := BestOfBCD(e);
    ExampleReflexive();
    ExampleMostSpecific();
    specific := e.ExcludeAncestors(["A", "B", "C", "D", "E", "F"]);
  }

  /**
   * The legacy engine, given the index built above for the same ontology, answers the
   * best-common-ancestor and exclude-ancestors queries of SemanticDistance/example.py as
   * announced there.
   */
  method LegacyExampleQueries(lin: Lin) returns (bcd: Option<Term>, cdf: Option<Term>, specific: seq<Term>)
    ensures bcd == Some("B") && cdf == Some("C")
    ensures specific == ["D", "F"]
  {
    ExampleReflexive();
    var created := LegacyDistance.SemanticDistance.Create(ExampleAncestors, ExampleIc, lin);
    if created.Failure? {
      assert false;
    }
    var legacy := created.value;
    CandidatesOfBCD(legacy.ancestors);
    bcd := legacy.BestCommonAncestor(["B", "C", "D"]);
    OnlyLeast(legacy.ic, {"A", "B"}, "B", bcd.value);
    CandidatesOfCDF(legacy.ancestors);
    cdf := legacy.BestCommonAncestor(["C", "D", "F"]);
    OnlyLeast(legacy.ic, {"A", "B", "C", "E"}, "C", cdf.value);
    ExampleMostSpecific();
    specific := legacy.ExcludeAncestors(["A", "B", "C", "D", "E", "F"]);
  }

  // ---------------------------------------------------------------------------
  // A chain whose terms are all certain

  /**
   * `process` on the chain A <- B <- C with only C used: every term then has probability 1,
   * and the root A again has no ancestor entry.
   */
  const ChainAncestors: map<Term, set<Term>> := map["B" := {"A", "B"}, "C" := {"A", "B", "C"}]
  const ChainIc: map<Term, real> := map["A" := 1.0, "B" := 1.0, "C" := 1.0]

  /**
   * Comparing B with C passes the monotony assertion, since p(MS) = p(B) = p(C) = 1, and then
   * the Lin quotient divides by log 1 + log 1 = 0.
   */
  lemma ChainVerdict(e: SemanticDistance)
    requires e.ancestors == ChainAncestors && e.ic == ChainIc
    ensures e.Verdict(None, "B", "C") == Exactly(Failure(ZeroDenominator))
  {
    assert ChainAncestors["B"] * ChainAncestors["C"] == {"A", "B"};
    LeastOfUnique(ChainIc, {"A", "B"}, "B");
  }

  /** The legacy engine raises the same division by zero, with or without its probability check. */
  lemma LegacyChainAnswer(l: LegacyDistance.SemanticDistance, checkIc: bool)
    requires l.ancestors == ChainAncestors && l.ic == ChainIc
    ensures l.Answer(checkIc, None, "B", "C") == LegacyDistance.Raises(LegacyDistance.ZeroDivision)
  {
    assert ChainAncestors["B"] * ChainAncestors["C"] == {"A", "B"};
    LeastOfUnique(ChainIc, {"A", "B"}, "B");
  }

  /** So a forced set query between B and C skips the pair and finds no distance at all. */
  method ChainSetDistance(e: SemanticDistance) returns (r: Result<Option<real>, QueryError>)
    requires e.ancestors == ChainAncestors && e.ic == ChainIc
    ensures r == Success(None)
  {
    ChainVerdict(e);
    r := e.DistanceBetweenSets(["B"], ["C"], true, None);
    assert Pairs(Elements(["B"]), Elements(["C"])) == {("B", "C")};
  }
}
