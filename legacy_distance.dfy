/**
 * The older query engine of the package. It answers the same questions as the newer one
 * but reports most failures as negative sentinel values instead of raising: -1 for a
 * missing probability, -2 for two terms without a shared ancestor, -3 for missing data
 * and -4 for a cluster without a usable pair. The lookups and assertions it does not
 * guard still raise; the model calls those crashes.
 */
module LegacyDistance {
  import opened Ontology
  import opened DistanceEngine

  const NoInformationContentCode: real := -1.0
  const NoSharedParentCode: real := -2.0
  const NoDataCode: real := -3.0
  const IsSingletonCode: real := -4.0

  /** The exceptions that escape the engine: failed assertions and failed dictionary lookups. */
  datatype Crash =
    | IcAssertion(term: Term, value: real)
    | IcKeyError(term: Term)
    | AncestorsKeyError(term: Term)
    | MonotonyAssertion
    | ZeroDivision  // log p(A) + log p(B) is 0: the Lin quotient divides by zero

  /**
   * What one pairwise query does: return a number (a distance or a code) or raise. When
   * several common ancestors lack a probability, which one the raised lookup names depends
   * on the order the ancestors are visited in.
   */
  datatype Reply = Returns(value: real) | Raises(crash: Crash) | RaisesIcKeyError(among: set<Term>)

  ghost predicate Permits(reply: Reply, r: Result<real, Crash>)
  {
    match reply
    case Returns(v) => r == Success(v)
    case Raises(c) => r == Failure(c)
    case RaisesIcKeyError(among) => r.Failure? && r.error.IcKeyError? && r.error.term in among
  }

  /** A reply ends the set and cluster loops when it raises or, unless forced, is a negative code. */
  predicate Halts(reply: Reply, force: bool)
  {
    !reply.Returns? || (!force && reply.value < 0.0)
  }

  /** The replies the set and cluster loops keep: the non-negative numbers. */
  predicate Usable(reply: Reply)
  {
    reply.Returns? && reply.value >= 0.0
  }

  /** A result allowed by a reply tells whether the reply halts the loops and whether it is kept. */
  lemma PermitsHalts(reply: Reply, r: Result<real, Crash>, force: bool)
    requires Permits(reply, r)
    ensures Halts(reply, force) <==> r.Failure? || (!force && r.value < 0.0)
    ensures Usable(reply) <==> r.Success? && r.value >= 0.0
  {
  }

  /** The distances kept from a sequence of replies, in order. */
  function Kept(rs: seq<Reply>): (ds: seq<real>)
    ensures |ds| <= |rs|
    ensures forall k :: 0 <= k < |ds| ==> ds[k] >= 0.0
    ensures (forall k :: 0 <= k < |rs| ==> Usable(rs[k])) ==> |ds| == |rs|
  {
    if rs == [] then []
    else
      var last := rs[|rs| - 1];
      assert forall k :: 0 <= k < |rs| - 1 ==> rs[..|rs| - 1][k] == rs[k];
      Kept(rs[..|rs| - 1]) + (if Usable(last) then [last.value] else [])
  }

  /** What the cluster query returns for the distances it kept. */
  function Spread(ds: seq<real>): real
  {
    if |ds| == 0 then IsSingletonCode else Sum(ds) / |ds| as real
  }

  lemma {:induction false} SumNonNegative(ds: seq<real>)
    requires forall k :: 0 <= k < |ds| ==> ds[k] >= 0.0
    ensures Sum(ds) >= 0.0
  {
    if ds != [] {
      SumNonNegative(ds[..|ds| - 1]);
    }
  }

  /** A cluster result is negative exactly when no distance was kept: codes never pass for means. */
  lemma SpreadSign(ds: seq<real>)
    requires forall k :: 0 <= k < |ds| ==> ds[k] >= 0.0
    ensures Spread(ds) < 0.0 <==> ds == []
  {
    if ds != [] {
      SumNonNegative(ds);
      RatioNonNegative(Sum(ds), |ds| as real);
    }
  }

  lemma RatioNonNegative(x: real, n: real)
    requires x >= 0.0 && n > 0.0
    ensures x / n >= 0.0
  {
  }

  /** What the set query returns for the mean it computed. */
  function SetsValue(mean: Option<real>): real
  {
    if mean.None? then NoDataCode else mean.value
  }

  lemma {:induction false} RealTotalNonNegative<K>(s: set<K>, w: map<K, real>)
    requires s <= w.Keys && forall k :: k in s ==> w[k] >= 0.0
    ensures RealTotal(s, w) >= 0.0
    decreases |s|
  {
    if s != {} {
      var k :| k in s;
      RealTotalRemove(s, w, k);
      RealTotalNonNegative(s - {k}, w);
    }
  }

  /** Over non-negative distances the set aggregate is a non-negative mean, absent only without pairs. */
  lemma AggregateSign(ok: map<(Term, Term), real>)
    requires forall p :: p in ok ==> ok[p] >= 0.0
    ensures Aggregate(ok).None? <==> ok == map[]
    ensures Aggregate(ok).Some? ==> Aggregate(ok).value >= 0.0
  {
    var m := Minima(ok);
    if ok != map[] {
      var p :| p in ok;
      assert (p.0, First) in Reached(ok);
      assert (p.0, First) in m.Keys;
      forall k | k in m.Keys ensures m[k] >= 0.0 {
        UnderReached(ok, k);
        assert Under(ok, k) != {} by {
          if k.1 == First {
            var q :| q in ok && k == (q.0, First);
            assert q in Under(ok, k);
          } else {
            var q :| q in ok && k == (q.1, Second);
            assert q in Under(ok, k);
          }
        }
        var least := LeastOfIsMinimum(ok, Under(ok, k));
      }
      RealTotalNonNegative(m.Keys, m);
      RatioNonNegative(RealTotal(m.Keys, m), |m.Keys| as real);
    } else {
      assert Reached(ok) == {};
    }
  }

  /** How an outcome of the exception-raising engine reads in this engine's replies. */
  function AsReply(o: Outcome): Reply
  {
    match o
    case MissingIc(among) => RaisesIcKeyError(among)
    case Exactly(Success(v)) => Returns(v)
    case Exactly(Failure(e)) =>
      match e
      case NotInMatrix(_) => Returns(NoDataCode)
      case NoMatrixDistance(_, _) => Returns(NoDataCode)
      case NoInformationContent(_) => Returns(NoInformationContentCode)
      case NoAncestors(t) => Raises(AncestorsKeyError(t))
      case NoCommonAncestors(_, _) => Returns(NoSharedParentCode)
      case BrokenMonotony => Raises(MonotonyAssertion)
      case ZeroDenominator => Raises(ZeroDivision)
      // set, cluster and construction errors, which no pairwise query produces
      case _ => Returns(NoDataCode)
  }

  /** The distinct items of the list, each once, in some order. */
  method Unique(items: seq<Term>) returns (list: seq<Term>)
    ensures Enumerates(list, Elements(items))
  {
    var seen: set<Term> := {};
    for i := 0 to |items|
      invariant seen == Elements(items[..i])
    {
      assert items[..i + 1] == items[..i] + [items[i]];
      seen := seen + {items[i]};
    }
    assert items[..|items|] == items;
    list := ListOf(seen);
  }

  /** Python's ordering of strings: character by character, a proper prefix first. */
  predicate LexLeq(a: string, b: string)
    decreases |a|
  {
    a == [] || (b != [] && (a[0] < b[0] || (a[0] == b[0] && LexLeq(a[1..], b[1..]))))
  }

  lemma {:induction false} LexTotal(a: string, b: string)
    ensures LexLeq(a, b) || LexLeq(b, a)
    decreases |a|
  {
    if a != [] && b != [] && a[0] == b[0] {
      LexTotal(a[1..], b[1..]);
    }
  }

  lemma {:induction false} LexAntisymmetric(a: string, b: string)
    requires LexLeq(a, b) && LexLeq(b, a)
    ensures a == b
    decreases |a|
  {
    if a != [] {
      LexAntisymmetric(a[1..], b[1..]);
      assert a == [a[0]] + a[1..] && b == [b[0]] + b[1..];
    }
  }

  /** The two terms, smaller first. */
  function Order(a: Term, b: Term): (r: (Term, Term))
    ensures r == (a, b) || r == (b, a)
    ensures LexLeq(r.0, r.1)
  {
    LexTotal(a, b);
    if LexLeq(a, b) then (a, b) else (b, a)
  }

  /** Ordering does not depend on the order of the arguments. */
  lemma OrderSymmetric(a: Term, b: Term)
    ensures Order(a, b) == Order(b, a)
  {
    if LexLeq(a, b) && LexLeq(b, a) {
      LexAntisymmetric(a, b);
    }
  }

  class SemanticDistance {
    /** The ancestor set of every term, closed under reflexivity by construction. */
    const ancestors: map<Term, set<Term>>
    /** The probability of every term that has one. */
    const ic: map<Term, real>
    const lin: Lin

    /** What construction establishes: positive probabilities and reflexive ancestor sets. */
    ghost predicate Valid()
    {
      && (forall t :: t in ic ==> ic[t] > 0.0)
      && (forall t :: t in ancestors ==> t in ancestors[t])
    }

    /** Adds every term to its own ancestor set, one term at a time. */
    constructor (ancestors: map<Term, set<Term>>, ic: map<Term, real>, lin: Lin)
      requires forall t :: t in ic ==> ic[t] > 0.0
      ensures this.ancestors == WithSelf(ancestors) && this.ic == ic && this.lin == lin
      ensures Valid()
    {
      var closed := ancestors;
      var todo := ancestors.Keys;
      while todo != {}
        invariant todo <= ancestors.Keys && closed.Keys == ancestors.Keys
        invariant forall t :: t in todo ==> closed[t] == ancestors[t]
        invariant forall t :: t in ancestors && t !in todo ==> closed[t] == ancestors[t] + {t}
        decreases |todo|
      {
        var t :| t in todo;
        if t !in closed[t] {
          closed := closed[t := closed[t] + {t}];
        }
        todo := todo - {t};
      }
      this.ancestors := closed;
      this.ic := ic;
      this.lin := lin;
    }

    /** Checks the probabilities, then builds the engine. */
    static method Create(ancestors: map<Term, set<Term>>, ic: map<Term, real>, lin: Lin)
      returns (r: Result<SemanticDistance, Crash>)
      ensures r.Success? <==> forall t :: t in ic ==> ic[t] > 0.0
      ensures r.Failure? ==> exists t :: t in ic && ic[t] <= 0.0 && r.error == IcAssertion(t, ic[t])
      ensures r.Success? ==>
        && fresh(r.value) && r.value.Valid()
        && r.value.ancestors == WithSelf(ancestors) && r.value.ic == ic && r.value.lin == lin
    {
      var todo := ic.Keys;
      while todo != {}
        invariant todo <= ic.Keys
        invariant forall t :: t in ic && t !in todo ==> ic[t] > 0.0
        decreases |todo|
      {
        var t :| t in todo;
        if ic[t] <= 0.0 {
          return Failure(IcAssertion(t, ic[t]));
        }
        todo := todo - {t};
      }
      var e := new SemanticDistance(ancestors, ic, lin);
      return Success(e);
    }

    /** The ancestor set of a term, the term included; nothing for an unknown term. */
    function GetAncestors(t: Term): (r: Option<set<Term>>)
      ensures r.Some? <==> t in ancestors
      ensures Valid() && r.Some? ==> t in r.value
    {
      if t in ancestors then Some(ancestors[t]) else None
    }

    /** The probability of a term; nothing for a term without one. */
    function GetIc(t: Term): (r: Option<real>)
      ensures r.Some? <==> t in ic
      ensures Valid() && r.Some? ==> r.value > 0.0
    {
      if t in ic then Some(ic[t]) else None
    }

    /** The reply of a distance query between a and b, as the code decides it. */
    ghost function Answer(checkIc: bool, matrix: Option<Matrix>, a: Term, b: Term): Reply
    {
      if matrix.Some? then
        if a == b then Returns(0.0)
        else if a !in matrix.value || b !in matrix.value[a] then Returns(NoDataCode)
        else Returns(matrix.value[a][b])
      else if checkIc && (a !in ic || b !in ic) then Returns(NoInformationContentCode)
      else if a == b then Returns(0.0)
      else if a !in ic then Raises(IcKeyError(a))
      else if b !in ic then Raises(IcKeyError(b))
      else if a !in ancestors then Raises(AncestorsKeyError(a))
      else if ancestors[a] != {} && b !in ancestors then Raises(AncestorsKeyError(b))
      else
        var shared := if ancestors[a] == {} then {} else ancestors[a] * ancestors[b];
        if shared == {} then Returns(NoSharedParentCode)
        else if !(shared <= ic.Keys) then RaisesIcKeyError(shared - ic.Keys)
        else
          var pms := LeastOf(ic, shared);
          if pms < ic[a] || pms < ic[b] then Raises(MonotonyAssertion)
          else if ic[a] * ic[b] == 1.0 then Raises(ZeroDivision)
          else Returns(lin(ic[a], ic[b], pms))
    }

    /** The semantic distance between two terms, or a code, or a crash. */
    method DistanceBetween(a: Term, b: Term, checkIc: bool, matrix: Option<Matrix>) returns (r: Result<real, Crash>)
      ensures Permits(Answer(checkIc, matrix, a, b), r)
    {
      if matrix.Some? {
        if a == b {
          return Success(0.0);
        }
        if a !in matrix.value {
          return Success(NoDataCode);
        }
        if b !in matrix.value[a] {
          return Success(NoDataCode);
        }
        return Success(matrix.value[a][b]);
      }
      if checkIc {
        if a !in ic || b !in ic {
          return Success(NoInformationContentCode);
        }
      }
      if a == b {
        return Success(0.0);
      }
      if a !in ic {
        return Failure(IcKeyError(a));
      }
      if b !in ic {
        return Failure(IcKeyError(b));
      }
      var pA, pB := ic[a], ic[b];
      if a !in ancestors {
        return Failure(AncestorsKeyError(a));
      }
      var shared: set<Term> := {};
      if ancestors[a] != {} {
        if b !in ancestors {
          return Failure(AncestorsKeyError(b));
        }
        shared := CommonAncestors(ancestors[a], ancestors[b]);
      }
      if shared == {} {
        return Success(NoSharedParentCode);
      }
      var ms := MinimumSubsumer(ic, shared);
      if ms.Failure? {
        return Failure(IcKeyError(ms.error));
      }
      var pms := ms.value;
      if pms < pA || pms < pB {
        return Failure(MonotonyAssertion);
      }
      // for positive probabilities, log pA + log pB == 0 exactly when pA * pB == 1
      if pA * pB == 1.0 {
        return Failure(ZeroDivision);
      }
      return Success(lin(pA, pB, pms));
    }

    // -------------------------------------------------------------------------
    // Distance between two sets

    /** The non-negative distances the pairs of s produce. */
    ghost function Collected(checkIc: bool, matrix: Option<Matrix>, s: set<(Term, Term)>): map<(Term, Term), real>
    {
      map p | p in s && KeptOf(checkIc, matrix, p).Some? :: KeptOf(checkIc, matrix, p).value
    }

    /** The distance the set and cluster loops keep for pair p, if they keep one. */
    ghost function KeptOf(checkIc: bool, matrix: Option<Matrix>, p: (Term, Term)): Option<real>
    {
      var reply := Answer(checkIc, matrix, p.0, p.1);
      if Usable(reply) then Some(reply.value) else None
    }

    lemma CollectedAdd(checkIc: bool, matrix: Option<Matrix>, done: set<(Term, Term)>, p: (Term, Term))
      requires p !in done
      ensures Collected(checkIc, matrix, done + {p}) ==
        if KeptOf(checkIc, matrix, p).Some?
        then Collected(checkIc, matrix, done)[p := KeptOf(checkIc, matrix, p).value]
        else Collected(checkIc, matrix, done)
    {
    }

    /** Set results that are not codes: NO_DATA exactly when no pair gave a distance, a non-negative mean otherwise. */
    lemma SetsValueSign(checkIc: bool, matrix: Option<Matrix>, pairs: set<(Term, Term)>)
      ensures SetsValue(Aggregate(Collected(checkIc, matrix, pairs))) == NoDataCode <==>
        forall p :: p in pairs ==> !Usable(Answer(checkIc, matrix, p.0, p.1))
      ensures SetsValue(Aggregate(Collected(checkIc, matrix, pairs))) != NoDataCode ==>
        SetsValue(Aggregate(Collected(checkIc, matrix, pairs))) >= 0.0
    {
      var ok := Collected(checkIc, matrix, pairs);
      AggregateSign(ok);
      if exists p :: p in pairs && Usable(Answer(checkIc, matrix, p.0, p.1)) {
        var p :| p in pairs && Usable(Answer(checkIc, matrix, p.0, p.1));
        assert KeptOf(checkIc, matrix, p).Some?;
        assert p in ok;
      }
    }

    /** Accounting for one more compared pair keeps the minima tracked. */
    lemma RowStep(checkIc: bool, matrix: Option<Matrix>, done: set<(Term, Term)>, best: map<(Term, Side), real>,
                  a: Term, b: Term, d: Result<real, Crash>)
      requires Tracks(best, Collected(checkIc, matrix, done)) && (a, b) !in done
      requires KeptOf(checkIc, matrix, (a, b)) == if d.Success? && d.value >= 0.0 then Some(d.value) else None
      ensures d.Success? && d.value >= 0.0 ==>
        Tracks(Record(Record(best, (a, First), d.value), (b, Second), d.value), Collected(checkIc, matrix, done + {(a, b)}))
      ensures d.Failure? || d.value < 0.0 ==> Tracks(best, Collected(checkIc, matrix, done + {(a, b)}))
    {
      CollectedAdd(checkIc, matrix, done, (a, b));
      if d.Success? && d.value >= 0.0 {
        TracksRecord(best, Collected(checkIc, matrix, done), a, b, d.value);
      }
    }

    /** The query on p halts the set and cluster loops. */
    ghost predicate HaltsOn(checkIc: bool, matrix: Option<Matrix>, force: bool, p: (Term, Term))
    {
      Halts(Answer(checkIc, matrix, p.0, p.1), force)
    }

    /** The query on p halts the set and cluster loops, and r is a result it allows. */
    ghost predicate EndsWith(checkIc: bool, matrix: Option<Matrix>, force: bool, p: (Term, Term), r: Result<real, Crash>)
    {
      HaltsOn(checkIc, matrix, force, p) && Permits(Answer(checkIc, matrix, p.0, p.1), r)
    }

    /** One comparison of the set and cluster loops, stated through whether it halts and whether it is kept. */
    method Compare(a: Term, b: Term, force: bool, checkIc: bool, matrix: Option<Matrix>) returns (d: Result<real, Crash>)
      ensures Permits(Answer(checkIc, matrix, a, b), d)
      ensures HaltsOn(checkIc, matrix, force, (a, b)) <==> d.Failure? || (!force && d.value < 0.0)
      ensures d.Failure? || (!force && d.value < 0.0) ==> EndsWith(checkIc, matrix, force, (a, b), d)
      ensures KeptOf(checkIc, matrix, (a, b)) == if d.Success? && d.value >= 0.0 then Some(d.value) else None
    {
      d := DistanceBetween(a, b, checkIc, matrix);
      PermitsHalts(Answer(checkIc, matrix, a, b), d, force);
    }

    /** Compares a with b: the pair either halts the loops or has its distance, if kept, recorded. */
    method Visit(a: Term, b: Term, force: bool, checkIc: bool, matrix: Option<Matrix>,
                 best0: map<(Term, Side), real>, ghost done: set<(Term, Term)>)
      returns (stop: Option<Result<real, Crash>>, best: map<(Term, Side), real>)
      requires Tracks(best0, Collected(checkIc, matrix, done)) && (a, b) !in done
      ensures stop.Some? ==> EndsWith(checkIc, matrix, force, (a, b), stop.value)
      ensures stop.None? ==> !HaltsOn(checkIc, matrix, force, (a, b))
      ensures stop.None? ==> Tracks(best, Collected(checkIc, matrix, done + {(a, b)}))
    {
      best := best0;
      var d := Compare(a, b, force, checkIc, matrix);
      RowStep(checkIc, matrix, done, best, a, b, d);
      if d.Failure? || (!force && d.value < 0.0) {
        return Some(d), best;
      }
      if d.value >= 0.0 {
        best := Record(Record(best, (a, First), d.value), (b, Second), d.value);
      }
      stop := None;
    }

    /** Compares a with every term of ys, until a pair halts the loop. */
    method CompareRow(a: Term, ys: set<Term>, force: bool, checkIc: bool, matrix: Option<Matrix>,
                      best0: map<(Term, Side), real>, ghost done0: set<(Term, Term)>)
      returns (stop: Option<Result<real, Crash>>, best: map<(Term, Side), real>, ghost culprit: Term)
      requires Tracks(best0, Collected(checkIc, matrix, done0))
      requires forall b :: b in ys ==> (a, b) !in done0
      ensures stop.Some? ==> culprit in ys && EndsWith(checkIc, matrix, force, (a, culprit), stop.value)
      ensures stop.None? ==> forall b :: b in ys ==> !HaltsOn(checkIc, matrix, force, (a, b))
      ensures stop.None? ==> Tracks(best, Collected(checkIc, matrix, done0 + RowPairs(a, ys)))
    {
      best := best0;
      ghost var done := done0;
      var todo := ys;
      while todo != {}
        invariant todo <= ys
        invariant done == done0 + RowPairs(a, ys - todo)
        invariant forall b :: b in todo ==> (a, b) !in done
        invariant Tracks(best, Collected(checkIc, matrix, done))
        invariant forall b :: b in ys - todo ==> !HaltsOn(checkIc, matrix, force, (a, b))
        decreases |todo|
      {
        var b :| b in todo;
        stop, best := Visit(a, b, force, checkIc, matrix, best, done);
        if stop.Some? {
          return stop, best, b;
        }
        RowPairsStep(a, ys, todo, b);
        done := done + {(a, b)};
        todo := todo - {b};
      }
      assert ys - {} == ys;
      return None, best, a;
    }

    /** Compares every pair of the two sets until one halts the loops, tracking the minima. */
    method CompareAll(xs: set<Term>, ys: set<Term>, force: bool, checkIc: bool, matrix: Option<Matrix>)
      returns (stop: Option<Result<real, Crash>>, best: map<(Term, Side), real>)
      ensures stop.Some? ==>
        exists p :: p in Pairs(xs, ys) && EndsWith(checkIc, matrix, force, p, stop.value)
      ensures stop.None? ==> forall p :: p in Pairs(xs, ys) ==> !HaltsOn(checkIc, matrix, force, p)
      ensures stop.None? ==> Tracks(best, Collected(checkIc, matrix, Pairs(xs, ys)))
    {
      best := map[];
      ghost var done: set<(Term, Term)> := {};
      var todo := xs;
      while todo != {}
        invariant todo <= xs
        invariant done == Pairs(xs - todo, ys)
        invariant Tracks(best, Collected(checkIc, matrix, done))
        invariant forall p :: p in done ==> !HaltsOn(checkIc, matrix, force, p)
        decreases |todo|
      {
        var a :| a in todo;
        forall b | b in ys ensures (a, b) !in done {
          PairsMember(xs - todo, ys, (a, b));
        }
        ghost var b;
        stop, best, b := CompareRow(a, ys, force, checkIc, matrix, best, done);
        if stop.Some? {
          PairsMember(xs, ys, (a, b));
          return;
        }
        PairsGrow(xs - todo, ys, a);
        assert xs - (todo - {a}) == (xs - todo) + {a};
        forall p | p in RowPairs(a, ys) ensures !HaltsOn(checkIc, matrix, force, p) {
          var b :| b in ys && p == (a, b);
        }
        done := done + RowPairs(a, ys);
        todo := todo - {a};
      }
      assert xs - {} == xs;
      stop := None;
    }

    /**
     * The mean, over every term of both sets, of its smallest distance to the other set.
     * The first pair that raises, or unless forced returns a negative code, decides the
     * result; forced, codes are skipped, and NO_DATA is returned when nothing was kept.
     */
    method DistanceBetweenSets(termsA: seq<Term>, termsB: seq<Term>, force: bool, checkIc: bool, matrix: Option<Matrix>)
      returns (r: Result<real, Crash>)
      ensures var pairs := Pairs(Elements(termsA), Elements(termsB));
        && ((exists p :: p in pairs && HaltsOn(checkIc, matrix, force, p)) ==>
              exists p :: p in pairs && HaltsOn(checkIc, matrix, force, p)
                && Permits(Answer(checkIc, matrix, p.0, p.1), r))
        && ((forall p :: p in pairs ==> !HaltsOn(checkIc, matrix, force, p)) ==>
              r == Success(SetsValue(Aggregate(Collected(checkIc, matrix, pairs)))))
    {
      var stop, best := CompareAll(Elements(termsA), Elements(termsB), force, checkIc, matrix);
      if stop.Some? {
        return stop.value;
      }
      AggregateOfTracked(best, Collected(checkIc, matrix, Pairs(Elements(termsA), Elements(termsB))));
      var mean := MeanOf(best);
      if mean.None? {
        return Success(NoDataCode);
      }
      return Success(mean.value);
    }

    // -------------------------------------------------------------------------
    // Best common ancestor

    /** The most informative ancestor shared by all known terms of the list, if any. */
    method BestCommonAncestor(terms: seq<Term>) returns (r: Option<Term>)
      ensures Known(ancestors, terms) == {} ==> r.None?
      ensures Known(ancestors, terms) != {} ==>
        (r.None? <==> Candidates(ancestors, ic, Known(ancestors, terms)) == {})
      ensures r.Some? ==>
        && r.value in Candidates(ancestors, ic, Known(ancestors, terms))
        && forall y :: y in Candidates(ancestors, ic, Known(ancestors, terms)) ==> ic[r.value] <= ic[y]
    {
      var known := KnownTerms(ancestors, terms);
      if known == {} {
        return None;
      }
      var shared := SharedAncestors(ancestors, known);
      r := LeastProbable(ic, shared);
    }

    // -------------------------------------------------------------------------
    // Dispersion

    /** The replies of the pairs of a list, in order. */
    ghost function Answers(checkIc: bool, matrix: Option<Matrix>, ps: seq<(Term, Term)>): seq<Reply>
    {
      seq(|ps|, k requires 0 <= k < |ps| => Answer(checkIc, matrix, ps[k].0, ps[k].1))
    }

    lemma AnswersStep(checkIc: bool, matrix: Option<Matrix>, all: seq<(Term, Term)>, visited: seq<(Term, Term)>,
                      p: (Term, Term))
      requires |visited| < |all| && visited + [p] == all[..|visited| + 1]
      ensures Answers(checkIc, matrix, visited + [p]) == Answers(checkIc, matrix, visited) + [Answer(checkIc, matrix, p.0, p.1)]
      ensures Answers(checkIc, matrix, all)[..|visited| + 1] == Answers(checkIc, matrix, visited + [p])
    {
    }

    /** No visited pair halted, and distances holds the kept ones. */
    ghost predicate Steady(checkIc: bool, matrix: Option<Matrix>, force: bool, visited: seq<(Term, Term)>,
                           distances: seq<real>)
    {
      var rs := Answers(checkIc, matrix, visited);
      && distances == Kept(rs)
      && forall k :: 0 <= k < |rs| ==> !Halts(rs[k], force)
    }

    /** The first pair of the list to halt the loops allows r. */
    ghost predicate Stopped(checkIc: bool, matrix: Option<Matrix>, list: seq<Term>, force: bool, r: Result<real, Crash>)
    {
      var rs := Answers(checkIc, matrix, AllPairs(list));
      exists k :: 0 <= k < |rs| && Halts(rs[k], force) && (forall j :: 0 <= j < k ==> !Halts(rs[j], force))
        && Permits(rs[k], r)
    }

    /** What one more pair of the cluster loops does to the loop state. */
    lemma DisperseStep(list: seq<Term>, i: nat, j: nat, force: bool, checkIc: bool, matrix: Option<Matrix>,
                       visited: seq<(Term, Term)>, distances: seq<real>, d: Result<real, Crash>)
      requires i < j < |list| && visited == Rows(list, i) + Row(list, i)[..j - i - 1]
      requires Steady(checkIc, matrix, force, visited, distances)
      requires Permits(Answer(checkIc, matrix, list[i], list[j]), d)
      ensures visited + [(list[i], list[j])] == Rows(list, i) + Row(list, i)[..j - i]
      ensures d.Failure? || (!force && d.value < 0.0) ==> Stopped(checkIc, matrix, list, force, d)
      ensures !(d.Failure? || (!force && d.value < 0.0)) ==>
        Steady(checkIc, matrix, force, visited + [(list[i], list[j])],
               if d.value >= 0.0 then distances + [d.value] else distances)
    {
      var p := (list[i], list[j]);
      VisitPrefix(list, i, j, visited);
      AnswersStep(checkIc, matrix, AllPairs(list), visited, p);
      PermitsHalts(Answer(checkIc, matrix, p.0, p.1), d, force);
      var rs := Answers(checkIc, matrix, visited + [p]);
      assert rs[..|visited|] == Answers(checkIc, matrix, visited);
      if d.Failure? || (!force && d.value < 0.0) {
        var all := Answers(checkIc, matrix, AllPairs(list));
        assert all[|visited|] == rs[|visited|];
        assert forall k :: 0 <= k < |visited| ==> all[k] == Answers(checkIc, matrix, visited)[k];
      }
    }

    /** Row i of the cluster loops: list[i] against every later term. */
    method DisperseRow(list: seq<Term>, i: nat, force: bool, checkIc: bool, matrix: Option<Matrix>,
                       distances0: seq<real>)
      returns (stop: Option<Result<real, Crash>>, distances: seq<real>)
      requires i < |list| && Steady(checkIc, matrix, force, Rows(list, i), distances0)
      ensures stop.None? ==> Steady(checkIc, matrix, force, Rows(list, i + 1), distances)
      ensures stop.Some? ==> Stopped(checkIc, matrix, list, force, stop.value)
    {
      distances := distances0;
      ghost var visited := Rows(list, i);
      for j := i + 1 to |list|
        invariant visited == Rows(list, i) + Row(list, i)[..j - i - 1]
        invariant Steady(checkIc, matrix, force, visited, distances)
      {
        var p := (list[i], list[j]);
        var d := Compare(list[i], list[j], force, checkIc, matrix);
        DisperseStep(list, i, j, force, checkIc, matrix, visited, distances, d);
        if d.Failure? || (!force && d.value < 0.0) {
          return Some(d), distances;
        }
        if d.value >= 0.0 {
          distances := distances + [d.value];
        }
        visited := visited + [p];
      }
      assert Row(list, i)[..|list| - i - 1] == Row(list, i);
      return None, distances;
    }

    /** The cluster loops over the pairs of a list. */
    method DisperseList(list: seq<Term>, force: bool, checkIc: bool, matrix: Option<Matrix>)
      returns (r: Result<real, Crash>)
      ensures var rs := Answers(checkIc, matrix, AllPairs(list));
        && ((forall k :: 0 <= k < |rs| ==> !Halts(rs[k], force)) ==> r == Success(Spread(Kept(rs))))
        && ((exists k :: 0 <= k < |rs| && Halts(rs[k], force)) ==> Stopped(checkIc, matrix, list, force, r))
    {
      var distances: seq<real> := [];
      for i := 0 to |list|
        invariant Steady(checkIc, matrix, force, Rows(list, i), distances)
      {
        var stop;
        stop, distances := DisperseRow(list, i, force, checkIc, matrix, distances);
        if stop.Some? {
          return stop.value;
        }
      }
      var n := |distances|;
      if n == 0 {
        return Success(IsSingletonCode);
      }
      return Success(Sum(distances) / n as real);
    }

    /**
     * The mean distance over every pair of distinct listed terms. IS_SINGLETON for a single
     * distinct term or when no distance was kept; otherwise the first pair that raises, or
     * unless forced returns a negative code, decides the result.
     */
    method Dispersion(terms: seq<Term>, force: bool, checkIc: bool, matrix: Option<Matrix>)
      returns (r: Result<real, Crash>, ghost order: seq<Term>)
      ensures Enumerates(order, Elements(terms))
      ensures |order| == 1 ==> r == Success(IsSingletonCode)
      ensures |order| != 1 ==>
        var rs := Answers(checkIc, matrix, AllPairs(order));
        && ((forall k :: 0 <= k < |rs| ==> !Halts(rs[k], force)) ==> r == Success(Spread(Kept(rs))))
        && ((exists k :: 0 <= k < |rs| && Halts(rs[k], force)) ==> Stopped(checkIc, matrix, order, force, r))
    {
      var list := Unique(terms);
      order := list;
      if |list| == 1 {
        return Success(IsSingletonCode), order;
      }
      r := DisperseList(list, force, checkIc, matrix);
    }

    /** Without forcing, a cluster of two or more terms that does not halt has a non-negative mean. */
    lemma DispersionMean(checkIc: bool, matrix: Option<Matrix>, order: seq<Term>)
      requires |order| >= 2
      requires forall k :: 0 <= k < |AllPairs(order)| ==> !Halts(Answers(checkIc, matrix, AllPairs(order))[k], false)
      ensures Spread(Kept(Answers(checkIc, matrix, AllPairs(order)))) >= 0.0
    {
      var rs := Answers(checkIc, matrix, AllPairs(order));
      RowsCount(order, |order|);
      assert forall k :: 0 <= k < |rs| ==> Usable(rs[k]);
      SpreadSign(Kept(rs));
    }

    // -------------------------------------------------------------------------
    // Filters

    /** The listed terms that have a probability. */
    function ExcludeNullIc(terms: seq<Term>): (r: seq<Term>)
      ensures forall x :: x in r <==> x in terms && x in ic
      ensures forall x :: x in ic ==> multiset(r)[x] == multiset(terms)[x]
      ensures |r| <= |terms|
    {
      KeepMembers(terms, ic.Keys);
      Keep(terms, ic.Keys)
    }

    /** The listed terms that are no proper ancestor of another listed term, in list order. */
    method ExcludeAncestors(terms: seq<Term>) returns (r: seq<Term>)
      ensures r == MostSpecific(ancestors, terms)
    {
      var exclude: set<Term> := {};
      for i := 0 to |terms|
        invariant exclude == DominatedBy(ancestors, terms[..i], terms)
      {
        var term := terms[i];
        var ofTerm := if term in ancestors then ancestors[term] else {};
        exclude := MarkAncestors(term, ofTerm, terms, exclude);
        assert terms[..i + 1] == terms[..i] + [term];
        DominatedByStep(ancestors, terms[..i], term, terms);
      }
      assert terms[..|terms|] == terms;
      r := Keep(terms, Elements(terms) - exclude);
    }
  }

  /**
   * With the probability check on, this engine answers like the exception-raising one,
   * read through AsReply; the one difference is a term compared with itself without a
   * probability, which is a code here and 0 there.
   */
  lemma AgreesWithEngine(e: DistanceEngine.SemanticDistance, l: SemanticDistance, matrix: Option<Matrix>, a: Term, b: Term)
    requires l.ancestors == e.ancestors && l.ic == e.ic && l.lin == e.lin && l.Valid()
    ensures matrix.Some? || a != b || a in e.ic ==> l.Answer(true, matrix, a, b) == AsReply(e.Verdict(matrix, a, b))
    ensures matrix.None? && a !in e.ic ==>
      l.Answer(true, matrix, a, a) == Returns(NoInformationContentCode) && e.Verdict(matrix, a, a) == Exactly(Success(0.0))
  {
  }
}
