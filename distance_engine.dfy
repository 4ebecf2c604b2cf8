/**
 * The query side of the engine: given the ancestor closures and the probabilities an index
 * carries, the Lin semantic distance between two terms, between two sets of terms, the
 * dispersion of a cluster, the most informative common ancestor of a set of terms, and two
 * filters over term lists.
 *
 * The Lin formula itself (a quotient of logarithms) is kept uninterpreted: every engine
 * carries it as the function `lin`, applied to (p(A), p(B), p(MS)) where MS is the
 * minimum subsumer. Iteration over the source's dictionaries visits keys in an order the
 * model does not fix; where the result depends on that order the contracts say which
 * results are possible.
 */
module DistanceEngine {
  import opened Ontology
  import IndexBuilder

  /** Pre-computed distances, by first and then second term. */
  type Matrix = map<Term, map<Term, real>>

  /** The Lin similarity-to-distance formula, as a function of p(A), p(B) and p(MS). */
  type Lin = (real, real, real) -> real

  datatype QueryError =
    | NonPositiveIc(term: Term, value: real)
    | NotInMatrix(term: Term)
    | NoMatrixDistance(first: Term, second: Term)
    | NoInformationContent(term: Term)
    | NoAncestors(term: Term)
    | NoCommonAncestors(first: Term, second: Term)
    | BrokenMonotony
    | ZeroDenominator  // log p(A) + log p(B) is 0: the Lin quotient divides by zero
    | EmptyFirstSet
    | EmptySecondSet
    | NoKnownTerm
    | TooFewTerms
    | UnboundDistance

  /**
   * What a pairwise distance query may produce: one definite result, or a missing
   * probability for one of several common ancestors (which one is reported depends on
   * the order the ancestors are visited in).
   */
  datatype Outcome = Exactly(result: Result<real, QueryError>) | MissingIc(among: set<Term>)

  ghost predicate Allows(o: Outcome, r: Result<real, QueryError>)
  {
    match o
    case Exactly(x) => r == x
    case MissingIc(among) => r.Failure? && r.error.NoInformationContent? && r.error.term in among
  }

  /** The distance an outcome stands for, if it stands for one. */
  function ValueOf(o: Outcome): Option<real>
  {
    match o
    case Exactly(Success(v)) => Some(v)
    case _ => None
  }

  /** A query that is allowed by an outcome succeeds exactly when the outcome is a distance. */
  lemma AllowedValue(o: Outcome, r: Result<real, QueryError>)
    requires Allows(o, r)
    ensures ValueOf(o) == (if r.Success? then Some(r.value) else None)
  {
  }

  function Min(x: real, y: real): real
  {
    if x <= y then x else y
  }

  /** The smallest weight of the members of s (0 for the empty set, which is never asked). */
  ghost function LeastOf<K>(w: map<K, real>, s: set<K>): real
    requires s <= w.Keys
  {
    if s == {} then 0.0
    else var k :| k in s; if s == {k} then w[k] else Min(w[k], LeastOf(w, s - {k}))
  }

  /** The least weight is the weight of a member and no larger than any member's. */
  lemma {:induction false} LeastOfIsMinimum<K>(w: map<K, real>, s: set<K>) returns (m: K)
    requires s <= w.Keys && s != {}
    ensures m in s && LeastOf(w, s) == w[m]
    ensures forall k :: k in s ==> LeastOf(w, s) <= w[k]
    decreases |s|
  {
    var k :| k in s && LeastOf(w, s) == (if s == {k} then w[k] else Min(w[k], LeastOf(w, s - {k})));
    if s == {k} {
      m := k;
    } else {
      var rest := s - {k};
      assert rest != {} by {
        var j :| j in s && j != k;
        assert j in rest;
      }
      var m' := LeastOfIsMinimum(w, rest);
      assert LeastOf(w, s) == Min(w[k], w[m']);
      m := if w[k] <= w[m'] then k else m';
      forall j | j in s ensures LeastOf(w, s) <= w[j] {
        if j != k {
          assert j in rest;
        }
      }
    }
  }

  /** A member whose weight is no larger than any member's carries the least weight. */
  lemma LeastOfUnique<K>(w: map<K, real>, s: set<K>, m: K)
    requires s <= w.Keys && m in s && forall k :: k in s ==> w[m] <= w[k]
    ensures LeastOf(w, s) == w[m]
  {
    var m' := LeastOfIsMinimum(w, s);
  }

  /** Every ancestor set extended with the term itself. */
  function WithSelf(anc: map<Term, set<Term>>): (r: map<Term, set<Term>>)
  {
    map t | t in anc :: anc[t] + {t}
  }

  /** Adding the terms to their own ancestor sets twice changes nothing more. */
  lemma WithSelfIdempotent(anc: map<Term, set<Term>>)
    ensures WithSelf(WithSelf(anc)) == WithSelf(anc)
    ensures forall t :: t in WithSelf(anc) ==> t in WithSelf(anc)[t]
  {
    assert forall t :: t in anc ==> anc[t] + {t} + {t} == anc[t] + {t};
  }

  // ---------------------------------------------------------------------------
  // Aggregation of pairwise distances between two sets

  datatype Side = First | Second

  /** The (term, side) keys that the successful pairs record a distance under. */
  function Reached(ok: map<(Term, Term), real>): set<(Term, Side)>
  {
    (set p | p in ok :: (p.0, First)) + (set p | p in ok :: (p.1, Second))
  }

  /** The successful pairs whose distance is recorded under one (term, side) key. */
  function Under(ok: map<(Term, Term), real>, k: (Term, Side)): set<(Term, Term)>
  {
    if k.1 == First then set p | p in ok && p.0 == k.0 else set p | p in ok && p.1 == k.0
  }

  /** For each term of either set, its smallest distance to the terms of the other set. */
  ghost function Minima(ok: map<(Term, Term), real>): map<(Term, Side), real>
  {
    map k | k in Reached(ok) :: LeastOf(ok, Under(ok, k))
  }

  /** The mean of the per-term minima, or nothing when no pair produced a distance. */
  ghost function Aggregate(ok: map<(Term, Term), real>): Option<real>
  {
    var m := Minima(ok);
    if m.Keys == {} then None else Some(RealTotal(m.Keys, m) / |m.Keys| as real)
  }

  /** v is the smallest distance recorded under key k. */
  ghost predicate LeastUnder(v: real, ok: map<(Term, Term), real>, k: (Term, Side))
  {
    (exists p :: p in Under(ok, k) && v == ok[p]) && forall p :: p in Under(ok, k) ==> v <= ok[p]
  }

  /** best holds, for every reached key, the smallest distance recorded under it. */
  ghost predicate Tracks(best: map<(Term, Side), real>, ok: map<(Term, Term), real>)
  {
    best.Keys == Reached(ok) && forall k :: k in best ==> LeastUnder(best[k], ok, k)
  }

  /** Records d under key k, keeping the smaller of the old and new distance. */
  function Record(best: map<(Term, Side), real>, k: (Term, Side), d: real): map<(Term, Side), real>
  {
    if k in best then best[k := Min(best[k], d)] else best[k := d]
  }

  lemma UnderAdd(ok: map<(Term, Term), real>, a: Term, b: Term, d: real, k: (Term, Side))
    ensures Under(ok[(a, b) := d], k) ==
      Under(ok, k) + (if k == (a, First) || k == (b, Second) then {(a, b)} else {})
  {
  }

  /** Only reached keys have pairs recorded under them. */
  lemma UnderReached(ok: map<(Term, Term), real>, k: (Term, Side))
    ensures forall p :: p in Under(ok, k) ==> k in Reached(ok)
  {
    forall p | p in Under(ok, k) ensures k in Reached(ok) {
      if k.1 == First {
        assert k == (p.0, First);
      } else {
        assert k == (p.1, Second);
      }
    }
  }

  lemma ReachedAdd(ok: map<(Term, Term), real>, a: Term, b: Term, d: real)
    requires (a, b) !in ok
    ensures Reached(ok[(a, b) := d]) == Reached(ok) + {(a, First), (b, Second)}
  {
    var ok' := ok[(a, b) := d];
    forall k | k in Reached(ok') ensures k in Reached(ok) + {(a, First), (b, Second)} {
      if k.1 == First {
        var p :| p in ok' && k == (p.0, First);
        if p != (a, b) {
          assert p in ok;
        }
      } else {
        var p :| p in ok' && k == (p.1, Second);
        if p != (a, b) {
          assert p in ok;
        }
      }
    }
    assert (a, b) in ok';
    assert (a, First) in Reached(ok');
    assert (b, Second) in Reached(ok');
  }

  /** Recording d under key k of a new pair keeps k tracking its minimum. */
  lemma TracksKey(best: map<(Term, Side), real>, ok: map<(Term, Term), real>, ok': map<(Term, Term), real>,
                  a: Term, b: Term, d: real, k: (Term, Side))
    requires Tracks(best, ok) && (a, b) !in ok && ok' == ok[(a, b) := d]
    requires k == (a, First) || k == (b, Second)
    ensures LeastUnder(Record(best, k, d)[k], ok', k)
  {
    UnderAdd(ok, a, b, d, k);
    UnderReached(ok, k);
    assert (a, b) in Under(ok', k) && ok'[(a, b)] == d;
    if k in best && best[k] < d {
      var p :| p in Under(ok, k) && best[k] == ok[p];
      assert p in Under(ok', k) && ok'[p] == ok[p];
    }
  }

  /** A key the new pair is not recorded under keeps its minimum. */
  lemma LeastUnderKept(v: real, ok: map<(Term, Term), real>, a: Term, b: Term, d: real, k: (Term, Side))
    requires LeastUnder(v, ok, k) && (a, b) !in ok
    requires k != (a, First) && k != (b, Second)
    ensures LeastUnder(v, ok[(a, b) := d], k)
  {
    UnderAdd(ok, a, b, d, k);
    var p :| p in Under(ok, k) && v == ok[p];
    assert p in Under(ok[(a, b) := d], k) && ok[(a, b) := d][p] == ok[p];
  }

  /** Recording a new successful pair under both of its keys keeps best tracking the minima. */
  lemma TracksRecord(best: map<(Term, Side), real>, ok: map<(Term, Term), real>, a: Term, b: Term, d: real)
    requires Tracks(best, ok) && (a, b) !in ok
    ensures Tracks(Record(Record(best, (a, First), d), (b, Second), d), ok[(a, b) := d])
  {
    var ok' := ok[(a, b) := d];
    var best1 := Record(best, (a, First), d);
    var best' := Record(best1, (b, Second), d);
    ReachedAdd(ok, a, b, d);
    TracksKey(best, ok, ok', a, b, d, (a, First));
    TracksKey(best, ok, ok', a, b, d, (b, Second));
    forall k | k in best' ensures LeastUnder(best'[k], ok', k) {
      if k == (b, Second) {
        assert best'[k] == Record(best, k, d)[k];
      } else if k == (a, First) {
        assert best'[k] == best1[k];
      } else {
        assert best'[k] == best[k];
        LeastUnderKept(best[k], ok, a, b, d, k);
      }
    }
  }

  /** Once best tracks ok, it is the map of minima. */
  lemma TracksMinima(best: map<(Term, Side), real>, ok: map<(Term, Term), real>)
    requires Tracks(best, ok)
    ensures best == Minima(ok)
  {
    forall k | k in best ensures best[k] == LeastOf(ok, Under(ok, k)) {
      var p :| p in Under(ok, k) && best[k] == ok[p];
      LeastOfUnique(ok, Under(ok, k), p);
    }
  }

  /** The aggregate is the mean of whatever map tracks the minima. */
  lemma AggregateOfTracked(best: map<(Term, Side), real>, ok: map<(Term, Term), real>)
    requires Tracks(best, ok)
    ensures Aggregate(ok) == if best.Keys == {} then None else Some(RealTotal(best.Keys, best) / |best.Keys| as real)
  {
    TracksMinima(best, ok);
  }

  /** A sum over a set grown by one key. */
  lemma RealTotalAdd<K>(s: set<K>, w: map<K, real>, k: K)
    requires s <= w.Keys && k in w && k !in s
    ensures RealTotal(s + {k}, w) == RealTotal(s, w) + w[k]
  {
    RealTotalRemove(s + {k}, w, k);
    assert s + {k} - {k} == s;
  }

  function Pairs(xs: set<Term>, ys: set<Term>): set<(Term, Term)>
  {
    set x, y | x in xs && y in ys :: (x, y)
  }

  lemma PairsMember(xs: set<Term>, ys: set<Term>, p: (Term, Term))
    ensures p in Pairs(xs, ys) <==> p.0 in xs && p.1 in ys
  {
    if p.0 in xs && p.1 in ys {
      assert p == (p.0, p.1);
    }
  }

  /** The pairs of a with each member of ys. */
  function RowPairs(a: Term, ys: set<Term>): set<(Term, Term)>
  {
    set y | y in ys :: (a, y)
  }

  /** Moving one term out of the row's remaining terms adds one pair to the row's visited pairs. */
  lemma RowPairsStep(a: Term, ys: set<Term>, todo: set<Term>, b: Term)
    requires b in todo && todo <= ys
    ensures RowPairs(a, ys - (todo - {b})) == RowPairs(a, ys - todo) + {(a, b)}
  {
    assert ys - (todo - {b}) == (ys - todo) + {b};
  }

  /** Pairs grow one whole row at a time. */
  lemma PairsGrow(xs: set<Term>, ys: set<Term>, a: Term)
    ensures Pairs(xs, ys) + RowPairs(a, ys) == Pairs(xs + {a}, ys)
  {
    forall p ensures p in Pairs(xs, ys) + RowPairs(a, ys) <==> p in Pairs(xs + {a}, ys) {
      PairsMember(xs, ys, p);
      PairsMember(xs + {a}, ys, p);
      if p in RowPairs(a, ys) {
        var y :| y in ys && p == (a, y);
      }
    }
  }

  // ---------------------------------------------------------------------------
  // Dispersion: pairs in list order, and the distances a forced run appends

  /** Row i of the dispersion loops: the i-th term against every later term. */
  function Row(order: seq<Term>, i: nat): (r: seq<(Term, Term)>)
    requires i < |order|
    ensures |r| == |order| - i - 1
  {
    seq(|order| - i - 1, k requires 0 <= k < |order| - i - 1 => (order[i], order[i + 1 + k]))
  }

  /** The pairs of the first i rows, in visiting order. */
  function Rows(order: seq<Term>, i: nat): seq<(Term, Term)>
    requires i <= |order|
  {
    if i == 0 then [] else Rows(order, i - 1) + Row(order, i - 1)
  }

  /** Every unordered pair of a list of distinct terms, in the order the loops visit them. */
  function AllPairs(order: seq<Term>): seq<(Term, Term)>
  {
    Rows(order, |order|)
  }

  /** A partial row is a prefix of every pair the loops will visit. */
  lemma {:induction false} RowsPrefix(order: seq<Term>, i: nat, m: nat)
    requires i < |order| && m <= |order| - i - 1
    ensures Rows(order, i) + Row(order, i)[..m] <= AllPairs(order)
  {
    RowsGrow(order, i + 1, |order|);
    assert Rows(order, i) + Row(order, i)[..m] <= Rows(order, i + 1);
  }

  lemma {:induction false} RowsGrow(order: seq<Term>, i: nat, j: nat)
    requires i <= j <= |order|
    ensures Rows(order, i) <= Rows(order, j)
    decreases j - i
  {
    if i < j {
      RowsGrow(order, i, j - 1);
    }
  }

  /** n terms give n(n-1)/2 pairs. */
  lemma {:induction false} RowsCount(order: seq<Term>, i: nat)
    requires i <= |order|
    ensures 2 * |Rows(order, i)| == i * (2 * |order| - i - 1)
  {
    if i > 0 {
      RowsCount(order, i - 1);
    }
  }

  /** Visiting pair (i, j) extends the visited prefix of AllPairs by one pair. */
  lemma VisitPrefix(list: seq<Term>, i: nat, j: nat, visited: seq<(Term, Term)>)
    requires i < j < |list| && visited == Rows(list, i) + Row(list, i)[..j - i - 1]
    ensures var p := (list[i], list[j]);
      && visited + [p] == Rows(list, i) + Row(list, i)[..j - i]
      && |visited| < |AllPairs(list)|
      && visited + [p] == AllPairs(list)[..|visited| + 1]
      && AllPairs(list)[|visited|] == p
  {
    var p := (list[i], list[j]);
    RowExtend(list, i, j);
    var next := Rows(list, i) + Row(list, i)[..j - i];
    assert visited + [p] == next;
    RowsPrefix(list, i, j - i);
    assert next <= AllPairs(list);
  }

  /** The pairs of row i up to term j extend those up to term j - 1 by (list[i], list[j]). */
  lemma RowExtend(list: seq<Term>, i: nat, j: nat)
    requires i < j < |list|
    ensures Row(list, i)[..j - i] == Row(list, i)[..j - i - 1] + [(list[i], list[j])]
  {
    assert Row(list, i)[j - i - 1] == (list[i], list[j]);
  }

  /** The latest distance that was produced, if any. */
  function Latest(vs: seq<Option<real>>): Option<real>
  {
    if vs == [] then None
    else if vs[|vs| - 1].Some? then vs[|vs| - 1]
    else Latest(vs[..|vs| - 1])
  }

  /**
   * The distances a forced dispersion appends: a failed pair repeats the latest distance
   * produced before it; nothing when a pair fails before any distance was produced.
   */
  function CarryForward(vs: seq<Option<real>>): Option<seq<real>>
  {
    if vs == [] then Some([])
    else
      var prefix := CarryForward(vs[..|vs| - 1]);
      var here := if vs[|vs| - 1].Some? then vs[|vs| - 1] else Latest(vs[..|vs| - 1]);
      if prefix.None? || here.None? then None else Some(prefix.value + [here.value])
  }

  /** Carrying forward one distance per pair. */
  lemma {:induction false} CarryForwardLength(vs: seq<Option<real>>)
    requires CarryForward(vs).Some?
    ensures |CarryForward(vs).value| == |vs|
  {
    if vs != [] {
      CarryForwardLength(vs[..|vs| - 1]);
    }
  }

  /** When every pair produced a distance, nothing is carried: the distances are kept as they are. */
  lemma {:induction false} CarryForwardComplete(vs: seq<Option<real>>)
    requires forall k :: 0 <= k < |vs| ==> vs[k].Some?
    ensures CarryForward(vs).Some? && |CarryForward(vs).value| == |vs|
    ensures forall k :: 0 <= k < |vs| ==> CarryForward(vs).value[k] == vs[k].value
  {
    if vs != [] {
      var front := vs[..|vs| - 1];
      assert forall k :: 0 <= k < |front| ==> front[k] == vs[k];
      CarryForwardComplete(front);
      assert CarryForward(vs) == Some(CarryForward(front).value + [vs[|vs| - 1].value]);
    }
  }

  /** Once a prefix can no longer be carried forward, neither can any extension. */
  lemma {:induction false} CarryForwardStuck(vs: seq<Option<real>>, n: nat)
    requires n <= |vs| && CarryForward(vs[..n]).None?
    ensures CarryForward(vs).None?
    decreases |vs| - n
  {
    if n < |vs| {
      assert vs[..n + 1][..n] == vs[..n];
      CarryForwardStuck(vs, n + 1);
    } else {
      assert vs[..n] == vs;
    }
  }

  /** One more outcome: a distance is appended as it is, a failure repeats the latest one. */
  lemma CarryStep(outs: seq<Option<real>>, o: Option<real>)
    ensures Latest(outs + [o]) == if o.Some? then o else Latest(outs)
    ensures CarryForward(outs + [o]) ==
      if CarryForward(outs).None? then None
      else if o.Some? then Some(CarryForward(outs).value + [o.value])
      else if Latest(outs).Some? then Some(CarryForward(outs).value + [Latest(outs).value])
      else None
  {
    assert (outs + [o])[..|outs|] == outs;
  }

  function Sum(ds: seq<real>): real
  {
    if ds == [] then 0.0 else Sum(ds[..|ds| - 1]) + ds[|ds| - 1]
  }

  /** What the dispersion returns for the distances it appended. */
  function Dispersed(ds: Option<seq<real>>): Result<Option<real>, QueryError>
  {
    if ds.None? then Failure(UnboundDistance)
    else if |ds.value| == 0 then Success(None)
    else Success(Some(Sum(ds.value) / |ds.value| as real))
  }

  /** With at least two terms there is a pair, so a successful dispersion always has a mean. */
  lemma DispersedHasMean(order: seq<Term>, outs: seq<Option<real>>)
    requires |order| >= 2 && |outs| == |AllPairs(order)|
    ensures Dispersed(CarryForward(outs)).Success? ==> Dispersed(CarryForward(outs)).value.Some?
  {
    RowsCount(order, |order|);
    if CarryForward(outs).Some? {
      CarryForwardLength(outs);
    }
  }

  /** The distances of the pairs that produced one, in pair order. */
  function Successes(vs: seq<Option<real>>): seq<real>
  {
    if vs == [] then []
    else Successes(vs[..|vs| - 1]) + (if vs[|vs| - 1].Some? then [vs[|vs| - 1].value] else [])
  }

  /** Exactly the distances produced are kept, each one once per pair that produced it. */
  lemma {:induction false} SuccessesMembers(vs: seq<Option<real>>)
    ensures forall d :: d in Successes(vs) <==> Some(d) in vs
    ensures forall d :: multiset(Successes(vs))[d] == multiset(vs)[Some(d)]
    ensures |Successes(vs)| <= |vs|
  {
    if vs != [] {
      var front := vs[..|vs| - 1];
      SuccessesMembers(front);
      assert vs == front + [vs[|vs| - 1]];
    }
  }

  /**
   * The dispersion a forced run is documented to compute: failing pairs are ignored, the
   * mean is over the pairs that produced a distance, and there is no mean when none did.
   */
  function IgnoringFailures(vs: seq<Option<real>>): Result<Option<real>, QueryError>
  {
    Dispersed(Some(Successes(vs)))
  }

  /**
   * Ignoring failures never fails, has a mean exactly when some pair produced a distance,
   * and agrees with the distances as appended when no pair fails.
   */
  lemma {:induction false} IgnoringFailuresMeans(vs: seq<Option<real>>)
    ensures IgnoringFailures(vs).Success?
    ensures IgnoringFailures(vs).value.Some? <==> exists k :: 0 <= k < |vs| && vs[k].Some?
    ensures (forall k :: 0 <= k < |vs| ==> vs[k].Some?) ==> IgnoringFailures(vs) == Dispersed(CarryForward(vs))
  {
    SuccessesMembers(vs);
    if exists k :: 0 <= k < |vs| && vs[k].Some? {
      var k :| 0 <= k < |vs| && vs[k].Some?;
      var d := vs[k].value;
      assert vs[k] == Some(d);
      assert Some(d) in vs;
      assert d in Successes(vs);
    }
    if |Successes(vs)| > 0 {
      var d := Successes(vs)[0];
      assert d in Successes(vs);
      assert Some(d) in vs;
      var k :| 0 <= k < |vs| && vs[k] == Some(d);
    }
    if forall k :: 0 <= k < |vs| ==> vs[k].Some? {
      SuccessesComplete(vs);
    }
  }

  /** When every pair produced a distance, the successes are all the distances. */
  lemma {:induction false} SuccessesComplete(vs: seq<Option<real>>)
    requires forall k :: 0 <= k < |vs| ==> vs[k].Some?
    ensures CarryForward(vs) == Some(Successes(vs))
  {
    if vs != [] {
      var front := vs[..|vs| - 1];
      assert forall k :: 0 <= k < |front| ==> front[k] == vs[k];
      SuccessesComplete(front);
    }
  }

  /** As written, a forced dispersion whose first pair fails has nothing to append. */
  lemma FailureFirst()
    ensures Dispersed(CarryForward([None, Some(0.5)])) == Failure(UnboundDistance)
    ensures IgnoringFailures([None, Some(0.5)]) == Success(Some(0.5))
  {
    var one: seq<Option<real>> := [None, Some(0.5)];
    assert one[..1] == [None];
    assert one[..1][..0] == [];
    assert Successes(one) == [0.5] by {
      assert Successes(one[..1]) == [];
    }
    assert Sum([0.5]) == 0.5 by {
      assert [0.5][..0] == [];
    }
  }

  /** The distances a forced dispersion appends when the middle one of three pairs fails. */
  lemma CarryMiddleFailure(x: real, y: real)
    ensures CarryForward([Some(x), None, Some(y)]) == Some([x, x, y])
    ensures Successes([Some(x), None, Some(y)]) == [x, y]
  {
    var three: seq<Option<real>> := [Some(x), None, Some(y)];
    var two := three[..2];
    var first := two[..1];
    assert two == [Some(x), None] && first == [Some(x)];
    var none: seq<Option<real>> := [];
    CarryStep(none, Some(x));
    assert none + [Some(x)] == first;
    assert CarryForward(none).value + [x] == [x];
    CarryStep(first, None);
    assert first + [None] == two;
    assert CarryForward(first).value + [x] == [x, x];
    CarryStep(two, Some(y));
    assert two + [Some(y)] == three;
    assert CarryForward(two).value + [y] == [x, x, y];
    assert first[..0] == [];
    assert Successes(first) == [x];
  }

  /** As written, a failing pair counts the distance produced before it a second time. */
  lemma FailureRepeated()
    ensures Dispersed(CarryForward([Some(0.2), None, Some(0.5)])) == Success(Some(0.3))
    ensures IgnoringFailures([Some(0.2), None, Some(0.5)]) == Success(Some(0.35))
  {
    CarryMiddleFailure(0.2, 0.5);
    assert Sum([0.2, 0.2, 0.5]) == 0.9 by {
      assert [0.2, 0.2, 0.5][..2] == [0.2, 0.2] && [0.2, 0.2][..1] == [0.2] && [0.2][..0] == [];
    }
    assert Sum([0.2, 0.5]) == 0.7 by {
      assert [0.2, 0.5][..1] == [0.2] && [0.2][..0] == [];
    }
  }

  // ---------------------------------------------------------------------------
  // Filters over term lists

  /** The terms of the list that belong to keep, in order. */
  function Keep(terms: seq<Term>, keep: set<Term>): seq<Term>
  {
    if terms == [] then []
    else (if terms[0] in keep then [terms[0]] else []) + Keep(terms[1..], keep)
  }

  /** Keep drops exactly the terms outside keep and leaves every kept term as often as it was listed. */
  lemma {:induction false} KeepMembers(terms: seq<Term>, keep: set<Term>)
    ensures forall x :: x in Keep(terms, keep) <==> x in terms && x in keep
    ensures forall x :: x in keep ==> multiset(Keep(terms, keep))[x] == multiset(terms)[x]
    ensures forall x :: x !in keep ==> multiset(Keep(terms, keep))[x] == 0
    ensures |Keep(terms, keep)| <= |terms|
  {
    if terms != [] {
      KeepMembers(terms[1..], keep);
      assert terms == [terms[0]] + terms[1..];
    }
  }

  /** Keeping every member of the list leaves it as it is. */
  lemma {:induction false} KeepAll(terms: seq<Term>, keep: set<Term>)
    requires Elements(terms) <= keep
    ensures Keep(terms, keep) == terms
  {
    if terms != [] {
      assert terms[0] in Elements(terms);
      assert Elements(terms[1..]) <= Elements(terms);
      KeepAll(terms[1..], keep);
      assert terms == [terms[0]] + terms[1..];
    }
  }

  /** The members of terms that are a proper ancestor of a member of prefix. */
  function DominatedBy(anc: map<Term, set<Term>>, prefix: seq<Term>, terms: seq<Term>): set<Term>
  {
    set t, a | t in prefix && t in anc && a in anc[t] && a != t && a in terms :: a
  }

  /** The proper ancestors of t among terms (none when t has no ancestor set). */
  function ListedAncestors(anc: map<Term, set<Term>>, t: Term, terms: seq<Term>): set<Term>
  {
    if t in anc then set a | a in anc[t] && a != t && a in terms else {}
  }

  lemma DominatedByStep(anc: map<Term, set<Term>>, prefix: seq<Term>, t: Term, terms: seq<Term>)
    ensures DominatedBy(anc, prefix + [t], terms) == DominatedBy(anc, prefix, terms) + ListedAncestors(anc, t, terms)
  {
    var l := DominatedBy(anc, prefix + [t], terms);
    var r := DominatedBy(anc, prefix, terms) + ListedAncestors(anc, t, terms);
    forall a | a in l ensures a in r {
      var u :| u in prefix + [t] && u in anc && a in anc[u] && a != u && a in terms;
      if u != t {
        assert u in prefix;
      }
    }
  }

  /** The listed terms that are a proper ancestor of another listed term. */
  function Dominated(anc: map<Term, set<Term>>, terms: seq<Term>): set<Term>
  {
    DominatedBy(anc, terms, terms)
  }

  /** The list without the terms that are a proper ancestor of another listed term. */
  function MostSpecific(anc: map<Term, set<Term>>, terms: seq<Term>): seq<Term>
  {
    Keep(terms, Elements(terms) - Dominated(anc, terms))
  }

  /** What remains: exactly the listed terms that are no proper ancestor of a listed term. */
  lemma MostSpecificMembers(anc: map<Term, set<Term>>, terms: seq<Term>, x: Term)
    ensures x in MostSpecific(anc, terms) <==>
      x in terms && !exists t :: t in terms && t in anc && x in anc[t] && x != t
  {
    KeepMembers(terms, Elements(terms) - Dominated(anc, terms));
    if x in terms && exists t :: t in terms && t in anc && x in anc[t] && x != t {
      var t :| t in terms && t in anc && x in anc[t] && x != t;
      assert x in Dominated(anc, terms);
    }
  }

  /** No remaining term is a proper ancestor of another remaining term. */
  lemma MostSpecificIsAntichain(anc: map<Term, set<Term>>, terms: seq<Term>, t: Term, a: Term)
    requires t in MostSpecific(anc, terms) && a in MostSpecific(anc, terms)
    requires t in anc && a in anc[t]
    ensures a == t
  {
    MostSpecificMembers(anc, terms, t);
    MostSpecificMembers(anc, terms, a);
  }

  /** Filtering a second time removes nothing more. */
  lemma MostSpecificIdempotent(anc: map<Term, set<Term>>, terms: seq<Term>)
    ensures MostSpecific(anc, MostSpecific(anc, terms)) == MostSpecific(anc, terms)
  {
    var r := MostSpecific(anc, terms);
    KeepMembers(terms, Elements(terms) - Dominated(anc, terms));
    assert Dominated(anc, r) <= Dominated(anc, terms);
    assert Elements(r) <= Elements(terms) - Dominated(anc, terms);
    KeepAll(r, Elements(r) - Dominated(anc, r));
  }

  // ---------------------------------------------------------------------------
  // Steps shared by both query engines

  /** The ancestors the two ancestor sets have in common. */
  method CommonAncestors(ofA: set<Term>, ofB: set<Term>) returns (common: set<Term>)
    ensures common == ofA * ofB
  {
    common := {};
    var todo := ofA;
    while todo != {}
      invariant todo <= ofA
      invariant common == (ofA - todo) * ofB
      decreases |todo|
    {
      var x :| x in todo;
      if x in ofB {
        common := common + {x};
      }
      todo := todo - {x};
    }
  }

  /** The probability of the minimum subsumer: the lowest probability among the common ancestors. */
  method MinimumSubsumer(ic: map<Term, real>, common: set<Term>) returns (r: Result<real, Term>)
    requires common != {}
    ensures common <= ic.Keys ==> r == Success(LeastOf(ic, common))
    ensures !(common <= ic.Keys) ==> r.Failure? && r.error in common - ic.Keys
  {
    var first :| first in common;
    if first !in ic {
      return Failure(first);
    }
    var pms := ic[first];
    ghost var lowest := first;
    var rest := common - {first};
    while rest != {}
      invariant rest <= common && first !in rest
      invariant common - rest <= ic.Keys
      invariant lowest in common - rest && pms == ic[lowest]
      invariant forall x :: x in common - rest ==> pms <= ic[x]
      decreases |rest|
    {
      var x :| x in rest;
      if x !in ic {
        return Failure(x);
      }
      if ic[x] < pms {
        lowest := x;
      }
      pms := Min(pms, ic[x]);
      rest := rest - {x};
    }
    assert common - {} == common;
    LeastOfUnique(ic, common, lowest);
    return Success(pms);
  }

  /** The terms of the list known to the ancestor table. */
  ghost function Known(ancestors: map<Term, set<Term>>, terms: seq<Term>): set<Term>
  {
    set t | t in terms && t in ancestors
  }

  /** The terms that are ancestors of every one of the known terms. */
  ghost function SharedBy(ancestors: map<Term, set<Term>>, known: set<Term>): set<Term>
    requires known <= ancestors.Keys
  {
    set k, x | k in known && x in ancestors[k] && (forall j :: j in known ==> x in ancestors[j]) :: x
  }

  /** The members of s with a probability below the starting bound 2. */
  ghost function BelowTwo(ic: map<Term, real>, s: set<Term>): set<Term>
  {
    set x | x in s && x in ic && ic[x] < 2.0
  }

  /** Shared ancestors that can be reported as the best one. */
  ghost function Candidates(ancestors: map<Term, set<Term>>, ic: map<Term, real>, known: set<Term>): set<Term>
    requires known <= ancestors.Keys
  {
    BelowTwo(ic, SharedBy(ancestors, known))
  }

  /** The distinct listed terms that the ancestor table knows. */
  method KnownTerms(ancestors: map<Term, set<Term>>, terms: seq<Term>) returns (known: set<Term>)
    ensures known == Known(ancestors, terms)
    ensures known <= ancestors.Keys
  {
    known := {};
    for i := 0 to |terms|
      invariant known == set t | t in terms[..i] && t in ancestors
    {
      if terms[i] in ancestors {
        known := known + {terms[i]};
      }
    }
    assert terms[..|terms|] == terms;
  }

  /** Intersects the ancestor sets of the known terms, one term after another. */
  method SharedAncestors(ancestors: map<Term, set<Term>>, known: set<Term>) returns (shared: set<Term>)
    requires known != {} && known <= ancestors.Keys
    ensures shared == SharedBy(ancestors, known)
  {
    var k0 :| k0 in known;
    shared := ancestors[k0];
    ghost var seen := {k0};
    var rest := known - {k0};
    while rest != {}
      invariant rest <= known && seen == known - rest && k0 in seen
      invariant forall x :: x in shared <==> x in ancestors[k0] && forall j :: j in seen ==> x in ancestors[j]
      decreases |rest|
    {
      var t :| t in rest;
      shared := CommonAncestors(ancestors[t], shared);
      seen := seen + {t};
      rest := rest - {t};
    }
    forall x | x in SharedBy(ancestors, known) ensures x in shared {
      var k :| k in known && x in ancestors[k] && (forall j :: j in known ==> x in ancestors[j]);
    }
  }

  lemma BelowTwoAdd(ic: map<Term, real>, s: set<Term>, x: Term)
    ensures BelowTwo(ic, s + {x}) == BelowTwo(ic, s) + (if x in ic && ic[x] < 2.0 then {x} else {})
  {
  }

  /** The member of s with the lowest probability below 2, none when there is no such member. */
  method LeastProbable(ic: map<Term, real>, s: set<Term>) returns (best: Option<Term>)
    ensures best.None? <==> BelowTwo(ic, s) == {}
    ensures best.Some? ==> best.value in BelowTwo(ic, s) && forall y :: y in BelowTwo(ic, s) ==> ic[best.value] <= ic[y]
  {
    var bestIc := 2.0;
    best := None;
    var todo := s;
    ghost var done: set<Term> := {};
    while todo != {}
      invariant todo <= s && done == s - todo
      invariant best.None? ==> BelowTwo(ic, done) == {} && bestIc == 2.0
      invariant best.Some? ==> best.value in BelowTwo(ic, done) && bestIc == ic[best.value]
      invariant forall y :: y in BelowTwo(ic, done) ==> bestIc <= ic[y]
      decreases |todo|
    {
      var x :| x in todo;
      BelowTwoAdd(ic, done, x);
      if x in ic && ic[x] < bestIc {
        bestIc, best := ic[x], Some(x);
      }
      done := done + {x};
      todo := todo - {x};
    }
    assert done == s;
  }

  /** One more key added to the running sum and count of the summing loop. */
  lemma SumStep(best: map<(Term, Side), real>, keys: set<(Term, Side)>, done: set<(Term, Side)>, k: (Term, Side),
                total: real, n: int)
    requires keys <= best.Keys && done == best.Keys - keys && k in keys
    requires total == RealTotal(done, best) && n == |done|
    ensures done + {k} == best.Keys - (keys - {k})
    ensures total + best[k] == RealTotal(done + {k}, best) && n + 1 == |done + {k}|
  {
    RealTotalAdd(done, best, k);
  }

  /** The summing loop over the recorded minima: their sum and their number. */
  method SumOf(best: map<(Term, Side), real>) returns (total: real, n: int)
    ensures total == RealTotal(best.Keys, best) && n == |best.Keys|
  {
    total, n := 0.0, 0;
    var keys := best.Keys;
    ghost var done: set<(Term, Side)> := {};
    while keys != {}
      invariant keys <= best.Keys && done == best.Keys - keys
      invariant total == RealTotal(done, best) && n == |done|
      decreases |keys|
    {
      var k :| k in keys;
      SumStep(best, keys, done, k, total, n);
      total := total + best[k];
      n := n + 1;
      keys := keys - {k};
      done := done + {k};
    }
    assert done == best.Keys;
  }

  /** The mean of the recorded minima, nothing when none was recorded. */
  method MeanOf(best: map<(Term, Side), real>) returns (r: Option<real>)
    ensures r == if best.Keys == {} then None else Some(RealTotal(best.Keys, best) / |best.Keys| as real)
  {
    var total, n := SumOf(best);
    if n == 0 {
      return None;
    }
    return Some(total / n as real);
  }

  /** Adds to exclude the members of ofTerm other than term that the list contains. */
  method MarkAncestors(term: Term, ofTerm: set<Term>, terms: seq<Term>, exclude: set<Term>)
    returns (marked: set<Term>)
    ensures marked == exclude + set a | a in ofTerm && a != term && a in terms
  {
    marked := exclude;
    var todo := ofTerm;
    while todo != {}
      invariant todo <= ofTerm
      invariant marked == exclude + set a | a in ofTerm - todo && a != term && a in terms
      decreases |todo|
    {
      var a :| a in todo;
      if a != term && a !in marked && a in terms {
        marked := marked + {a};
      }
      todo := todo - {a};
    }
  }

  // ---------------------------------------------------------------------------

  class SemanticDistance {
    /** The ancestor set of every term, each containing the term itself. */
    const ancestors: map<Term, set<Term>>
    /** The probability of every term with a non-zero usage below it. */
    const ic: map<Term, real>
    const lin: Lin

    constructor (ancestors: map<Term, set<Term>>, ic: map<Term, real>, lin: Lin)
      ensures this.ancestors == ancestors && this.ic == ic && this.lin == lin
    {
      this.ancestors := ancestors;
      this.ic := ic;
      this.lin := lin;
    }

    /** Rejects a non-positive probability, naming one such term. */
    static method CheckIc(ic: map<Term, real>) returns (err: Option<QueryError>)
      ensures err.None? <==> forall t :: t in ic ==> ic[t] > 0.0
      ensures err.Some? ==> exists t :: t in ic && err.value == NonPositiveIc(t, ic[t]) && ic[t] <= 0.0
    {
      var todo := ic.Keys;
      while todo != {}
        invariant todo <= ic.Keys
        invariant forall t :: t in ic && t !in todo ==> ic[t] > 0.0
        decreases |todo|
      {
        var t :| t in todo;
        if ic[t] <= 0.0 {
          return Some(NonPositiveIc(t, ic[t]));
        }
        todo := todo - {t};
      }
      return None;
    }

    /** Declares every term as one of its own ancestors. */
    static method AddSelf(anc: map<Term, set<Term>>) returns (r: map<Term, set<Term>>)
      ensures r.Keys == anc.Keys
      ensures forall t :: t in r ==> t in r[t] && r[t] - {t} == anc[t] - {t}
    {
      r := anc;
      var todo := anc.Keys;
      while todo != {}
        invariant todo <= anc.Keys && r.Keys == anc.Keys
        invariant forall t :: t in r && t !in todo ==> r[t] == anc[t] + {t}
        invariant forall t :: t in todo ==> r[t] == anc[t]
        decreases |todo|
      {
        var t :| t in todo;
        if t !in r[t] {
          r := r[t := r[t] + {t}];
        }
        todo := todo - {t};
      }
    }

    /** Validates the probabilities and closes the ancestor sets under reflexivity. */
    static method Create(ancestors: map<Term, set<Term>>, ic: map<Term, real>, lin: Lin)
      returns (r: Result<SemanticDistance, QueryError>)
      ensures r.Success? <==> forall t :: t in ic ==> ic[t] > 0.0
      ensures r.Failure? ==> exists t :: t in ic && r.error == NonPositiveIc(t, ic[t]) && ic[t] <= 0.0
      ensures r.Success? ==>
        fresh(r.value) && r.value.ancestors == WithSelf(ancestors) && r.value.ic == ic && r.value.lin == lin
    {
      var err := CheckIc(ic);
      if err.Some? {
        return Failure(err.value);
      }
      var closed := AddSelf(ancestors);
      assert closed == WithSelf(ancestors) by {
        forall t | t in closed ensures closed[t] == ancestors[t] + {t} {
          assert closed[t] == (closed[t] - {t}) + {t};
        }
      }
      var e := new SemanticDistance(closed, ic, lin);
      return Success(e);
    }

    /** The outcome of a distance query between a and b, as the source decides it. */
    ghost function Verdict(matrix: Option<Matrix>, a: Term, b: Term): Outcome
    {
      if a == b then Exactly(Success(0.0))
      else if matrix.Some? then
        if a !in matrix.value then Exactly(Failure(NotInMatrix(a)))
        else if b !in matrix.value[a] then Exactly(Failure(NoMatrixDistance(a, b)))
        else Exactly(Success(matrix.value[a][b]))
      else if a !in ic then Exactly(Failure(NoInformationContent(a)))
      else if b !in ic then Exactly(Failure(NoInformationContent(b)))
      else if a !in ancestors then Exactly(Failure(NoAncestors(a)))
      else if b !in ancestors then Exactly(Failure(NoAncestors(b)))
      else
        var common := ancestors[a] * ancestors[b];
        if common == {} then Exactly(Failure(NoCommonAncestors(a, b)))
        else if !(common <= ic.Keys) then MissingIc(common - ic.Keys)
        else
          var pms := LeastOf(ic, common);
          if pms < ic[a] || pms < ic[b] then Exactly(Failure(BrokenMonotony))
          else if ic[a] * ic[b] == 1.0 then Exactly(Failure(ZeroDenominator))
          else Exactly(Success(lin(ic[a], ic[b], pms)))
    }

    ghost function PairValue(matrix: Option<Matrix>, p: (Term, Term)): Option<real>
    {
      ValueOf(Verdict(matrix, p.0, p.1))
    }

    /** The query on p may fail with e. */
    ghost predicate FailsWith(matrix: Option<Matrix>, p: (Term, Term), e: QueryError)
    {
      Allows(Verdict(matrix, p.0, p.1), Failure(e))
    }

    /** The distances of the pairs of s that produce one. */
    ghost function SuccessMap(matrix: Option<Matrix>, s: set<(Term, Term)>): map<(Term, Term), real>
    {
      map p | p in s && PairValue(matrix, p).Some? :: PairValue(matrix, p).value
    }

    lemma SuccessMapAdd(matrix: Option<Matrix>, done: set<(Term, Term)>, p: (Term, Term))
      requires p !in done
      ensures SuccessMap(matrix, done + {p}) ==
        if PairValue(matrix, p).Some? then SuccessMap(matrix, done)[p := PairValue(matrix, p).value]
        else SuccessMap(matrix, done)
    {
    }

    /** What each pair of the list produces. */
    ghost function Outcomes(matrix: Option<Matrix>, ps: seq<(Term, Term)>): seq<Option<real>>
    {
      seq(|ps|, k requires 0 <= k < |ps| => PairValue(matrix, ps[k]))
    }

    /** Outcomes are computed pair by pair: a prefix of the list gives a prefix of the outcomes. */
    lemma OutcomesPrefix(matrix: Option<Matrix>, ps: seq<(Term, Term)>, n: nat)
      requires n <= |ps|
      ensures Outcomes(matrix, ps)[..n] == Outcomes(matrix, ps[..n])
    {
    }

    lemma OutcomesAppend(matrix: Option<Matrix>, ps: seq<(Term, Term)>, p: (Term, Term))
      ensures Outcomes(matrix, ps + [p]) == Outcomes(matrix, ps) + [PairValue(matrix, p)]
    {
    }

    /** The next pair of the dispersion loops, and what is known about the pairs visited so far. */
    lemma VisitNext(matrix: Option<Matrix>, list: seq<Term>, i: nat, j: nat, visited: seq<(Term, Term)>)
      requires i < j < |list| && visited == Rows(list, i) + Row(list, i)[..j - i - 1]
      ensures var p := (list[i], list[j]);
        && visited + [p] == Rows(list, i) + Row(list, i)[..j - i]
        && visited + [p] <= AllPairs(list)
        && AllPairs(list)[|visited|] == p
        && Outcomes(matrix, visited + [p]) == Outcomes(matrix, visited) + [PairValue(matrix, p)]
        && Outcomes(matrix, AllPairs(list))[..|visited| + 1] == Outcomes(matrix, visited + [p])
    {
      var p := (list[i], list[j]);
      VisitPrefix(list, i, j, visited);
      OutcomesAppend(matrix, visited, p);
      OutcomesPrefix(matrix, AllPairs(list), |visited| + 1);
    }

    /** The semantic distance between two terms. */
    method DistanceBetween(a: Term, b: Term, matrix: Option<Matrix>) returns (r: Result<real, QueryError>)
      ensures Allows(Verdict(matrix, a, b), r)
    {
      if a == b {
        return Success(0.0);
      }
      if matrix.Some? {
        if a !in matrix.value {
          return Failure(NotInMatrix(a));
        }
        if b !in matrix.value[a] {
          return Failure(NoMatrixDistance(a, b));
        }
        return Success(matrix.value[a][b]);
      }
      if a !in ic {
        return Failure(NoInformationContent(a));
      }
      if b !in ic {
        return Failure(NoInformationContent(b));
      }
      var pA, pB := ic[a], ic[b];
      if a !in ancestors {
        return Failure(NoAncestors(a));
      }
      if b !in ancestors {
        return Failure(NoAncestors(b));
      }
      var common := CommonAncestors(ancestors[a], ancestors[b]);
      if common == {} {
        return Failure(NoCommonAncestors(a, b));
      }
      var ms := MinimumSubsumer(ic, common);
      if ms.Failure? {
        return Failure(NoInformationContent(ms.error));
      }
      var pms := ms.value;
      if pms < pA || pms < pB {
        return Failure(BrokenMonotony);
      }
      // for positive probabilities, log pA + log pB == 0 exactly when pA * pB == 1
      if pA * pB == 1.0 {
        return Failure(ZeroDenominator);
      }
      return Success(lin(pA, pB, pms));
    }

    /**
     * Two known terms whose shared ancestors all have probabilities, none below theirs, reach
     * the formula, which divides by zero exactly when p(A) * p(B) is 1.
     */
    lemma ReachesLin(a: Term, b: Term)
      requires a != b && a in ic && b in ic && a in ancestors && b in ancestors
      requires var common := ancestors[a] * ancestors[b];
        && common != {} && common <= ic.Keys
        && ic[a] <= LeastOf(ic, common) && ic[b] <= LeastOf(ic, common)
      ensures ic[a] * ic[b] == 1.0 ==> Verdict(None, a, b) == Exactly(Failure(ZeroDenominator))
      ensures ic[a] * ic[b] != 1.0 ==>
        Verdict(None, a, b) == Exactly(Success(lin(ic[a], ic[b], LeastOf(ic, ancestors[a] * ancestors[b]))))
    {
    }

    /** The same, for probabilities in (0, 1]: the formula divides by zero exactly when both are 1. */
    lemma ReachesLinWithin(a: Term, b: Term)
      requires a != b && a in ic && b in ic && a in ancestors && b in ancestors
      requires var common := ancestors[a] * ancestors[b];
        && common != {} && common <= ic.Keys
        && ic[a] <= LeastOf(ic, common) && ic[b] <= LeastOf(ic, common)
      requires 0.0 < ic[a] <= 1.0 && 0.0 < ic[b] <= 1.0
      ensures ic[a] == 1.0 && ic[b] == 1.0 ==> Verdict(None, a, b) == Exactly(Failure(ZeroDenominator))
      ensures ic[a] != 1.0 || ic[b] != 1.0 ==>
        Verdict(None, a, b) == Exactly(Success(lin(ic[a], ic[b], LeastOf(ic, ancestors[a] * ancestors[b]))))
    {
      UnitProduct(ic[a], ic[b]);
      ReachesLin(a, b);
    }

    /** One comparison of the set loops, stated through the pair's value. */
    method Compare(a: Term, b: Term, matrix: Option<Matrix>) returns (d: Result<real, QueryError>)
      ensures PairValue(matrix, (a, b)) == (if d.Success? then Some(d.value) else None)
      ensures d.Failure? ==> FailsWith(matrix, (a, b), d.error)
    {
      d := DistanceBetween(a, b, matrix);
      AllowedValue(Verdict(matrix, a, b), d);
    }

    /** Accounting for one more compared pair keeps the minima tracked. */
    lemma RowStep(matrix: Option<Matrix>, done: set<(Term, Term)>, best: map<(Term, Side), real>,
                  a: Term, b: Term, d: Result<real, QueryError>)
      requires Tracks(best, SuccessMap(matrix, done)) && (a, b) !in done
      requires PairValue(matrix, (a, b)) == (if d.Success? then Some(d.value) else None)
      ensures d.Failure? ==> Tracks(best, SuccessMap(matrix, done + {(a, b)}))
      ensures d.Success? ==>
        Tracks(Record(Record(best, (a, First), d.value), (b, Second), d.value), SuccessMap(matrix, done + {(a, b)}))
    {
      SuccessMapAdd(matrix, done, (a, b));
      if d.Success? {
        TracksRecord(best, SuccessMap(matrix, done), a, b, d.value);
      }
    }

    /** The query on p fails, possibly with e. */
    ghost predicate FailsOn(matrix: Option<Matrix>, p: (Term, Term), e: QueryError)
    {
      PairValue(matrix, p).None? && FailsWith(matrix, p, e)
    }

    /** Compares a with b: unless forced, a failure stops the loops; a distance is recorded under both keys. */
    method Visit(a: Term, b: Term, force: bool, matrix: Option<Matrix>,
                 best0: map<(Term, Side), real>, ghost done: set<(Term, Term)>)
      returns (err: Option<QueryError>, best: map<(Term, Side), real>)
      requires Tracks(best0, SuccessMap(matrix, done)) && (a, b) !in done
      ensures err.Some? ==> !force && FailsOn(matrix, (a, b), err.value)
      ensures err.None? ==> Tracks(best, SuccessMap(matrix, done + {(a, b)}))
      ensures err.None? && !force ==> PairValue(matrix, (a, b)).Some?
    {
      best := best0;
      var d := Compare(a, b, matrix);
      RowStep(matrix, done, best, a, b, d);
      if d.Failure? {
        if !force {
          return Some(d.error), best;
        }
      } else {
        best := Record(Record(best, (a, First), d.value), (b, Second), d.value);
      }
      err := None;
    }

    /** Compares a with every term of ys, recording each distance produced under both keys. */
    method CompareRow(a: Term, ys: set<Term>, force: bool, matrix: Option<Matrix>,
                      best0: map<(Term, Side), real>, ghost done0: set<(Term, Term)>)
      returns (err: Option<QueryError>, best: map<(Term, Side), real>, ghost culprit: Term)
      requires Tracks(best0, SuccessMap(matrix, done0))
      requires forall b :: b in ys ==> (a, b) !in done0
      ensures err.Some? ==> !force && culprit in ys && FailsOn(matrix, (a, culprit), err.value)
      ensures err.None? ==> Tracks(best, SuccessMap(matrix, done0 + RowPairs(a, ys)))
      ensures err.None? && !force ==> forall b :: b in ys ==> PairValue(matrix, (a, b)).Some?
    {
      best := best0;
      ghost var done := done0;
      var todo := ys;
      while todo != {}
        invariant todo <= ys
        invariant done == done0 + RowPairs(a, ys - todo)
        invariant forall b :: b in todo ==> (a, b) !in done
        invariant Tracks(best, SuccessMap(matrix, done))
        invariant !force ==> forall b :: b in ys - todo ==> PairValue(matrix, (a, b)).Some?
        decreases |todo|
      {
        var b :| b in todo;
        err, best := Visit(a, b, force, matrix, best, done);
        if err.Some? {
          return err, best, b;
        }
        RowPairsStep(a, ys, todo, b);
        done := done + {(a, b)};
        todo := todo - {b};
      }
      assert ys - {} == ys;
      return None, best, a;
    }

    /** Compares every pair of the two sets, tracking the smallest distance under every key. */
    method CompareAll(xs: set<Term>, ys: set<Term>, force: bool, matrix: Option<Matrix>)
      returns (err: Option<QueryError>, best: map<(Term, Side), real>)
      ensures err.Some? <==> !force && exists p :: p in Pairs(xs, ys) && PairValue(matrix, p).None?
      ensures err.Some? ==> exists p :: p in Pairs(xs, ys) && FailsWith(matrix, p, err.value)
      ensures err.None? ==> Tracks(best, SuccessMap(matrix, Pairs(xs, ys)))
    {
      best := map[];
      ghost var done: set<(Term, Term)> := {};
      var todo := xs;
      while todo != {}
        invariant todo <= xs
        invariant done == Pairs(xs - todo, ys)
        invariant Tracks(best, SuccessMap(matrix, done))
        invariant !force ==> forall p :: p in done ==> PairValue(matrix, p).Some?
        decreases |todo|
      {
        var a :| a in todo;
        forall b | b in ys ensures (a, b) !in done {
          PairsMember(xs - todo, ys, (a, b));
        }
        ghost var b;
        err, best, b := CompareRow(a, ys, force, matrix, best, done);
        if err.Some? {
          PairsMember(xs, ys, (a, b));
          return;
        }
        PairsGrow(xs - todo, ys, a);
        assert xs - (todo - {a}) == (xs - todo) + {a};
        done := done + RowPairs(a, ys);
        todo := todo - {a};
      }
      assert xs - {} == xs;
      err := None;
    }

    /**
     * The mean, over every term of both sets, of its smallest distance to the other set.
     * Unless forced, the first failing pair aborts the query; forced, failing pairs are
     * skipped and nothing is returned when no pair succeeds.
     */
    method DistanceBetweenSets(termsA: seq<Term>, termsB: seq<Term>, force: bool, matrix: Option<Matrix>)
      returns (r: Result<Option<real>, QueryError>)
      ensures termsA == [] ==> r == Failure(EmptyFirstSet)
      ensures termsA != [] && termsB == [] ==> r == Failure(EmptySecondSet)
      ensures termsA != [] && termsB != [] ==>
        var pairs := Pairs(Elements(termsA), Elements(termsB));
        && (r.Failure? <==> !force && exists p :: p in pairs && PairValue(matrix, p).None?)
        && (r.Failure? ==> exists p :: p in pairs && FailsWith(matrix, p, r.error))
        && (r.Success? ==> r.value == Aggregate(SuccessMap(matrix, pairs)))
    {
      if |termsA| == 0 {
        return Failure(EmptyFirstSet);
      }
      if |termsB| == 0 {
        return Failure(EmptySecondSet);
      }
      var err, best := CompareAll(Elements(termsA), Elements(termsB), force, matrix);
      if err.Some? {
        return Failure(err.value);
      }
      AggregateOfTracked(best, SuccessMap(matrix, Pairs(Elements(termsA), Elements(termsB))));
      var mean := MeanOf(best);
      return Success(mean);
    }

    /** The most informative (least probable) ancestor shared by all known terms of the list. */
    method BestCommonAncestor(terms: seq<Term>) returns (r: Result<Option<Term>, QueryError>)
      ensures Known(ancestors, terms) == {} <==> r.Failure?
      ensures r.Failure? ==> r.error == NoKnownTerm
      ensures r.Success? ==> (r.value.None? <==> Candidates(ancestors, ic, Known(ancestors, terms)) == {})
      ensures r.Success? && r.value.Some? ==>
        && r.value.value in Candidates(ancestors, ic, Known(ancestors, terms))
        && forall y :: y in Candidates(ancestors, ic, Known(ancestors, terms)) ==> ic[r.value.value] <= ic[y]
    {
      var known := KnownTerms(ancestors, terms);
      if known == {} {
        return Failure(NoKnownTerm);
      }
      var shared := SharedAncestors(ancestors, known);
      var best := LeastProbable(ic, shared);
      return Success(best);
    }

    /** The distinct terms of the list, in some order. */
    static method Distinct(terms: seq<Term>) returns (list: seq<Term>)
      ensures Enumerates(list, Elements(terms))
    {
      list := ListOf(Elements(terms));
    }

    /** The distances appended for the visited pairs, and the latest one produced. */
    ghost predicate Progress(matrix: Option<Matrix>, force: bool, visited: seq<(Term, Term)>,
                             distances: seq<real>, last: Option<real>)
    {
      && CarryForward(Outcomes(matrix, visited)) == Some(distances)
      && last == Latest(Outcomes(matrix, visited))
      && (!force ==> forall k :: 0 <= k < |visited| ==> PairValue(matrix, visited[k]).Some?)
    }

    /** Why the dispersion loops stopped early with e. */
    ghost predicate Aborted(matrix: Option<Matrix>, list: seq<Term>, force: bool, e: QueryError)
    {
      var outs := Outcomes(matrix, AllPairs(list));
      && (!force ==>
            exists k :: 0 <= k < |outs| && outs[k].None? && (forall j :: 0 <= j < k ==> outs[j].Some?)
              && FailsWith(matrix, AllPairs(list)[k], e))
      && (force ==> e == UnboundDistance && CarryForward(outs).None?)
    }

    /** One pair of the dispersion loops: list[i] against list[j]. */
    method DisperseVisit(list: seq<Term>, i: nat, j: nat, force: bool, matrix: Option<Matrix>,
                         ghost visited: seq<(Term, Term)>, distances0: seq<real>, last0: Option<real>)
      returns (err: Option<QueryError>, distances: seq<real>, last: Option<real>)
      requires i < j < |list| && visited == Rows(list, i) + Row(list, i)[..j - i - 1]
      requires Progress(matrix, force, visited, distances0, last0)
      ensures visited + [(list[i], list[j])] == Rows(list, i) + Row(list, i)[..j - i]
      ensures err.None? ==> Progress(matrix, force, visited + [(list[i], list[j])], distances, last)
      ensures err.Some? ==> Aborted(matrix, list, force, err.value)
    {
      distances, last := distances0, last0;
      var p := (list[i], list[j]);
      var d := Compare(list[i], list[j], matrix);
      VisitNext(matrix, list, i, j, visited);
      CarryStep(Outcomes(matrix, visited), PairValue(matrix, p));
      if d.Failure? {
        if !force {
          return Some(d.error), distances, last;
        }
        if last.None? {
          CarryForwardStuck(Outcomes(matrix, AllPairs(list)), |visited| + 1);
          return Some(UnboundDistance), distances, last;
        }
        distances := distances + [last.value];
      } else {
        last := Some(d.value);
        distances := distances + [d.value];
      }
      err := None;
    }

    /** Row i of the dispersion loops: list[i] against every later term. */
    method DisperseRow(list: seq<Term>, i: nat, force: bool, matrix: Option<Matrix>,
                       distances0: seq<real>, last0: Option<real>)
      returns (err: Option<QueryError>, distances: seq<real>, last: Option<real>)
      requires i < |list| && Progress(matrix, force, Rows(list, i), distances0, last0)
      ensures err.None? ==> Progress(matrix, force, Rows(list, i + 1), distances, last)
      ensures err.Some? ==> Aborted(matrix, list, force, err.value)
    {
      distances, last := distances0, last0;
      ghost var visited := Rows(list, i);
      for j := i + 1 to |list|
        invariant visited == Rows(list, i) + Row(list, i)[..j - i - 1]
        invariant Progress(matrix, force, visited, distances, last)
      {
        err, distances, last := DisperseVisit(list, i, j, force, matrix, visited, distances, last);
        if err.Some? {
          return;
        }
        visited := visited + [(list[i], list[j])];
      }
      assert Row(list, i)[..|list| - i - 1] == Row(list, i);
      return None, distances, last;
    }

    /** The dispersion loops over the pairs of a list of at least two terms. */
    method DisperseList(list: seq<Term>, force: bool, matrix: Option<Matrix>) returns (r: Result<Option<real>, QueryError>)
      requires |list| >= 2
      ensures var outs := Outcomes(matrix, AllPairs(list));
        && (force || (forall k :: 0 <= k < |outs| ==> outs[k].Some?) ==> r == Dispersed(CarryForward(outs)))
        && (!force && (exists k :: 0 <= k < |outs| && outs[k].None?) ==>
              exists k :: 0 <= k < |outs| && outs[k].None? && (forall j :: 0 <= j < k ==> outs[j].Some?)
                && r.Failure? && FailsWith(matrix, AllPairs(list)[k], r.error))
    {
      var distances: seq<real> := [];
      var last: Option<real> := None;
      for i := 0 to |list|
        invariant Progress(matrix, force, Rows(list, i), distances, last)
      {
        var err;
        err, distances, last := DisperseRow(list, i, force, matrix, distances, last);
        if err.Some? {
          return Failure(err.value);
        }
      }
      var n := |distances|;
      if n == 0 {
        return Success(None);
      }
      return Success(Some(Sum(distances) / n as real));
    }

    /**
     * The mean distance over every pair of distinct listed terms. Unless forced, the first
     * failing pair aborts the query; forced, a failing pair counts the latest distance
     * produced before it, and fails when none was.
     */
    method Dispersion(terms: seq<Term>, force: bool, matrix: Option<Matrix>)
      returns (r: Result<Option<real>, QueryError>, ghost order: seq<Term>)
      ensures Enumerates(order, Elements(terms))
      ensures |order| < 2 ==> r == Failure(TooFewTerms)
      ensures |order| >= 2 ==>
        var outs := Outcomes(matrix, AllPairs(order));
        && (force || (forall k :: 0 <= k < |outs| ==> outs[k].Some?) ==> r == Dispersed(CarryForward(outs)))
        && (!force && (exists k :: 0 <= k < |outs| && outs[k].None?) ==>
              exists k :: 0 <= k < |outs| && outs[k].None? && (forall j :: 0 <= j < k ==> outs[j].Some?)
                && r.Failure? && FailsWith(matrix, AllPairs(order)[k], r.error))
      ensures r.Success? ==> r.value.Some?
    {
      var list := Distinct(terms);
      order := list;
      if |list| < 2 {
        return Failure(TooFewTerms), order;
      }
      r := DisperseList(list, force, matrix);
      DispersedHasMean(list, Outcomes(matrix, AllPairs(list)));
    }

    /** The listed terms that have a probability. */
    function ExcludeNullIc(terms: seq<Term>): (r: seq<Term>)
      ensures forall x :: x in r <==> x in terms && x in ic
      ensures forall x :: x in ic ==> multiset(r)[x] == multiset(terms)[x]
      ensures |r| <= |terms|
    {
      KeepMembers(terms, ic.Keys);
      Keep(terms, ic.Keys)
    }

    /** The listed terms that are no proper ancestor of another listed term, in list order. */
    method ExcludeAncestors(terms: seq<Term>) returns (r: seq<Term>)
      ensures r == MostSpecific(ancestors, terms)
    {
      var exclude: set<Term> := {};
      for i := 0 to |terms|
        invariant exclude == DominatedBy(ancestors, terms[..i], terms)
      {
        var term := terms[i];
        var ofTerm := if term in ancestors then ancestors[term] else {};
        exclude := MarkAncestors(term, ofTerm, terms, exclude);
        assert terms[..i + 1] == terms[..i] + [term];
        DominatedByStep(ancestors, terms[..i], term, terms);
      }
      assert terms[..|terms|] == terms;
      r := Keep(terms, Elements(terms) - exclude);
    }
  }

  // ---------------------------------------------------------------------------
  // Queries over an index built from an ontology

  /** A built index already lists every term among its own ancestors. */
  lemma BuiltReflexive(parents: Parents, usage: Usage, rank: map<Term, nat>, idx: IndexBuilder.Index)
    requires IndexBuilder.ValidInput(parents, usage, rank)
    requires IndexBuilder.Build(parents, usage, rank) == Success(idx)
    ensures WithSelf(idx.ancestors) == idx.ancestors
    ensures forall t :: t in idx.ic ==> idx.ic[t] > 0.0
  {
    var root := IndexBuilder.BuiltShape(parents, usage, rank, idx);
    IndexBuilder.BuiltProbabilityBounds(parents, usage, rank, idx);
    forall t | t in idx.ancestors ensures idx.ancestors[t] + {t} == idx.ancestors[t] {
      assert t in Closure(parents, rank, t);
    }
  }

  /**
   * On a built index, two indexed terms share the root, every shared ancestor has a
   * probability, and none is less probable than either term.
   */
  lemma BuiltCommonAncestors(parents: Parents, usage: Usage, rank: map<Term, nat>,
                             idx: IndexBuilder.Index, a: Term, b: Term)
    requires IndexBuilder.ValidInput(parents, usage, rank)
    requires IndexBuilder.Build(parents, usage, rank) == Success(idx)
    requires a in idx.ic && b in idx.ic && a in idx.ancestors && b in idx.ancestors
    ensures var common := idx.ancestors[a] * idx.ancestors[b];
      && common != {} && common <= idx.ic.Keys
      && idx.ic[a] <= LeastOf(idx.ic, common) && idx.ic[b] <= LeastOf(idx.ic, common)
  {
    var root := IndexBuilder.BuiltRoot(parents, usage, rank, idx);
    var common := idx.ancestors[a] * idx.ancestors[b];
    assert root in common;
    forall x | x in common ensures x in idx.ic && idx.ic[a] <= idx.ic[x] && idx.ic[b] <= idx.ic[x] {
      IndexBuilder.BuiltMonotone(parents, usage, rank, idx, a, x);
      IndexBuilder.BuiltMonotone(parents, usage, rank, idx, b, x);
    }
    var m := LeastOfIsMinimum(idx.ic, common);
  }

  /**
   * On a built index, a query between two distinct indexed terms always reaches the Lin
   * formula: no missing shared ancestor, no missing probability, no broken monotony. The
   * formula divides by zero exactly when both terms have probability 1.
   */
  lemma BuiltIndexDistance(e: SemanticDistance, parents: Parents, usage: Usage, rank: map<Term, nat>,
                           idx: IndexBuilder.Index, a: Term, b: Term)
    requires IndexBuilder.ValidInput(parents, usage, rank)
    requires IndexBuilder.Build(parents, usage, rank) == Success(idx)
    requires e.ancestors == idx.ancestors && e.ic == idx.ic
    requires a != b && a in idx.ic && b in idx.ic && a in idx.ancestors && b in idx.ancestors
    ensures idx.ancestors[a] * idx.ancestors[b] <= idx.ic.Keys
    ensures idx.ic[a] == 1.0 && idx.ic[b] == 1.0 ==> e.Verdict(None, a, b) == Exactly(Failure(ZeroDenominator))
    ensures idx.ic[a] != 1.0 || idx.ic[b] != 1.0 ==>
      e.Verdict(None, a, b) == Exactly(Success(e.lin(idx.ic[a], idx.ic[b], LeastOf(idx.ic, idx.ancestors[a] * idx.ancestors[b]))))
  {
    BuiltCommonAncestors(parents, usage, rank, idx, a, b);
    assert 0.0 < idx.ic[a] <= 1.0 && 0.0 < idx.ic[b] <= 1.0 by {
      IndexBuilder.BuiltProbabilityBounds(parents, usage, rank, idx);
    }
    e.ReachesLinWithin(a, b);
  }

  /** Two probabilities in (0, 1] multiply to 1 exactly when both are 1. */
  lemma UnitProduct(x: real, y: real)
    requires 0.0 < x <= 1.0 && 0.0 < y <= 1.0
    ensures x * y == 1.0 <==> x == 1.0 && y == 1.0
  {
    if x < 1.0 {
      assert x * y <= x * 1.0;
    } else if y < 1.0 {
      assert x * y <= 1.0 * y;
    }
  }

  /** On a built index, every non-empty selection of indexed terms has a best common ancestor. */
  lemma BuiltIndexHasBestAncestor(e: SemanticDistance, parents: Parents, usage: Usage, rank: map<Term, nat>,
                                  idx: IndexBuilder.Index, known: set<Term>)
    requires IndexBuilder.ValidInput(parents, usage, rank)
    requires IndexBuilder.Build(parents, usage, rank) == Success(idx)
    requires e.ancestors == idx.ancestors && e.ic == idx.ic
    requires known != {} && known <= idx.ancestors.Keys
    ensures Candidates(idx.ancestors, idx.ic, known) != {}
  {
    var root := IndexBuilder.BuiltRoot(parents, usage, rank, idx);
    var k :| k in known;
    assert root in SharedBy(idx.ancestors, known);
    assert root in Candidates(idx.ancestors, idx.ic, known);
  }
}
