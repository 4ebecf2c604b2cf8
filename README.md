# Semantic distance between ontology terms

This project models the semantic-distance package of xbio.SemanticDistance in Dafny and
proves properties of the model. The package works in two phases:

1. **Building an index.** An ontology is given by the direct parents of every term except
   the root, plus a usage count per term. The builder computes each term's ancestor set
   (the term included). It finds the single root and adds every used term's count to all
   of its proper ancestors. Each term's probability ("information content") is its
   accumulated count divided by the root's.
2. **Querying.** An engine holds the ancestor sets and the probabilities. It answers:
   - the Lin distance between two terms, computed from p(A), p(B) and the probability
     p(MS) of their least probable common ancestor;
   - the distance between two sets of terms: the mean, over every term of either set, of
     its smallest distance to the other set;
   - the dispersion of a cluster: the mean distance over its pairs;
   - the most informative common ancestor of a list of terms;
   - two list filters: keep the terms with a probability, and drop every term that is an
     ancestor of another listed term.

The repository holds two generations of this code, and both are modelled:

- `lib/xbio/SemanticDistance/sd.py`: the function `process` (module `IndexBuilder`) and
  the class `semantic_distance` (module `DistanceEngine`). Failures here raise exceptions,
  modelled as a `QueryError` or `BuildError` value.
- `SemanticDistance/sd.py`: the class `SemanticDistance` (module `LegacyDistance`). It
  reports most failures as negative sentinel values: -1 for no information content, -2
  for no shared parent, -3 for no data and -4 for a singleton cluster. Unguarded
  lookups and assertions still raise; these are modelled as `Crash` values.
- `SemanticDistance/sd_constructor.py`: the class `SemanticDistanceConstructor` (module
  `LegacyConstructor`). It fills its ancestor and information-content tables in place,
  over repeated calls.

The module `Ontology` holds the shared vocabulary. The central definition is the
ancestor closure, specified by recursion on a rank that witnesses acyclicity.

The module `ExampleOntology` works through the six-term ontology used by
`doc/example.py` and `SemanticDistance/example.py`. It proves that:

- `process` yields ancestors B {A,B}, C {A,B,C,E}, D {A,B,C,D,E}, E {A,E} and
  F {A,B,C,E,F};
- the probabilities are A 1, B 14/19, C 9/19, D 5/19, E 11/19 and F 2/19;
- each documented query returns the announced answer: the best common ancestor of B, C, D
  is B, that of C, D, F is C, and `exclude_ancestors` of A..F is [D, F];
- each documented distance is the Lin formula applied to the probabilities shown.

One consequence of the code shows up in the example. `process` records ancestors only
for the terms that have parents, so the root has no ancestor entry. A distance query
naming the root therefore fails with `NoAncestors` (`ExampleOntology.ExampleVerdicts`).

Dictionary iteration order is not fixed by the model:

- Loops pick the next key with `:|`.
- Where the source's answer depends on that order (which failing pair or missing key is
  reported first, and which of two equally probable ancestors wins), the contracts state
  the set of answers the source can give.
- Lists produced from dictionaries (`dict.fromkeys(...).keys()`, `unique`) are returned
  as a ghost enumeration of the distinct terms.

## Model

| member | source | states |
|---|---|---|
| Ontology.Closure | lib/xbio/SemanticDistance/sd.py:33-45 | the ancestor set that `back_propagation` collects for a term always contains the term itself |
| Ontology.ClosureMembers | lib/xbio/SemanticDistance/sd.py:33-45 | for a term with parents, a is an ancestor exactly when a is the term or an ancestor of one of its direct parents |
| Ontology.ClosureOfParent | lib/xbio/SemanticDistance/sd.py:41-43 | a direct parent is an ancestor, and all of its ancestors are ancestors of the child |
| Ontology.ClosureDescends | lib/xbio/SemanticDistance/sd.py:33-45 | a proper ancestor exists only for a term with parents, and it sits strictly higher in the acyclicity rank |
| Ontology.ClosureAntisymmetric | lib/xbio/SemanticDistance/sd.py:33-45 | two terms that are each other's ancestors are the same term |
| Ontology.ClosureTransitive | lib/xbio/SemanticDistance/sd.py:33-45 | an ancestor's ancestors are ancestors (the closure is transitive) |
| Ontology.ClosureReachesRoot | lib/xbio/SemanticDistance/sd.py:37-39 | when every declared term has a parent, every ancestor set contains a term without parents |
| IndexBuilder.CheckUsage | lib/xbio/SemanticDistance/sd.py:16-19 | the check passes exactly when no count is negative; otherwise it names a term with a negative count |
| IndexBuilder.CheckParents | lib/xbio/SemanticDistance/sd.py:21-27 | the check passes exactly when no term is its own parent or has an empty parent list; otherwise it names such a term with the matching error |
| IndexBuilder.ClosureOfAllMembers | lib/xbio/SemanticDistance/sd.py:41-43 | the union built over a parent list holds exactly the ancestors of some listed parent |
| IndexBuilder.ClosureUnfold | lib/xbio/SemanticDistance/sd.py:33-45 | a term's closure is itself plus the closures of its parents |
| IndexBuilder.BackPropagation | lib/xbio/SemanticDistance/sd.py:33-45 | the recursive walk returns the accumulator extended with exactly the term's ancestor closure |
| IndexBuilder.FindAncestors | lib/xbio/SemanticDistance/sd.py:47-49 | the table built has one entry per term with parents, holding that term's closure |
| IndexBuilder.ListTerms | lib/xbio/SemanticDistance/sd.py:55-62 | the terms listed are exactly the keys of the table and all their ancestors |
| IndexBuilder.FindRoots | lib/xbio/SemanticDistance/sd.py:64-68 | the roots found are exactly the listed terms without parents |
| IndexBuilder.AncestorsClosed | lib/xbio/SemanticDistance/sd.py:47-49 | every entry of the table contains its term, its direct parents, and the entries of those parents |
| IndexBuilder.TermsClosed | lib/xbio/SemanticDistance/sd.py:55-62 | the ancestors of a listed term are listed terms |
| IndexBuilder.RootIsShared | lib/xbio/SemanticDistance/sd.py:64-76 | with a single root, that root is an ancestor of every listed term |
| IndexBuilder.NoRootIffEmpty | lib/xbio/SemanticDistance/sd.py:70-74 | on valid input, "no root" is reported exactly when the parent dictionary is empty |
| IndexBuilder.UsedHasParents | lib/xbio/SemanticDistance/sd.py:80 | every term kept for propagation has parents and an entry in the table |
| IndexBuilder.UncoveredOwnUsage | lib/xbio/SemanticDistance/sd.py:83-95 | a term no used term lies below keeps its own count |
| IndexBuilder.AccumulatedStep | lib/xbio/SemanticDistance/sd.py:84-95 | propagating one more used term adds its count to each proper ancestor and nothing elsewhere |
| IndexBuilder.RootAccumulatesAll | lib/xbio/SemanticDistance/sd.py:83-98 | the root's accumulated count is its own count plus the counts of all used terms |
| IndexBuilder.RootCoveredIffUsed | lib/xbio/SemanticDistance/sd.py:80-98 | the root receives a count (so the lookup at line 98 succeeds) exactly when some term is used |
| IndexBuilder.AccumulatedBounds | lib/xbio/SemanticDistance/sd.py:98-108 | every term that receives a count has an accumulated count in (0, root's count] |
| IndexBuilder.AccumulatedMonotone | lib/xbio/SemanticDistance/sd.py:78-95 | an ancestor accumulates at least as much as its descendant |
| IndexBuilder.ContributorsGrow | lib/xbio/SemanticDistance/sd.py:84-95 | the used terms below a term are also below each of its ancestors, and a used term counts toward its proper ancestors but not itself |
| IndexBuilder.CoveredClosed | lib/xbio/SemanticDistance/sd.py:84-95 | if a term receives a count, so does each of its ancestors |
| IndexBuilder.PropagateTerm | lib/xbio/SemanticDistance/sd.py:84-95 | one pass of the inner loop turns the accumulation for the terms done so far into the accumulation with one more term |
| IndexBuilder.PropagateUsage | lib/xbio/SemanticDistance/sd.py:82-95 | the count table has exactly the covered terms as keys, and each holds its accumulated count |
| IndexBuilder.ConvertTerm | lib/xbio/SemanticDistance/sd.py:100-105 | the probability table gains the ancestors of one term, each as its count over the root's count |
| IndexBuilder.ToProbabilities | lib/xbio/SemanticDistance/sd.py:97-105 | every term with a count gets exactly count / root count |
| IndexBuilder.FromRoot | lib/xbio/SemanticDistance/sd.py:76-110 | after a single root is found, the remaining steps compute the result of `Build` |
| IndexBuilder.BuildWithRoot | lib/xbio/SemanticDistance/sd.py:76-108 | with a single root: no used term means the root lookup fails; otherwise the index is the closures with count/root-count probabilities, and all counts lie in (0, root's count] |
| IndexBuilder.BuildValidated | lib/xbio/SemanticDistance/sd.py:29-110 | on validated input the builder's loops compute `Build` |
| IndexBuilder.Process | lib/xbio/SemanticDistance/sd.py:14-110 | a negative count fails with NegativeUsage (naming one) exactly when there is one; a self-parent or empty parent list fails exactly when the counts are fine and there is one; otherwise the result is `Build` |
| IndexBuilder.BuiltShape | lib/xbio/SemanticDistance/sd.py:64-110 | a successful build has a single root, at least one used term, and an index made of the closures and count/root-count probabilities |
| IndexBuilder.BuildErrors | lib/xbio/SemanticDistance/sd.py:64-98 | on valid input the only failures are several roots, no root, or a root that receives no count |
| IndexBuilder.BuiltRoot | lib/xbio/SemanticDistance/sd.py:98-105 | the index has a root without parents whose probability is exactly 1 and which is an ancestor of every entry |
| IndexBuilder.BuiltProbabilityBounds | lib/xbio/SemanticDistance/sd.py:105-108 | every probability lies in (0, 1], so the assertion at line 108 never fails |
| IndexBuilder.BuiltMonotone | lib/xbio/SemanticDistance/sd.py:97-108 | an ancestor of a term with a probability has one too, and it is at least as large (monotony) |
| IndexBuilder.BuiltDomain | lib/xbio/SemanticDistance/sd.py:100-105 | a term has a probability exactly when it is an ancestor of a used, non-root term |
| DistanceEngine.LeastOfIsMinimum | lib/xbio/SemanticDistance/sd.py:183 | the minimum probability over a non-empty set is attained by a member and bounds every member from below |
| DistanceEngine.LeastOfUnique | lib/xbio/SemanticDistance/sd.py:183 | a member whose probability bounds all others is the minimum |
| DistanceEngine.WithSelfIdempotent | lib/xbio/SemanticDistance/sd.py:133-136 | after the constructor adds each term to its own ancestor set, every entry contains its term, and adding again changes nothing |
| DistanceEngine.CommonAncestors | lib/xbio/SemanticDistance/sd.py:173-176 | the common ancestors collected are the intersection of the two ancestor sets |
| DistanceEngine.MinimumSubsumer | lib/xbio/SemanticDistance/sd.py:181-186 | with every common ancestor in the table the result is their minimum probability; otherwise the lookup fails on one that is missing |
| DistanceEngine.SemanticDistance.CheckIc | lib/xbio/SemanticDistance/sd.py:128-131 | the check passes exactly when every probability is positive; otherwise it names a term whose probability is not |
| DistanceEngine.SemanticDistance.AddSelf | lib/xbio/SemanticDistance/sd.py:133-136 | the same keys, each set now containing its term and otherwise unchanged |
| DistanceEngine.SemanticDistance.Create | lib/xbio/SemanticDistance/sd.py:124-136 | construction succeeds exactly when every probability is positive (else NonPositiveIc for one offending term), and the engine holds the reflexive ancestor sets and the given probabilities |
| DistanceEngine.SemanticDistance.DistanceBetween | lib/xbio/SemanticDistance/sd.py:144-191 | the result is one `Verdict` allows: 0 for equal terms; the matrix lookup and its two errors; NoInformationContent, NoAncestors and NoCommonAncestors in the source's order; a missing common-ancestor probability; the monotony assertion; a division by zero (ZeroDenominator) when p(A) * p(B) = 1, i.e. log p(A) + log p(B) = 0; else the Lin formula on p(A), p(B), p(MS) |
| DistanceEngine.SemanticDistance.ReachesLin | lib/xbio/SemanticDistance/sd.py:157-191 | for two distinct known terms whose common ancestors all have probabilities no smaller than theirs, the query divides by zero exactly when p(A) * p(B) = 1, and otherwise yields the Lin formula on p(A), p(B) and the minimum |
| DistanceEngine.SemanticDistance.ReachesLinWithin | lib/xbio/SemanticDistance/sd.py:157-191 | the same for probabilities in (0, 1]: the division by zero happens exactly when both probabilities are 1 |
| DistanceEngine.BuiltReflexive | lib/xbio/SemanticDistance/sd.py:124-136 | an index from `process` is already reflexive and has only positive probabilities, so the constructor accepts it unchanged |
| DistanceEngine.BuiltCommonAncestors | lib/xbio/SemanticDistance/sd.py:173-188 | on an index from `process`, two terms with probabilities and ancestors share an ancestor, all common ancestors have probabilities, and the monotony assertion holds |
| DistanceEngine.BuiltIndexDistance | lib/xbio/SemanticDistance/sd.py:144-191 | on an index from `process`, the query between two distinct terms that have probabilities and ancestors never misses a probability or breaks monotony: it divides by zero exactly when both probabilities are 1, and otherwise is the Lin formula |
| DistanceEngine.BuiltIndexHasBestAncestor | lib/xbio/SemanticDistance/sd.py:246-277 | on an index from `process`, any non-empty set of terms with ancestors has a common ancestor with a probability |
| DistanceEngine.PairsMember | lib/xbio/SemanticDistance/sd.py:217-218 | the pairs compared are exactly one term of the first set with one of the second |
| DistanceEngine.TracksRecord | lib/xbio/SemanticDistance/sd.py:210-228 | recording one more distance under both of its terms keeps, for each term, the least distance found so far |
| DistanceEngine.TracksMinima | lib/xbio/SemanticDistance/sd.py:230-235 | the per-term table built in the loop equals each reached term's least distance |
| DistanceEngine.AggregateOfTracked | lib/xbio/SemanticDistance/sd.py:237-242 | the value returned is the mean of the per-term least distances, or None when no distance was produced |
| DistanceEngine.SumOf | lib/xbio/SemanticDistance/sd.py:238-242 | the loop sums the per-term least distances and counts them |
| DistanceEngine.MeanOf | lib/xbio/SemanticDistance/sd.py:237-242 | None when nothing was produced, otherwise the mean of the per-term least distances |
| DistanceEngine.SemanticDistance.Compare | lib/xbio/SemanticDistance/sd.py:219-225 | one pair's distance is produced exactly when the pair query succeeds, and a failure carries that query's error |
| DistanceEngine.SemanticDistance.Visit | lib/xbio/SemanticDistance/sd.py:219-228 | a failing pair stops the loops only when not forced, with that pair's error; otherwise the per-term minima are maintained |
| DistanceEngine.SemanticDistance.CompareRow | lib/xbio/SemanticDistance/sd.py:218-228 | one row of pairs stops only on an unforced failure of one of its pairs, or leaves the minima over all its successful pairs |
| DistanceEngine.SemanticDistance.CompareAll | lib/xbio/SemanticDistance/sd.py:217-228 | the loops stop exactly when not forced and some pair fails, with the error of a failing pair; otherwise the minima cover every successful pair |
| DistanceEngine.SemanticDistance.DistanceBetweenSets | lib/xbio/SemanticDistance/sd.py:198-242 | an empty first or second list fails first; unforced, any failing pair makes the query fail with a failing pair's error; else the result is the mean of per-term minima over the successful pairs, None when there is none |
| DistanceEngine.KnownTerms | lib/xbio/SemanticDistance/sd.py:247-248 | the terms kept are exactly the distinct listed terms with ancestors |
| DistanceEngine.SharedAncestors | lib/xbio/SemanticDistance/sd.py:253-265 | intersecting the ancestor sets in turn yields the ancestors every kept term shares |
| DistanceEngine.LeastProbable | lib/xbio/SemanticDistance/sd.py:267-277 | None exactly when no shared ancestor has a probability below the starting bound 2; otherwise one with the least probability |
| DistanceEngine.SemanticDistance.BestCommonAncestor | lib/xbio/SemanticDistance/sd.py:246-277 | fails exactly when no listed term has ancestors; otherwise None exactly when no shared ancestor has a usable probability, else a shared ancestor of least probability |
| DistanceEngine.Row | lib/xbio/SemanticDistance/sd.py:289-290 | row i of the dispersion loops pairs term i with each later term |
| DistanceEngine.RowsCount | lib/xbio/SemanticDistance/sd.py:289-290 | the loops visit n(n-1)/2 pairs for n distinct terms |
| DistanceEngine.CarryForwardLength | lib/xbio/SemanticDistance/sd.py:291-299 | a forced run that does not fail appends one distance per pair |
| DistanceEngine.CarryForwardComplete | lib/xbio/SemanticDistance/sd.py:291-299 | when every pair succeeds, the distances appended are the pairs' distances, in order |
| DistanceEngine.CarryForwardStuck | lib/xbio/SemanticDistance/sd.py:291-299 | once a forced run has failed before any distance existed, it cannot recover |
| DistanceEngine.CarryStep | lib/xbio/SemanticDistance/sd.py:291-299 | one more pair appends its distance, or on failure repeats the latest earlier distance, or fails when none exists |
| DistanceEngine.DispersedHasMean | lib/xbio/SemanticDistance/sd.py:301-305 | with at least two distinct terms a successful dispersion always has a mean (the None branch is unreachable) |
| DistanceEngine.SemanticDistance.Distinct | lib/xbio/SemanticDistance/sd.py:284 | the list lists each distinct term once |
| Ontology.ListOf | lib/xbio/SemanticDistance/sd.py:284 | enumerates a set, each member once |
| DistanceEngine.SemanticDistance.DisperseVisit | lib/xbio/SemanticDistance/sd.py:291-299 | one pair either stops the loops with the reason, or extends the appended distances as `CarryForward` prescribes |
| DistanceEngine.SemanticDistance.DisperseRow | lib/xbio/SemanticDistance/sd.py:290-299 | one row either stops with the reason, or leaves the appended distances for all pairs so far |
| DistanceEngine.SemanticDistance.DisperseList | lib/xbio/SemanticDistance/sd.py:288-305 | forced or with all pairs succeeding, the result is the mean of the distances as appended; unforced with a failing pair, the first failing pair in visiting order decides the error |
| DistanceEngine.SemanticDistance.Dispersion | lib/xbio/SemanticDistance/sd.py:283-305 | fewer than two distinct terms fail with TooFewTerms; otherwise as `DisperseList` over an enumeration of the distinct terms, and a success always carries a mean |
| DistanceEngine.SuccessesMembers | lib/xbio/SemanticDistance/sd.py:219-223 | keeping only the produced distances keeps each exactly as often as it was produced |
| DistanceEngine.IgnoringFailuresMeans | lib/xbio/SemanticDistance/sd.py:279-282 | a dispersion that ignores failing pairs never fails, has a mean exactly when some pair produced a distance, and agrees with the code when no pair fails |
| DistanceEngine.SuccessesComplete | lib/xbio/SemanticDistance/sd.py:291-299 | when no pair fails, the produced distances are exactly those the code appends |
| DistanceEngine.CarryMiddleFailure | lib/xbio/SemanticDistance/sd.py:291-299 | with the middle one of three pairs failing, the code appends the first distance twice, while ignoring failures keeps two |
| DistanceEngine.FailureFirst | lib/xbio/SemanticDistance/sd.py:291-299 | forced, a first pair that fails leaves `d` unbound in the code; ignoring it gives the other pair's distance |
| DistanceEngine.FailureRepeated | lib/xbio/SemanticDistance/sd.py:291-299 | forced, distances 0.2, failure, 0.5 give 0.3 in the code and 0.35 when the failure is ignored |
| DistanceEngine.SemanticDistance.ExcludeNullIc | lib/xbio/SemanticDistance/sd.py:308-309 | the result holds exactly the listed terms with a probability, each as often as listed, and no others |
| DistanceEngine.KeepMembers | lib/xbio/SemanticDistance/sd.py:319 | filtering keeps exactly the members of the kept set, each as often as listed |
| DistanceEngine.KeepAll | lib/xbio/SemanticDistance/sd.py:319 | filtering a list whose every member is kept returns the list |
| DistanceEngine.MarkAncestors | lib/xbio/SemanticDistance/sd.py:315-317 | the exclusion set grows by exactly the listed proper ancestors of the term |
| DistanceEngine.DominatedByStep | lib/xbio/SemanticDistance/sd.py:314-317 | one more outer iteration adds exactly the listed proper ancestors of that term |
| DistanceEngine.SemanticDistance.ExcludeAncestors | lib/xbio/SemanticDistance/sd.py:312-319 | the result is `MostSpecific`: the listed terms, in order, that are no proper ancestor of a listed term |
| DistanceEngine.MostSpecificMembers | lib/xbio/SemanticDistance/sd.py:311-319 | a term survives exactly when it is listed and no listed term has it as a proper ancestor |
| DistanceEngine.MostSpecificIsAntichain | lib/xbio/SemanticDistance/sd.py:311 | no surviving term is a proper ancestor of another survivor |
| DistanceEngine.MostSpecificIdempotent | lib/xbio/SemanticDistance/sd.py:311-319 | filtering twice is the same as filtering once |
| LegacyDistance.Unique | SemanticDistance/sd.py:262-267 | lists each distinct item once |
| LegacyDistance.LexTotal | SemanticDistance/sd.py:270 | the string comparison used by `order` relates any two strings one way or the other |
| LegacyDistance.LexAntisymmetric | SemanticDistance/sd.py:270 | two strings each at most the other are equal |
| LegacyDistance.Order | SemanticDistance/sd.py:269-273 | the pair returned holds the two arguments, smaller first |
| LegacyDistance.OrderSymmetric | SemanticDistance/sd.py:269-273 | ordering (a, b) and (b, a) gives the same pair |
| LegacyDistance.SemanticDistance.Create | SemanticDistance/sd.py:17-29 | construction succeeds exactly when every probability is positive; otherwise the assertion fails on an offending term; the engine holds the reflexive ancestor sets |
| LegacyDistance.SemanticDistance.GetAncestors | SemanticDistance/sd.py:33-37 | an answer exactly for terms in the table, and it contains the term |
| LegacyDistance.SemanticDistance.GetIc | SemanticDistance/sd.py:41-42 | an answer exactly for terms with a probability, and it is positive |
| LegacyDistance.SemanticDistance.DistanceBetween | SemanticDistance/sd.py:68-115 | the result is one `Answer` permits: with a matrix, 0, -3 or the entry; -1 when checking probabilities and one is missing; 0 for equal terms; the KeyErrors of unguarded lookups; -2 without a shared ancestor; the monotony assertion; ZeroDivisionError when p(A) * p(B) = 1; else the Lin formula |
| LegacyDistance.AgreesWithEngine | SemanticDistance/sd.py:68-115 | with probability checking on, the legacy answer is the newer engine's verdict with errors turned into codes or crashes, except for a term without probability compared with itself (-1 here, 0 there) |
| LegacyDistance.PermitsHalts | SemanticDistance/sd.py:142-150 | a reply stops the set and cluster loops exactly when it raises or, unforced, is a negative code, and is kept exactly when it is a non-negative number |
| LegacyDistance.Kept | SemanticDistance/sd.py:222-228 | the kept distances are non-negative, no more than the replies, and all of them when every reply is usable |
| LegacyDistance.SpreadSign | SemanticDistance/sd.py:230-235 | the cluster value is negative (-4) exactly when no distance was kept |
| LegacyDistance.AggregateSign | SemanticDistance/sd.py:152-165 | the set mean is absent exactly when no pair was kept, and is non-negative otherwise |
| LegacyDistance.SemanticDistance.SetsValueSign | SemanticDistance/sd.py:152-165 | the set distance is -3 exactly when no pair gave a usable distance, and non-negative otherwise |
| LegacyDistance.SemanticDistance.Compare | SemanticDistance/sd.py:140-150 | one pair's reply, whether it stops the loops, and whether its distance is kept |
| LegacyDistance.SemanticDistance.Visit | SemanticDistance/sd.py:138-150 | a halting reply ends the query with it; otherwise the per-term minima are maintained |
| LegacyDistance.SemanticDistance.CompareRow | SemanticDistance/sd.py:139-150 | one row ends on a halting pair, or leaves the minima over its kept pairs |
| LegacyDistance.SemanticDistance.CompareAll | SemanticDistance/sd.py:138-150 | the loops end with a halting pair's reply, or cover every pair with none halting |
| LegacyDistance.SemanticDistance.DistanceBetweenSets | SemanticDistance/sd.py:125-165 | if some pair halts, the result is the reply of a halting pair; otherwise the mean of per-term minima over kept pairs, or -3 when none was kept |
| LegacyDistance.SemanticDistance.BestCommonAncestor | SemanticDistance/sd.py:169-203 | None when no listed term has ancestors; otherwise None exactly when no shared ancestor has a usable probability, else a shared ancestor of least probability |
| LegacyDistance.SemanticDistance.DisperseStep | SemanticDistance/sd.py:222-228 | one pair either ends the loops with its reply, or appends its distance when non-negative and skips it otherwise |
| LegacyDistance.SemanticDistance.DisperseRow | SemanticDistance/sd.py:221-228 | one row ends on a halting reply or leaves the kept distances of all pairs so far |
| LegacyDistance.SemanticDistance.DisperseList | SemanticDistance/sd.py:219-235 | with no halting pair, the mean of the kept distances (-4 when none); otherwise the reply of the first halting pair |
| LegacyDistance.SemanticDistance.Dispersion | SemanticDistance/sd.py:213-235 | one distinct term gives -4; otherwise as `DisperseList` over an enumeration of the distinct terms |
| LegacyDistance.SemanticDistance.DispersionMean | SemanticDistance/sd.py:230-235 | with two or more terms and no halting pair, the dispersion is non-negative |
| LegacyDistance.SemanticDistance.ExcludeNullIc | SemanticDistance/sd.py:238-239 | the listed terms with a probability, each as often as listed, and no others |
| LegacyDistance.SemanticDistance.ExcludeAncestors | SemanticDistance/sd.py:242-249 | the listed terms, in order, that are no proper ancestor of a listed term (the same `MostSpecific` as the newer engine) |
| LegacyConstructor.SemanticDistanceConstructor.Create | SemanticDistance/sd_constructor.py:18-33 | construction succeeds exactly when counts are non-negative and no parent list is empty or names its own term, reporting the failing check otherwise; the tables start empty |
| LegacyConstructor.SemanticDistanceConstructor.FindAncestors | SemanticDistance/sd_constructor.py:39-74 | the table gains (or replaces) the closure of each requested term, all terms with parents by default; probabilities are untouched; the table is returned |
| LegacyConstructor.AddClosures | SemanticDistance/sd_constructor.py:70-72 | the table becomes the old one overridden with the closures of the listed terms |
| LegacyConstructor.ClosuresAdd | SemanticDistance/sd_constructor.py:70-72 | adding one more term's closure is a single map update |
| LegacyConstructor.SemanticDistanceConstructor.CalculateIc | SemanticDistance/sd_constructor.py:80-136 | ancestors untouched; the listed terms (all terms of the table by default) are processed as `Completes` states: a stop before any value is computed (an empty ancestor table, a second root, no root, an untraversed used term, a root without count) leaves the values unchanged; otherwise new values are added without replacing known ones, with success exactly when every new value of a declared term lies in (0, 1] |
| LegacyConstructor.Calculate | SemanticDistance/sd_constructor.py:80-136 | on a non-empty ancestor table, the same outcome as `CalculateIc`, on explicit tables |
| LegacyConstructor.Prepare | SemanticDistance/sd_constructor.py:83-118 | finds the root and used terms as `Prepared` says and, on success, the usage tally |
| LegacyConstructor.Prepared | SemanticDistance/sd_constructor.py:83-118 | a successful plan's root is listed and has no parents, and each used term is listed, traversed and has a positive count |
| LegacyConstructor.RootsIn | SemanticDistance/sd_constructor.py:93-97 | no more roots than listed terms |
| LegacyConstructor.RootsInMembers | SemanticDistance/sd_constructor.py:93-97 | the roots are exactly the listed terms without parents |
| LegacyConstructor.FindRoot | SemanticDistance/sd_constructor.py:92-99 | a second root fails with ExtraRoot, none with NoRootListed, and one is returned |
| LegacyConstructor.UsedIn | SemanticDistance/sd_constructor.py:103 | no more used terms than listed terms |
| LegacyConstructor.UsedInMembers | SemanticDistance/sd_constructor.py:103 | the used terms are exactly the listed non-root terms with a positive count |
| LegacyConstructor.Untraversed | SemanticDistance/sd_constructor.py:107-110 | None exactly when every used term has ancestors; otherwise the first one without (the KeyError) |
| LegacyConstructor.Propagate | SemanticDistance/sd_constructor.py:105-118 | a used term without ancestors fails with NotTraversed for the first such term; otherwise the tally of all used terms |
| LegacyConstructor.PropagateOne | SemanticDistance/sd_constructor.py:107-118 | one used term's count is added to its proper ancestors |
| LegacyConstructor.TallyAtLeastOwn | SemanticDistance/sd_constructor.py:110-118 | a term's tally is at least its own count |
| LegacyConstructor.TallyPositive | SemanticDistance/sd_constructor.py:105-118 | a term below some used term has a positive tally |
| LegacyConstructor.TallyUncovered | SemanticDistance/sd_constructor.py:110-118 | a term below no used term keeps its own count |
| LegacyConstructor.TallyDistinct | SemanticDistance/sd_constructor.py:105-118 | on a list without repeats, the tally is the same accumulation `process` computes |
| LegacyConstructor.TallyMapDistinct | SemanticDistance/sd_constructor.py:105-118 | on a list without repeats, the tally table is the one `process` computes |
| LegacyConstructor.RatiosPositive | SemanticDistance/sd_constructor.py:125-130 | the root gets exactly 1 unless already known, and every new value is positive and new |
| LegacyConstructor.AddedRoot | SemanticDistance/sd_constructor.py:120-134 | the same for the values a call adds |
| LegacyConstructor.RatiosOfAccumulated | SemanticDistance/sd_constructor.py:120-130 | starting from no known values, the ratios are `process`'s probabilities |
| LegacyConstructor.ExtendOne | SemanticDistance/sd_constructor.py:125-134 | one term's ancestors get their ratios unless already known; an out-of-range declared value is reported after being stored |
| LegacyConstructor.ExtendIc | SemanticDistance/sd_constructor.py:120-134 | success exactly when every new value of a declared term is in (0, 1], with the table then the known values plus the new ones; otherwise an offending term and its value |
| LegacyConstructor.RootsInEnumerates | SemanticDistance/sd_constructor.py:83-97 | on the default list, the roots found enumerate the set of roots `process` finds |
| LegacyConstructor.UsedInEnumerates | SemanticDistance/sd_constructor.py:103 | on the default list, the used terms enumerate `process`'s used terms |
| LegacyConstructor.DefaultRoot | SemanticDistance/sd_constructor.py:92-99 | with a single root, the default list yields exactly that root |
| LegacyConstructor.DefaultTraversed | SemanticDistance/sd_constructor.py:107-110 | on the default list, every used term has ancestors |
| LegacyConstructor.DefaultPlan | SemanticDistance/sd_constructor.py:83-110 | on the default list: one root, `process`'s used terms, and all traversed |
| LegacyConstructor.PreparedWithRoot | SemanticDistance/sd_constructor.py:99-121 | with one root and all used terms traversed, the plan fails only when the root gets no count |
| LegacyConstructor.DefaultCallStops | SemanticDistance/sd_constructor.py:80-121 | on the default list the constructor stops for the same reasons `process` fails |
| LegacyConstructor.SingleRootStops | SemanticDistance/sd_constructor.py:92-121 | the same, once a single root is known |
| LegacyConstructor.DefaultCallMatchesBuild | SemanticDistance/sd_constructor.py:80-136 | after a successful `process`, the default call on a fresh constructor yields the same probabilities, all in (0, 1] |
| ExampleOntology.ExampleEdges | doc/example.py:19 | the example's parent relation is acyclic and every declared term has a parent |
| ExampleOntology.ExampleValid | doc/example.py:19-22 | the example passes the builder's input checks |
| ExampleOntology.ClosureOfOne | lib/xbio/SemanticDistance/sd.py:33-45 | the closure of a term with a single parent is the term plus that parent's closure |
| ExampleOntology.ClosureOfTwo | lib/xbio/SemanticDistance/sd.py:33-45 | the closure of a term with two parents is the term plus both parents' closures |
| ExampleOntology.ClosureOfB | doc/example.py:19 | B's ancestors are {A, B} |
| ExampleOntology.ClosureOfE | doc/example.py:19 | E's ancestors are {A, E} |
| ExampleOntology.ClosureOfC | doc/example.py:19 | C's ancestors are {A, B, C, E} |
| ExampleOntology.ClosureOfD | doc/example.py:19 | D's ancestors are {A, B, C, D, E} |
| ExampleOntology.ClosureOfF | doc/example.py:19 | F's ancestors are {A, B, C, E, F} |
| ExampleOntology.ExampleClosures | doc/example.py:19-25 | the ancestor table `process` builds for the example (no entry for the root A) |
| ExampleOntology.ExampleTotals | doc/example.py:22 | the usage sums the accumulation needs |
| ExampleOntology.ExampleTerms | doc/example.py:19-25 | the example lists terms A-F, A is its only root, and B-F are the used terms |
| ExampleOntology.ExampleContributors | doc/example.py:19-25 | which used terms sit below each term |
| ExampleOntology.ExampleAccumulated | doc/example.py:22-25 | accumulated counts A 19, B 14, C 9, D 5, E 11, F 2 |
| ExampleOntology.ExampleProbabilities | doc/example.py:22-25 | the probabilities are those counts over 19 |
| ExampleOntology.ExampleBuild | doc/example.py:25 | `process` on the example succeeds with that table and those probabilities |
| ExampleOntology.ExampleIndex | doc/example.py:25 | the imperative `process` returns that index |
| ExampleOntology.ExampleReflexive | doc/example.py:32 | the example's table is already reflexive, so the engine keeps it unchanged |
| ExampleOntology.ExampleEngine | doc/example.py:32 | the engine is created from the index without error |
| ExampleOntology.ExampleVerdicts | doc/example.py:35-38 | B to B is 0; B to C, D to C and B to E are Lin on (14/19, 9/19, 14/19), (5/19, 9/19, 9/19) and (14/19, 11/19, 1); A to B fails with NoAncestors(A) |
| ExampleOntology.ExampleDistances | doc/example.py:35-38 | the engine's distance queries return those values |
| ExampleOntology.SharedByBCD | doc/example.py:45 | B, C and D all have ancestors and share exactly {A, B} |
| ExampleOntology.SharedByCDF | doc/example.py:46 | C, D and F share exactly {A, B, C, E} |
| ExampleOntology.CandidatesOfBCD | doc/example.py:45 | the candidates for B, C, D are {A, B}, and B is the less probable |
| ExampleOntology.CandidatesOfCDF | doc/example.py:46 | the candidates for C, D, F are {A, B, C, E}, and C is the least probable |
| ExampleOntology.BestOfBCD | doc/example.py:45 | the best common ancestor of B, C, D is B |
| ExampleOntology.BestOfCDF | doc/example.py:46 | the best common ancestor of C, D, F is C |
| ExampleOntology.ExampleDominated | SemanticDistance/example.py:81 | among A-F, only D and F are no proper ancestor of another listed term |
| ExampleOntology.ExampleMostSpecific | SemanticDistance/example.py:81 | excluding ancestors from [A, B, C, D, E, F] gives [D, F] |
| ExampleOntology.ExampleSession | doc/example.py:19-46 | the walk-through from `process` to the queries gives the announced B-C and B-E distances, best ancestor B, and [D, F] |
| ExampleOntology.LegacyExampleQueries | SemanticDistance/example.py:70-81 | the legacy engine on the same index answers B and C for the two best-ancestor queries and [D, F] for `exclude_ancestors` |
| ExampleOntology.ChainVerdict | lib/xbio/SemanticDistance/sd.py:188-191 | on the tables of the chain A <- B <- C with only C used (B {A, B}, C {A, B, C}, all probabilities 1), B against C passes the monotony assertion and then divides by zero |
| ExampleOntology.LegacyChainAnswer | SemanticDistance/sd.py:112-115 | the legacy engine raises the same ZeroDivisionError on that index, with or without its probability check |
| ExampleOntology.ChainSetDistance | lib/xbio/SemanticDistance/sd.py:219-242 | a forced set query between [B] and [C] on that index skips the failing pair and returns None |

## Left out

- The Lin formula `1 - 2 log p(MS) / (log p(A) + log p(B))` is not modelled. Every engine carries it as the uninterpreted function `lin`, applied to the three probabilities the source passes it. Only the formula's domain is modelled: its denominator log p(A) + log p(B) is zero exactly when p(A) * p(B) = 1, and that case is the division-by-zero error. The distances printed by doc/example.py:36-38 (0.419755281904, 0.282289068435 and 1.0) are stated as `lin` applied to the right probabilities, not as numbers. For B and E, p(MS) is 1, which is why the source gets 1.0.
- The example's dispersion and set-distance values (doc/example.py:50 and doc/example.py:54) are not restated, because they are numbers computed by the formula.
- ExampleOntology.ChainVerdict: the chain's tables are written out as constants, not derived from `Build` as the six-term example's are.
- Floating point: probabilities and distances are exact reals. Rounding is not modelled.
- Python 2 integer division: a caller's distance matrix holding only integers would make the source's `sum(...) / n` truncate. The model treats matrix entries as reals.
- Printing: the legacy `verbose` messages to standard error are not modelled. Their only effect is output.
- Persistence is not part of this model: `SemanticDistanceConstructor.save` (SemanticDistance/sd_constructor.py:140-141), `SemanticDistanceLoader` and pickle.
- SemanticDistance/sd_db.py, SemanticDistance/sd_helpers.py, the go/ and ec/ scripts, `__init__.py` and setup.py are not part of this model.
- The exception classes of SemanticDistance/errors.py become constructors of `QueryError`, `BuildError`, `Crash` and `IcError`. Message texts are left out.
- Aliasing: both engine constructors add each term to its own ancestor set by mutating the caller's dictionaries in place. The model returns the reflexive table (`WithSelf`) as a new value, so the caller's table stays unchanged.
- Dictionary iteration order is a nondeterministic choice, so results that depend on it are stated as a set of possible answers (see below). Dictionaries used as sets become `set`; lists produced from them are ghost enumerations.
- IndexBuilder.Process: requires a rank map showing that the parent relation is acyclic apart from self-parents. On a cycle the source's `back_propagation` recursion never ends (Python stops it with a RecursionError), and the model does not represent that.
- LegacyConstructor.SemanticDistanceConstructor.FindAncestors: requires an acyclic parent relation, for the same reason.
- DistanceEngine.SemanticDistance.DistanceBetween: when several common ancestors lack a probability, it states only that the error names one of them. Which one depends on dictionary order.
- LegacyDistance.SemanticDistance.DistanceBetween: the same for the KeyError over the shared parents.
- DistanceEngine.SemanticDistance.DistanceBetweenSets: an unforced failure reports the error of some failing pair, not necessarily the first in dictionary order.
- LegacyDistance.SemanticDistance.DistanceBetweenSets: a halting pair's reply is that of some halting pair, not necessarily the first in dictionary order.
- DistanceEngine.SemanticDistance.BestCommonAncestor: among equally probable candidates it returns any one. The source keeps the first in dictionary order.
- LegacyDistance.SemanticDistance.BestCommonAncestor: the same tie rule.
- DistanceEngine.SemanticDistance.Dispersion: it is stated over the ghost `order` in which the distinct terms are enumerated, since `dict.fromkeys(terms).keys()` fixes no order.
- LegacyDistance.SemanticDistance.Dispersion: the same, for `unique`.

## Findings

| source | as written | input that shows it | evidently intended | confidence | as-written member | corrected member |
|---|---|---|---|---|---|---|
| lib/xbio/SemanticDistance/sd.py:291-299 | with `force`, a failing pair is caught by `except: pass` and `distances.append(d)` still runs. A failure before any distance leaves `d` unbound (NameError), and a later failure appends the previous pair's distance again | forced dispersion where the pair outcomes are failure then 0.5 raises instead of returning 0.5; outcomes 0.2, failure, 0.5 give 0.3 instead of 0.35 | failing pairs are ignored, as the comment at lines 279-282 says, as `distance_between_sets` does with `continue` (lines 219-223), and as the older SemanticDistance/sd.py:224-227 does | high; not executed | DistanceEngine.FailureRepeated | DistanceEngine.IgnoringFailuresMeans |

`DistanceEngine.SemanticDistance.Dispersion` models the code as written: `CarryForward` describes the distances appended. `DistanceEngine.FailureFirst` is the second counterexample for the as-written code. The corrected definition is `DistanceEngine.IgnoringFailures`. It is the mean over exactly the pairs that produced a distance (`DistanceEngine.SuccessesMembers`). `DistanceEngine.IgnoringFailuresMeans` proves that it never fails, has a mean exactly when some pair succeeds, and coincides with the code whenever no pair fails.
