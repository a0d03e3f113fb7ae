# Greedy point correspondence and sample bookkeeping of the tooth SSM builder

This project models the discrete core of `cpdOnly_align_ssm.py`, the script
that builds a statistical shape model of one tooth from many point clouds.
Before the PCA step, every sample has to be reduced to the same number of
points, matched point for point with a reference shape. The modelled parts are:

- `getCorrePointPairs`: the greedy nearest-neighbour correspondence. Each
  reference point, in order, takes the nearest moving point not yet taken. Ties
  go to the first such point, as `np.argmin` breaks them. The taken column is
  then masked with infinity. It asserts that the reference set is no larger
  than the moving set.
- `extractCorreMovPoints`: selecting the moving points the pairs name.
- The correspondence step of `alignPointsByRigidRegistration`. The pairs are
  found on the deformably registered moving set and applied to both the raw
  and the rigidly registered moving sets. The registration results are
  parameters.
- `getSortedTrainTestPointGroups`: the split of tagged samples into a training
  side and a test side.
- `getPointGroupByTag`: the lookup of a sample by its tag.

Points and point groups are type parameters. The distance matrix is a
`seq<seq<real>>` of finite distances, or a distance function passed in by the
caller. Nothing here computes a Euclidean norm.

Layout, one module per file:

- `outcomes.dfy` (`Outcomes`): `Option`, and `Result` with the two errors
  raised. `CardinalityError` is the failing assertion. `IndexError` is
  numpy's fancy-indexing failure.
- `argmin.dfy` (`ArgMin`): entries of the masked matrix, finite or infinite,
  and `np.argmin` over a row.
- `correspondence.dfy` (`Correspondence`): the greedy correspondence as a pure
  function. It threads an explicit set of taken columns through the rows. Its
  lemmas cover bounds, injectivity, determinism, recovery of a strict matching,
  and a two-point example of non-optimality.
- `masked_correspondence.dfy` (`MaskedCorrespondence`): the loop as the source
  writes it. It keeps the whole matrix and overwrites chosen columns with
  infinity. It is proved to return exactly what the used-set definition
  returns.
- `extraction.dfy` (`Extraction`): `extractCorreMovPoints` and the
  correspondence step of the pair aligner.
- `partition.dfy` (`Partition`): Python's `zip` and the train/test split.
- `lookup.dfy` (`Lookup`): the tag lookup.

Three behaviours of the code that are easy to miss:

- A missing tag is not an error. `getPointGroupByTag` prints a message and
  returns `None`, and the model returns `None`.
- Both loops iterate over `zip(...)`. Tags without a group, or groups without a
  tag, are silently dropped. The model keeps this truncation.
- `extractCorreMovPoints` fails when there are no pairs. `np.array([])` is
  one-dimensional, so `pointPairs[:, 1]` raises an `IndexError`. The model
  returns `Err(IndexError)`. As a result, the correspondence step fails for an
  empty reference set, even though the cardinality assertion passes.

## Model

| member | source | states |
|---|---|---|
| Correspondence.GetCorrePointPairs | cpdOnly_align_ssm.py:39-48 | fails with the cardinality error exactly when X has more points than Y; otherwise one pair per point of X, the k-th pair's reference index is k, every moving index is below len(Y) and no moving index repeats, and each pair is the greedy choice on the distance matrix |
| Correspondence.GreedyPairs | cpdOnly_align_ssm.py:39-48 | on an m x n distance matrix: error iff m > n, otherwise a greedy assignment (one pair per row, in row order, each the greedy choice given the earlier pairs' columns) |
| Correspondence.PickColumn | cpdOnly_align_ssm.py:45-47 | one step: when a free column exists, the chosen column is free, no farther than any free column, and strictly nearer than every free column before it (argmin's first occurrence) |
| Correspondence.Assign | cpdOnly_align_ssm.py:44-47 | after k rows there are k pairs, pair t has reference index t and is the greedy choice once the columns of pairs 0..t-1 are taken, and k distinct columns are taken |
| Correspondence.GreedyStep | cpdOnly_align_ssm.py:44-47 | appending the greedy choice for the next row to a greedy prefix gives a greedy prefix one longer, with one more distinct taken column |
| Correspondence.DistanceMatrix | cpdOnly_align_ssm.py:43 | one row per point of X and one column per point of Y, entry (i, j) the distance from X[i] to Y[j] |
| Correspondence.FreeColumnExists | cpdOnly_align_ssm.py:40-47 | pigeonhole behind the assertion: with fewer taken columns than columns, some column is still free, so every row finds an unmasked column |
| Correspondence.GreedyBoundedInjective | cpdOnly_align_ssm.py:45-47 | every moving index of a greedy assignment is inside the matrix and no two pairs share a moving index |
| Correspondence.GreedyChoiceUnique | cpdOnly_align_ssm.py:45 | a row and a set of taken columns admit only one greedy choice (argmin is deterministic) |
| Correspondence.GreedyDeterministic | cpdOnly_align_ssm.py:44-48 | any two greedy assignments of the same matrix are equal, so the correspondence is reproducible |
| Correspondence.GreedyRecoversStrictMatching | cpdOnly_align_ssm.py:44-47 | when every row has a strictly nearest column and these columns are distinct (identical or permuted sets of pairwise distinct points), the result is exactly that matching |
| Correspondence.GreedyOnCrossedMatrix | cpdOnly_align_ssm.py:44-47 | on the matrix [[1, 2], [1, 100]] the greedy result is (0, 0), (1, 1) |
| Correspondence.CrossedCosts | cpdOnly_align_ssm.py:44-47 | on that matrix the crossed matching (0, 1), (1, 0) costs 3 and the greedy one (0, 0), (1, 1) costs 101 |
| Correspondence.CrossedGreedyUnique | cpdOnly_align_ssm.py:44-47 | every greedy assignment of that matrix is (0, 0), (1, 1) |
| Correspondence.GreedyNotGloballyOptimal | cpdOnly_align_ssm.py:44-47 | on that matrix every greedy assignment costs more than the crossed matching: the assignment is greedy, not optimal |
| ArgMin.FirstMin | cpdOnly_align_ssm.py:45 | np.argmin on a row with infinite entries: an index in range whose entry is no larger than any entry and strictly smaller than every entry before it |
| MaskedCorrespondence.MaskColumn | cpdOnly_align_ssm.py:47 | same shape as the input; entries in column j become infinite and every other entry is unchanged |
| MaskedCorrespondence.MaskedLoopStep | cpdOnly_align_ssm.py:44-47 | one loop iteration: argmin over the masked row extends the greedy pairs by that row's pair, and masking its column keeps the matrix masked exactly at the taken columns |
| MaskedCorrespondence.MaskStep | cpdOnly_align_ssm.py:47 | masking the chosen column keeps the masked matrix equal to the distances with exactly the taken columns infinite |
| MaskedCorrespondence.ArgMinOfMaskedRow | cpdOnly_align_ssm.py:45-47 | argmin over a masked row returns the greedy choice over the unmasked columns |
| MaskedCorrespondence.GetCorrePointPairsMasked | cpdOnly_align_ssm.py:39-48 | the in-place masking loop returns the same result as the used-set greedy, error case included |
| Extraction.Movs | cpdOnly_align_ssm.py:51 | one index per pair, the k-th being the k-th pair's moving index (the second column) |
| Extraction.Gather | cpdOnly_align_ssm.py:51 | row selection by in-range indices: one row per index, the k-th being the row at the k-th index |
| Extraction.ExtractCorreMovPoints | cpdOnly_align_ssm.py:50-51 | IndexError iff there are no pairs or some moving index is past the end; otherwise one point per pair, the k-th being pMov at the k-th pair's moving index |
| Extraction.DistinctGatherSubMultiset | cpdOnly_align_ssm.py:50-51 | selecting rows by distinct in-range indices gives a sub-multiset of the rows: no moving point is used twice |
| Extraction.MatchCorrespondences | cpdOnly_align_ssm.py:89-91 | cardinality error iff the reference is larger than the moving set, IndexError iff the reference is empty; otherwise the pairs are the greedy assignment on the deformed set, both matched sets have one point per reference point, the k-th points of both come from the same moving index, and each matched set is a sub-multiset of its source |
| Partition.Zip | cpdOnly_align_ssm.py:66 | as long as the shorter list, with the k-th element pairing the k-th elements of both lists |
| Partition.SplitEntries | cpdOnly_align_ssm.py:66-72 | each side keeps tags and groups the same length, the sides' lengths sum to the input length, and each side equals the stable selection of entries whose tag is (not) a training tag |
| Partition.GetSortedTrainTestPointGroups | cpdOnly_align_ssm.py:61-73 | the four lists pair up (equal lengths per side), together they are as long as the zipped input, training tags are all in trainTags and test tags none, and each side is the in-order selection of its entries |
| Partition.SelectPartitions | cpdOnly_align_ssm.py:66-72 | the training and test selections together equal the input as a multiset |
| Partition.SelectMembership | cpdOnly_align_ssm.py:66-72 | an entry is on a side iff it is an input entry whose tag's membership in trainTags matches that side |
| Partition.SelectIsSubsequence | cpdOnly_align_ssm.py:66-72 | each side is a subsequence of the input: relative order is kept |
| Partition.TrainTestPartition | cpdOnly_align_ssm.py:61-73 | every input (tag, group) is on the training side iff its tag is a training tag and on the test side iff it is not; the sides together are the input as a multiset; each side keeps input order |
| Lookup.FindByTag | cpdOnly_align_ssm.py:174-178 | None iff no entry carries the tag; otherwise the group of the first entry that does |
| Lookup.GetPointGroupByTag | cpdOnly_align_ssm.py:173-178 | None iff no zipped tag equals searchTag; otherwise the group at the first index whose tag equals it |
| Lookup.FindBySelectedTag | cpdOnly_align_ssm.py:174-176 | looking a tag up in the side of a split it belongs to finds the same group as looking it up in the whole input |
| Lookup.LookupAfterSplit | cpdOnly_align_ssm.py:173-178 | a training tag is found in the training lists with the same result as in the full lists, and any other tag likewise in the test lists |

## Left out

- Euclidean distances (`scipy.spatial.distance_matrix`, line 43). The distances are given as finite reals or as a caller-supplied function. NaN and overflow to infinity are not modelled. With them, `argmin` could pick a masked column.
- The `np.uint32` cast of the pair array (line 48). Indices are unbounded naturals here. Wrap-around would need more than 2^32 points.
- CPD rigid and deformable registration via `cycpd` (lines 83-87). It is a randomised numeric optimiser. Its outputs (the transformed and deformed moving sets) are parameters of `MatchCorrespondences`, assumed to have one point per moving point.
- The `ray` remote dispatch and gather (lines 75, 118-122, 146-150, 159-163). It is concurrency. The model has none.
- The global alignment loop of `alignToothPointGroups` (lines 102-154). This covers reference averaging, Euler-angle rotation averaging, the Frobenius-norm convergence test and `normalizePointArray`. All of it is floating-point linear algebra over external helpers.
- `alignTestPointGroups` (lines 156-171). It is a parallel map of the pair aligner, and the correspondence part of that aligner is modelled.
- PCA, reconstruction, the inverse similarity transform and the error statistics (lines 247-292). They are floating-point numerics. The eigendecomposition is in `ssm_utils`, which is not part of this model.
- File loading and sorting (`getSortedToothPoints`, lines 53-59), `np.savetxt`, HDF5 persistence and plotting. These are I/O.
- Downsampling (`farthestPointDownSample` and related functions, from `pcd_mesh_utils`, which is not part of this model).
- Progress printing (including the "does not exist" message of `getPointGroupByTag`) and `time.sleep`. These are output only.
