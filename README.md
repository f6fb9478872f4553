# Pairtree tree sampler: a Dafny model

Pairtree infers a phylogeny of clusters of mutations. Its sampler runs a
Metropolis chain over cluster trees. A tree on K clusters is a K x K 0/1
adjacency matrix with an all-1 diagonal. For i != j, entry (i, j) is 1 when
cluster i is the parent of cluster j, and cluster 0 is the root.

This project models the discrete parts of that sampler and proves properties
of them:

- `Matrices` (matrices.dfy): matrices as values, and the numpy array
  operations the code uses on its working copies (copy, `fill_diagonal`,
  row and column assignment, `flatnonzero`).
- `Trees` (trees.dfy):
  - the parent of a node;
  - ancestry, as the reflexive-transitive closure of the parent relation;
  - what a valid tree is;
  - the shape test that `permute_adj` asserts;
  - the ancestral matrix `make_ancestral_from_adj`. Its source is outside
    the modelled files, so it is defined here as that closure.
- `Permute` (permute.dfy): the proposal `permute_adj`, for a given node
  pair (A, B).
- `TreeInit` (init.dfy): the linear, branching and random initial trees.
  The random parent draws are an input.
- `Mutrel` (mutrel.dfy): `make_mutrel_tensor_from_cluster_adj`, the one-hot
  M x M x 4 tensor of relations between mutations.
- `BetaParams` (beta.dfy): `calc_beta_params`.
- `Chain` (chain.dfy): `run_chain`, `choose_best_tree` and the sequential
  branch of `sample_trees`.
  - The likelihood `calc_llh` is a function parameter.
  - Each chain's random draws are an input: every proposal's node pair and
    the outcome of every acceptance test.
- `Adjlist` (adjlist.dfy): `_convert_adjm_to_adjlist` of the phi fitter,
  and the `deg` / `adjl_mat` packing of `_project_ppm`.
- `Wrappers` (wrappers.dfy): `Option` and `Result`.

Python `assert`s are modelled as follows:

- When the caller's precondition guarantees an assertion, it appears as a
  proved Dafny `assert`, or as a lemma. This covers the shape test and the
  swap-case test in `permute_adj`, and the one-relation-per-pair test.
- When an assertion checks the data the operation computes on, and can fail
  on the inputs the code accepts, it is an `Err` result. This covers
  `calc_beta_params` and `_convert_adjm_to_adjlist`.
- When an assertion checks an argument the caller controls, it is a
  precondition, listed under "## Left out". This covers `nsamples > 0`
  in `run_chain` and `parallel > 0` in `sample_trees`.

The model follows the code in three places where the system's documentation
describes something else:

- The branching initial tree is 0 -> 1 with every other node under 1. It is
  not a star on the root, and it needs K >= 2.
- A chain returns only its best (tree, likelihood). No burn-in is discarded.
- `sample_trees` returns one-element lists holding the best tree over all
  chains.

Matrices are values (`seq<seq<int>>`). Each operation that numpy carries out
in place on a copy (`np.copy`, then element, row and column writes) is a
method that copies the value into an `array2`, edits it in place, and reads
the result back. The argument is therefore left unmodified, as the source's
copy guarantees.

## Model

| member | source | states |
|---|---|---|
| Matrices.FlatNonzero | tree_sampler.py:21 | the result lists, in strictly increasing order, exactly the indices of the row's nonzero entries |
| Matrices.IncreasingUnique | phi_fitter_projection.py:17 | two strictly increasing index lists with the same members are equal, so a flatnonzero result is determined by its set |
| Trees.AncestralMatrix | tree_sampler.py:10 | for a valid tree the ancestral matrix is square and 0/1, and entry (a, j) is 1 exactly when a is j or an ancestor of j |
| Trees.TreeShapeOk | tree_sampler.py:88-93 | every valid tree passes permute_adj's assertions: diagonal all 1, total K + (K - 1), one column summing to 1 and K - 1 columns summing to 2 |
| Trees.TreeColSum | tree_sampler.py:91-93 | in a valid tree the root's column sums to 1 and every other column sums to 2 (self and parent) |
| Trees.AncAntisymmetric | tree_sampler.py:108 | in a tree, two nodes that are each other's ancestors are the same node (no cycles) |
| Trees.EdgeIsParent | tree_sampler.py:124-126 | an off-diagonal 1 at (a, b) means b is not the root and a is b's one parent |
| Permute.PermuteAdj | tree_sampler.py:84-131 | on a valid tree with A != B, the result is the no-op, swap or move case chosen by ancestry, and it is again a valid tree |
| Permute.PermuteRootIsNoOp | tree_sampler.py:99-103 | choosing the root as B returns the tree unchanged |
| Permute.SwapCaseAssertion | tree_sampler.py:106-108 | when B is an ancestor of A, A is not an ancestor of B and adj[A, B] is 0 |
| Permute.PermuteSwapCase | tree_sampler.py:106-120 | in the swap case A and B trade places: every node's parent is its relabelled node's parent under the A/B exchange; when B was A's parent, A becomes B's parent |
| Permute.SwapNodes | tree_sampler.py:107-120 | clearing B -> A, exchanging rows and then columns A and B, and restoring A -> B yields exactly the A/B relabelling of the working copy |
| Permute.PermuteMoveCase | tree_sampler.py:122-126 | in the move case A becomes B's only parent and every column other than B is unchanged |
| Permute.MoveNode | tree_sampler.py:124-126 | on the working copy column B becomes 0 except for the new entry A -> B, and nothing else changes |
| Permute.EditCopy | tree_sampler.py:104-129 | the diagonal-zeroed working copy, edited by the chosen case and with the diagonal restored, equals the relabelled or the moved tree |
| Permute.PermutePreservesTree | tree_sampler.py:85-93 | every result of permute_adj on a valid tree is a valid tree rooted at 0 and passes the shape test again |
| Permute.RelabelIsTree | tree_sampler.py:112-117 | exchanging the labels of two non-root nodes keeps a valid tree rooted at 0 |
| Permute.MovedIsTree | tree_sampler.py:122-126 | re-hanging B under a node A that is not its descendant keeps a valid tree, with A the parent of B |
| TreeInit.InitLinear | tree_sampler.py:61-65 | the result is the matrix of the chain 0 -> 1 -> ... -> K-1 |
| TreeInit.LinearIsChain | tree_sampler.py:61-65 | the linear tree is a valid tree in which the parent of every k >= 1 is k - 1 |
| TreeInit.InitBranching | tree_sampler.py:67-71 | the result is the matrix with 0 -> 1 and 1 -> j for every j >= 2 |
| TreeInit.BranchingShape | tree_sampler.py:67-71 | the branching tree is a valid tree in which 1's parent is 0 and every j >= 2 has parent 1 |
| TreeInit.InitRandom | tree_sampler.py:73-82 | the result is the identity plus the edge parents[idx - 1] -> idx for every idx >= 1 |
| TreeInit.ParentsTreeIsTree | tree_sampler.py:73-82 | with every drawn parent below its node, the result is a valid tree rooted at 0 whose parents are exactly the draws |
| Mutrel.MakeMutrelTensor | tree_sampler.py:9-35 | the tensor is M x M x 4 and one-hot; pair (i, j) is marked exactly in the slice of its relation: cocluster, then A_B, then B_A for the transpose, then diff_branches |
| Mutrel.MarkedRelationsExclusive | tree_sampler.py:33 | in a tree with no mutation in two clusters, cocluster, A_B and B_A exclude one another, so each pair has one relation |
| Mutrel.RelationByClusters | tree_sampler.py:19-32 | two clustered mutations stand in the relation of their clusters: same cluster, strict ancestor, strict descendant or neither |
| Mutrel.UnclusteredIsDiffBranches | tree_sampler.py:31-32 | a mutation that is in no cluster is on a different branch from every mutation |
| Mutrel.MarkClusters | tree_sampler.py:19-27 | after the loop over clusters, the cocluster slice is 1 exactly on same-cluster pairs, the A_B slice exactly on ancestral pairs, and the rest is 0 |
| Mutrel.MarkBlock | tree_sampler.py:25-27 | slice r becomes 1 on every pair (x, y) with x among the rows and y among the columns, and every other entry is unchanged |
| Mutrel.Gather | tree_sampler.py:22 | the mutations gathered from a list of clusters are exactly the members of those clusters |
| BetaParams.CalcBetaParams | tree_sampler.py:134-144 | succeeds exactly when no variant read count is negative; then alpha = 2V + 1 and beta = max(1, R - V + 1), both at least 1 |
| BetaParams.NoReadsIsUniform | tree_sampler.py:140-142 | a sample with no reads gets alpha = beta = 1 |
| Chain.BestIndex | tree_sampler.py:184-191 | the chosen index holds a greatest value, and every earlier entry is strictly smaller |
| Chain.BestIndexUnique | tree_sampler.py:188 | the earliest index of the greatest value is the only index with that property |
| Chain.ChooseBestTree | tree_sampler.py:184-191 | over the zip of the two lists, the result is (None, -inf) when the zip is empty, else the earliest strictly greatest entry |
| Chain.History | tree_sampler.py:162-180 | the chain holds one entry per step plus the initial tree, starts from the initial tree and its likelihood, and every entry is a K x K matrix |
| Chain.HistoryIsTree | tree_sampler.py:165-180 | every entry of a chain started from a valid tree is a valid tree, because each accepted proposal is one |
| Chain.HistoryStep | tree_sampler.py:168-180 | entry I is the permute_adj proposal from entry I - 1, with its likelihood, when step I is accepted, and a copy of entry I - 1 otherwise |
| Chain.HistoryLlh | tree_sampler.py:163-179 | every recorded likelihood is the likelihood of the tree recorded beside it |
| Chain.AllRejectedStays | tree_sampler.py:176-179 | when every step is rejected, the chain stays at its initial tree |
| Chain.RunSteps | tree_sampler.py:162-180 | the adjacency and likelihood lists the loop builds are exactly the history of the given draws |
| Chain.RunChain | tree_sampler.py:146-182 | starting from the branching tree, the result is the best entry of the chain's history |
| Chain.ChainBestIsBest | tree_sampler.py:182-191 | a chain's result is a valid tree of the history whose likelihood is its own and at least every entry's likelihood |
| Chain.SampleTrees | tree_sampler.py:222-228 | the result is one-element lists holding the best of the chains' results |
| Chain.GlobalBest | tree_sampler.py:224-227 | the tree kept is valid, and its likelihood is at least that of every entry of every chain |
| Adjlist.AddTranspose | phi_fitter_projection.py:11 | every entry becomes the sum of itself and its transposed entry, taken before the update |
| Adjlist.Undirected | phi_fitter_projection.py:8-12 | a fresh copy of the matrix whose diagonal is 0 and whose off-diagonal entry (x, y) is adjm[x][y] + adjm[y][x] |
| Adjlist.NonzeroRows | phi_fitter_projection.py:15-18 | one list per row, in row order, and each list holds exactly the row's nonzero columns in strictly increasing order |
| Adjlist.ConvertAdjmToAdjlist | phi_fitter_projection.py:7-19 | fails exactly when the diagonal is not all 1 or some symmetrised off-diagonal entry is not 0/1; otherwise there is one increasing list per node holding exactly the other nodes joined to it in either direction |
| Adjlist.BinaryNeighbours | phi_fitter_projection.py:11-13 | on a 0/1 matrix, j is i's neighbour exactly when there is an edge either way, neighbourhood is symmetric, and the check fails exactly on a pair with edges both ways |
| Adjlist.AdjlistUnique | phi_fitter_projection.py:15-18 | a matrix has exactly one adjacency list |
| Adjlist.AdjlistRowsShort | phi_fitter_projection.py:62-64 | no list is longer than the number of nodes, so every row fits the M x M matrix |
| Adjlist.TreeAdjlist | phi_fitter_projection.py:9-17 | a valid tree always converts, and a node's neighbours are its parent (when it is not the root) and its children |
| Adjlist.PackRows | phi_fitter_projection.py:62-64 | a fresh M x M array whose row i holds list i followed by zeros, with the rows past the last list all zero |
| Adjlist.PackAdjlist | phi_fitter_projection.py:61-64 | deg[i] is the length of list i, and row i of the matrix starts with list i and is zero after it, so cutting each row to its degree gives the lists back |
| Adjlist.ProjectPacking | phi_fitter_projection.py:60-64 | fails exactly when the conversion fails; otherwise, for the matrix's adjacency list, deg[i] is the length of list i, row i of the M x M matrix holds list i and is zero after it, and cutting each row to its degree gives the lists back |

## Left out

- `calc_llh` (tree_sampler.py:37-59) is floating-point log-likelihood arithmetic. It is the function parameter `llh`, and likelihoods are reals. The model has no NaN and no infinities other than the `-inf` of the best-tree scan.
- Chain.ChooseBestTree, Chain.RunChain and Chain.SampleTrees do not model a likelihood of `-inf`. `scipy.stats.beta.logpdf` (tree_sampler.py:50-51) returns `-inf` at phi = 0 when alpha > 1, and at phi = 1 when beta > 1. When every likelihood of a chain is `-inf`, no entry beats the initial `-inf`, so the source returns `None` as the tree. With real likelihoods the model always returns a tree.
- The Metropolis test `new_llh - old_llh >= log(uniform())` (tree_sampler.py:171) is left out, because it is floating point plus randomness. Its outcome is a given boolean per step.
- Random draws and seeding (tree_sampler.py:79, 96, 148, 161) are inputs: the parent list, each proposal's pair (A, B), and the accept flags. Choosing among initialisers is left out, because the code offers only the branching one.
- Chain.SampleTrees models the sequential case `parallel == 1`. The AssertionError of `assert parallel > 0` (tree_sampler.py:197) for `parallel <= 0` is not modelled.
- The parallel branch of `sample_trees` (tree_sampler.py:199-221) and the `progress_queue` calls in `run_chain` are left out, because they are concurrency and progress display.
- The `debug` calls and the `permute_adj.blah` set are left out, because they are side effects only.
- `fit_phis`, `_fit_phi_S`, the rest of `_project_ppm`, and the ctypes call into the projection library (phi_fitter_projection.py:21-58, 66-145) are left out, because they are floating-point numerics and a foreign call.
- Permute.PermuteAdj and Mutrel.MakeMutrelTensor require a valid tree. The ancestral matrix is only defined on trees, because its source, `common.make_ancestral_from_adj`, is not part of this model. For the same reason, permute_adj's assertion failures on malformed input are not modelled.
- Mutrel.MakeMutrelTensor requires that no mutation is in two clusters, because superclusters partition the mutations. With a mutation in two clusters the code's one-hot assertion can fail: on the tree 0 -> 1 with clusters [[0], [0]], pair (0, 0) is marked cocluster, A_B and B_A. The assertion can also pass: on the tree 0 -> 1, 0 -> 2 with clusters [[], [0], [0]], only the cocluster pair is marked. Tensors for such inputs are not modelled.
- Mutrel.MakeMutrelTensor requires every mutation index to be below M. numpy raises an index error otherwise, and that error is not modelled.
- Mutrel.MakeMutrelTensor takes `common.Models` to list cocluster, A_B, B_A and diff_branches in that order. That module is not part of this model.
- BetaParams.CalcBetaParams takes the supervariants already in the order of their numeric ids. The key sort `int(V[1:])` is not modelled.
- BetaParams.CalcBetaParams requires every supervariant to have read counts for the same samples, with `var_reads` and `ref_reads` of equal length. With ragged lists, `np.array` fails or builds an object array, and that behaviour is not modelled.
- Adjlist.ProjectPacking takes M, the size of `adjl_mat`, to be the number of nodes of the matrix. `_project_ppm` takes M from `len(phi_hat)` (phi_fitter_projection.py:51), and its callers pass one estimate per node. When `len(phi_hat)` is smaller, line 64 raises an IndexError or a broadcast ValueError. When it is larger, the extra rows are zeros. Neither mismatch is modelled.
- Adjlist.PackAdjlist does not model the 16-bit `np.short` dtype of `deg` and `adjl_mat`. Entries are unbounded integers, so more than 32767 nodes would wrap in the source but not in the model.
- Adjlist.AddTranspose models `adjm += adjm.T` with numpy's buffering of the overlapping operand, so every sum uses the entries from before the update.
- Chain.SampleTrees requires at least one chain. With none, `choose_best_tree` is called with no arguments and raises a TypeError, which is not modelled.
- Chain.RunChain requires K >= 2. Drawing two distinct clusters and the branching initialiser both fail for smaller K.
- Chain.RunChain requires nsamples >= 1 (through `ValidDraws`). `run_chain` asserts `nsamples > 0` (tree_sampler.py:149), and the AssertionError it raises for nsamples = 0 is not modelled.
- Chain.SampleTrees requires nsamples >= 1 for every chain (through `ValidDraws`). The same AssertionError, raised from the first call to `run_chain` (tree_sampler.py:225), is not modelled.
- Properties about the distribution of the chain, such as reversibility or a burn-in, are not stated. The code discards no burn-in.
- comparison/plot_individual.py, progressbar.py and lib/hyperparams.py are reporting, terminal output and a table of strings, so they are not modelled.
