# Verified models of the Cairo commitment trees, bootloader facts and cryptographic helpers

The project models the parts of the Cairo tool chain whose correctness is global: it depends on
whole runs, on every interleaving, or on two computations agreeing.

* **Commitment trees.** `UpdateTree`, `UpdateProtocol`, `Calculation`, `PatriciaTree` and
  `PatriciaUpdate` follow one update of a Patricia tree from the list of modifications, through
  the asynchronous traversal, to the new root and the facts written. `UpdateProtocol` is a state
  machine whose steps are what a worker does between two suspension points; the scheduler picks
  any task of the pool. The end-to-end statement is that every schedule leaves the Patricia root of
  the modified leaf array, with all facts of the new tree and no other facts added to the storage.
  `BinaryFactTree` and `PatriciaRead` are the reading side: leaves by index, and the difference of
  two trees.
* **The fast update.** `FastUpdate` is the second implementation of the update: fetch the nodes
  needed, build the new structure in layers with bit arithmetic on node numbers, hash the layers.
  `EdgePaths`, `TreeIndex` and `LeafIndices` are the vocabulary of edges, node numbers and sorted leaf
  numbers; `FastNodes` and `FastFacts` say what a node stands for before and after hashing. The
  end-to-end statement is `CompareUpdates`: both updates give the same root and leave the same facts
  of inner nodes in the storage.
* **Patricia encoding.** `PatriciaEncoding` and `PatriciaBuild` give the encoding by recursion on
  halves, the layer-by-layer construction, and the decoding from preimages. `Descents`,
  `SiblingPaths` and `PatriciaSiblings` are the search for common descents, the siblings of an update
  as paths, and the compression of sibling lists. `PairingHash` shows that the collision-freeness
  hypothesis can be met.
* **Small Merkle tree.** `SmallMerkleTree` is the class that stores only the touched nodes.
* **Field and curve.** `NumberTheory` (up to Fermat's little theorem), `Fft`, `Curve`, `ChordLaw`,
  `Ecdsa` and `Pedersen`. `ChordLaw` proves what the addition formulas compute on any curve. That the
  points form a group of prime order under them is the hypothesis `Curve.IsGroup`, from which the
  results on multiples, signatures and hashes are proved. `Witnesses` shows that this hypothesis, that
  of the scheme and that of an ideal list hash can be met.
* **Output facts.** `OutputRoot` is the shift/reduce machine over output pages, `FactTopology` the
  page dictionary, the fact topology and the aggregator rewrite, `Sorting` stands for `sorted`.
* **Storage wrappers.** `GatedStorage` and `CachedStorage` over plain maps.
* **BLAKE2s input.** `Blake2s` is the word encoding of field elements and the block schedule of
  section 3.3 of RFC 7693.

Conventions. A failed assertion or another exception is `None` (or a named constructor). Python
integers are Dafny `int`; where the source works modulo a prime or on 32-bit words this is written
out. Sizes fixed in the source (251 and 252 bits, 248 + 4 bits of the hash) are parameters with
the inequalities the source asserts. Hash functions are parameters; `CollisionFree`, `Ideal` and
injectivity of a hash are explicit hypotheses where they are needed, and several results hold for
every hash.

Where the code differs from what its documentation says or from what one may expect, the model
follows the code:

* the preimage dictionary of the Patricia construction holds the edges only, although its
  documentation lists binary nodes too;
* a leaf whose value is the hash of a recorded edge is decoded as that edge
  (`GetChildrenEverywhere` gives the exact condition, `LeafTakenForEdge` a tree);
* `compute_merkle_root` lets negative leaf numbers through its closing check and may then return a
  value that was written as a leaf (`NegativeLeaf`);
* `_get_leaves` of a Patricia node refuses an index out of range only in some trees: a negative one
  exactly if the first leaf is set and no part from leaf 2^k to 2^(k + 2) is empty, and one beyond the
  last leaf exactly if the same holds counted from the last leaf; otherwise the answer is the empty leaf
  (`TreeReads`, `NegativeIndex`);
* the fast update does not refuse an address from 2^height to 2^(height + 1) but takes it modulo
  2^height (`AddressWraps`), and it fails on height 0, where the other update works;
* a transform of length 1 returns its input unreduced;
* page sizes come in the order of the raw keys, so from ten pages on decimal keys put them out of
  order (`PageOrderGuaranteed`, `DecimalKeysAscend`);
* a refused `setnx_value` of the deterministic gated storage can overwrite the stored value
  (`DeterministicSetnxIs` gives the exact condition);
* the BLAKE2s counter has one word, so the schedule is the standard one below 2^32 bytes only.

## Model

| member | source | states |
|---|---|---|
| UpdateTree.BuildUpdateTree | src/starkware/starkware_utils/commitment_tree/update_tree.py:143-167 | the layer-by-layer construction fails exactly when a modification is out of range, and otherwise equals the recursive split of the modifications, the last write per index winning |
| UpdateTree.SplitWellFormed | src/starkware/starkware_utils/commitment_tree/update_tree.py:143-167 | the update tree has leaf updates at height 0 only and never a pair of two empty halves |
| UpdateTree.SplitLookup | src/starkware/starkware_utils/commitment_tree/update_tree.py:143-167 | every index holds exactly its modification |
| UpdateProtocol.CutStep | src/starkware/starkware_utils/commitment_tree/update_tree.py:55-111 | whatever task of whatever reachable state runs next, the state still covers the tree once, no check fails, and the remaining work drops by exactly one |
| UpdateProtocol.EverySchedule | src/starkware/starkware_utils/commitment_tree/update_tree.py:52-125 | no schedule fails; each stops after the same number of steps; when it stops the dictionary holds one entry, at index 1, the recursive calculation |
| UpdateProtocol.LeavesCoveredOnce | src/starkware/starkware_utils/commitment_tree/update_tree.py:62-72 | in every reachable state each leaf has exactly one owner among the pending nodes and the finished entries |
| UpdateProtocol.SiblingsCombinedOnce | src/starkware/starkware_utils/commitment_tree/update_tree.py:55-72 | two finished siblings coexist exactly while one worker combines these two values: no combination is lost or run twice |
| UpdateProtocol.Traverse | src/starkware/starkware_utils/commitment_tree/merkle_tree/traverse_tree.py:16-62 | the work list ends with the recursive calculation, for any choice of the next task |
| Calculation.FullCalculateAdds | src/starkware/starkware_utils/commitment_tree/calculation.py:86-106 | evaluating into a dictionary adds what evaluating into an empty one gives, for every hash |
| Calculation.ExecutorInOrder | src/starkware/starkware_utils/commitment_tree/calculation.py:122-159 | at every depth the executor gives the result of the sequential evaluation, and the same facts when merged in dependency order |
| Calculation.ExecutorAnyOrder | src/starkware/starkware_utils/commitment_tree/calculation.py:122-159 | under a collision-free hash the result and what is left in any dictionary are those of the sequential evaluation, for every order in which the tasks complete |
| Calculation.ExecutorAnyOrderKeys | src/starkware/starkware_utils/commitment_tree/calculation.py:122-159 | the recorded hashes are the same for every completion order and every starting dictionary, whatever the hash |
| Calculation.NodeFactDict.Update | src/starkware/starkware_utils/commitment_tree/calculation.py:31-33 | the dictionary becomes its union with the other one, the other one winning |
| Calculation.FullCalculateInto | src/starkware/starkware_utils/commitment_tree/calculation.py:86-106 | the in-place evaluation on a shared dictionary computes the recursive one and fails exactly when it does |
| Calculation.FullCalculateWithExecutor | src/starkware/starkware_utils/commitment_tree/calculation.py:122-159 | merging the finished tasks into any dictionary in any order gives the result and dictionary of the sequential evaluation |
| PatriciaTree.NodeChildrenShow | src/starkware/starkware_utils/commitment_tree/patricia_tree/virtual_patricia_node.py:102-164 | the children of a node that stands for an array stand for its two halves, whether the node is held as an edge, as a hash of an edge, as a hash of a binary node or empty |
| PatriciaTree.CommitEvaluates | src/starkware/starkware_utils/commitment_tree/patricia_tree/virtual_calculation_node.py:277-286 | committing evaluates to the root of the array of the node and generates the facts the storage lacks |
| PatriciaTree.DecommitDenotes | src/starkware/starkware_utils/commitment_tree/patricia_tree/virtual_calculation_node.py:236-275 | decommitting never fails and gives the canonical form of the same array |
| PatriciaTree.CombineDenotes | src/starkware/starkware_utils/commitment_tree/patricia_tree/virtual_calculation_node.py:159-234 | combining nodes for two arrays never fails and gives a node for the joined array |
| PatriciaUpdate.ResultDenotes | src/starkware/starkware_utils/commitment_tree/update_tree.py:86-125 | the calculation node of an update stands for the array overwritten by the update |
| PatriciaUpdate.Update | src/starkware/starkware_utils/commitment_tree/patricia_tree/patricia_tree.py:68-89 | fails exactly on a modification out of range; otherwise the new root is that of the modified leaves, all facts of the new tree are stored, nothing stored is lost and no other facts are added |
| PatriciaUpdate.EmptyTreeRepresents | src/starkware/starkware_utils/commitment_tree/patricia_tree/patricia_tree.py:39-51 | the empty tree stands for the all-zero array of its height |
| PatriciaUpdate.UpdateAll | src/starkware/starkware_utils/commitment_tree/patricia_tree/patricia_tree.py:68-89 | after any sequence of batches the root and the stored facts are those of the accumulated leaves |
| PatriciaUpdate.PatriciaHeights | src/starkware/starkware_utils/commitment_tree/patricia_tree/virtual_patricia_node.py:102-164 | the children of a Patricia node are one height below it, in every storage |
| PatriciaUpdate.UpdateCoversOnce | src/starkware/starkware_utils/commitment_tree/update_tree.py:52-125 | in every state that a schedule of the update of a Patricia tree reaches, each leaf has one owner and finished siblings coexist only while one worker combines them |
| EdgePaths.EdgeOfBottom | src/starkware/starkware_utils/commitment_tree/patricia_tree/fast_patricia_update.py:517-541 | where all leaves off a path are empty, the node of the whole is the node below the path with its edge lengthened by the path |
| EdgePaths.EdgeSplits | src/starkware/starkware_utils/commitment_tree/patricia_tree/fast_patricia_update.py:410-418 | an edge cut into two parts: after the first part there is a shorter edge along the second part to the same bottom, and nothing elsewhere |
| LeafIndices.SplitIs | src/starkware/starkware_utils/commitment_tree/patricia_tree/fast_patricia_update.py:547-557 | cutting the sorted leaf numbers at the first leaf of the right child gives the lists of the two children |
| LeafIndices.LcaIs | src/starkware/starkware_utils/commitment_tree/patricia_tree/fast_patricia_update.py:560-570 | the path computed from the first and the last leaf leads to a node above all of them, and is not empty if they are on one side |
| LeafIndices.CommonPrefix | src/starkware/starkware_utils/commitment_tree/patricia_tree/fast_patricia_update.py:405-417 | the shifts and the exclusive or find a common beginning of the edge and the path to the leaves, which is not empty if their first steps agree |
| FastUpdate.TreeContext.FetchNodes | src/starkware/starkware_utils/commitment_tree/patricia_tree/fast_patricia_update.py:228-310 | no lookup fails, every node set is the old node or new leaf of its number, and every node that the update reads is set |
| FastUpdate.TreeContext.ConstructEdgeNode | src/starkware/starkware_utils/commitment_tree/patricia_tree/fast_patricia_update.py:517-541 | an edge over a node for the leaves below is a node for all leaves; a binary bottom goes into its layer first |
| FastUpdate.TreeContext.ConstructBinaryNode | src/starkware/starkware_utils/commitment_tree/patricia_tree/fast_patricia_update.py:485-514 | from nodes for two halves, either of which may have become empty, it builds a node for the whole, and no layer is skipped |
| FastUpdate.TreeContext.UpdateEmptyNode | src/starkware/starkware_utils/commitment_tree/patricia_tree/fast_patricia_update.py:447-482 | under an empty node it builds a node for the new leaves |
| FastUpdate.TreeContext.UpdateEdgeNode | src/starkware/starkware_utils/commitment_tree/patricia_tree/fast_patricia_update.py:353-436 | an edge is forked, shortened, kept or lengthened into a node for the new leaves |
| FastUpdate.TreeContext.UpdateNonemptyNode | src/starkware/starkware_utils/commitment_tree/patricia_tree/fast_patricia_update.py:313-350 | every fetched node is turned into a node for the new leaves, and no assertion fails |
| FastUpdate.UpdateStructure | src/starkware/starkware_utils/commitment_tree/patricia_tree/fast_patricia_update.py:192-225 | the layers hold nodes of the new tree only, each after the nodes it depends on, and the root among them |
| FastFacts.OneHash | src/starkware/starkware_utils/commitment_tree/patricia_tree/fast_patricia_update.py:145-179 | what a node reads is there; its hash is the root of its leaves, and with its fact all facts of its subtree are stored |
| FastUpdate.CalculateInnerNodeFacts | src/starkware/starkware_utils/commitment_tree/patricia_tree/fast_patricia_update.py:134-186 | for any order within the layers, the root is that of the new leaves, and the facts are facts of the new tree and complete it |
| FastUpdate.UpdateTree | src/starkware/starkware_utils/commitment_tree/patricia_tree/fast_patricia_update.py:611-655 | fails exactly on height 0 with modifications; otherwise root and storage are those of the modified leaves, nothing stored is lost and only facts of the new tree are added |
| FastUpdate.AddressWraps | src/starkware/starkware_utils/commitment_tree/patricia_tree/fast_patricia_update.py:633-638 | an address one number of leaves too large is not refused and stands for the leaf at the remainder |
| FastUpdate.CompareUpdates | src/starkware/starkware_utils/commitment_tree/patricia_tree/patricia_tree.py:68-104 | `update_efficiently` and `update` from equal storages give the same root and leave the same facts of inner nodes |
| BinaryFactTree.GetLeavesIs | src/starkware/starkware_utils/commitment_tree/binary_fact_tree_node.py:73-137 | the leaves at the given indices are returned exactly when all indices are in range |
| BinaryFactTree.Traverse | src/starkware/starkware_utils/commitment_tree/binary_fact_tree_node.py:160-189 | the reports are the same multiset whatever pair of the work list is handled next |
| BinaryFactTree.DiffsAre | src/starkware/starkware_utils/commitment_tree/binary_fact_tree_node.py:160-189 | the reports are the leaves that differ, numbered by the indices of the leaves |
| BinaryFactTree.ChangedIs | src/starkware/starkware_utils/commitment_tree/binary_fact_tree_node.py:146-153 | each differing index is listed once with its old and new value, and nothing else is listed |
| BinaryFactTree.GetDiffBetweenTrees | src/starkware/starkware_utils/commitment_tree/binary_fact_tree_node.py:139-191 | fails exactly on different heights; from height 1 on it reports the differing leaves, at height 0 it always reports the one pair |
| PatriciaRead.ContentsShown | src/starkware/starkware_utils/commitment_tree/patricia_tree/virtual_patricia_node.py:102-164 | reading down from a Patricia node gives the array it stands for |
| PatriciaRead.PatriciaDiff | src/starkware/starkware_utils/commitment_tree/patricia_tree/patricia_tree.py:106-125 | the difference of two Patricia trees lists exactly the differing leaves, although equal inner nodes may be held in unequal forms |
| PatriciaRead.BelowShown | src/starkware/starkware_utils/commitment_tree/patricia_tree/virtual_patricia_node.py:216-224 | the bottom node of an edge stands for the part of the array that the path and length select |
| PatriciaRead.BelowIsBlock | src/starkware/starkware_utils/commitment_tree/patricia_tree/virtual_patricia_node.py:216-224 | all leaves of an edge outside that part are empty, and the part starts at the path shifted by its width |
| PatriciaRead.ReadLeavesIs | src/starkware/starkware_utils/commitment_tree/patricia_tree/virtual_patricia_node.py:177-256 | exactly when a node fails on a list of indices: a node held as an edge never, another one as its leaves say; an answer has the leaf of each index, and the empty leaf out of range |
| PatriciaRead.TreeReads | src/starkware/starkware_utils/commitment_tree/patricia_tree/patricia_tree.py:53-66 | every tree that an update leaves behind answers indices in range with its leaves, and fails on indices out of range exactly as its first and last leaves and the empty parts next to them say |
| PatriciaRead.NegativeIndex | src/starkware/starkware_utils/commitment_tree/patricia_tree/virtual_patricia_node.py:177-256 | at height 1 the index -1 is answered over the leaves 0 and 7 and fails over the leaves 5 and 7 |
| PatriciaEncoding.EncodeFits | src/starkware/cairo/common/patricia_utils.py:45-77 | every node has path < 2^length and length at most its height, whatever the hash |
| PatriciaEncoding.EncodeShape | src/starkware/cairo/common/patricia_utils.py:45-77 | under a collision-free hash a node is empty exactly when its bottom is 0, when its hash is 0 and when all its leaves are 0 |
| PatriciaEncoding.SingleLeaf | src/starkware/cairo/common/patricia_utils.py:45-84 | a tree whose only non-zero leaf is v at k is the edge (height, k, v), with root H(v, k) + height, whatever the hash |
| PatriciaEncoding.BothHalves | src/starkware/cairo/common/patricia_utils.py:60-71 | two non-empty halves make a binary node: the root is the hash of their roots |
| PatriciaEncoding.RootInjective | src/starkware/cairo/common/patricia_utils.py:45-77 | under a collision-free non-zero hash equal roots mean equal leaf arrays |
| PatriciaEncoding.CanonicRecovers | src/starkware/cairo/common/patricia_utils.py:229-239 | the canonic form of a node hash is the node: always above the leaves, and at a leaf exactly when its value is not the hash of a recorded edge |
| PatriciaEncoding.GetChildrenInvertsJoin | src/starkware/cairo/common/patricia_utils.py:87-100 | decoding inverts one layer of the construction, with the exact condition on the layer over the leaves |
| PatriciaEncoding.StoredIs | src/starkware/cairo/common/patricia_utils.py:80-100 | the recursive notion of a stored tree means that the fact of every node of the tree is stored, and nothing more |
| PatriciaEncoding.SameStore | src/starkware/starkware_utils/commitment_tree/patricia_tree/patricia_tree.py:68-104 | two storages that complete the same tree from the same facts, adding only facts of that tree, are equal |
| PatriciaBuild.LayerAt | src/starkware/cairo/common/patricia_utils.py:55-76 | the entry of a layer at the number of a path is the encoding of the leaves below that path |
| PatriciaBuild.ComputePatricia | src/starkware/cairo/common/patricia_utils.py:31-77 | fails exactly when the length is no power of two; otherwise root, node dictionary and recorded edges are those of the recursive encoding |
| PatriciaBuild.GetChildrenEverywhere | src/starkware/cairo/common/patricia_utils.py:87-100 | decoding inverts the construction at every height and position, exactly unless a leaf has the value of a recorded edge |
| PairingHash.ScaledIsCollisionFree | src/starkware/cairo/common/patricia_utils.py:45-51 | there is a hash for which edges and binary nodes never collide and never hash to 0 |
| PairingHash.LeafTakenForEdge | src/starkware/cairo/common/patricia_utils.py:87-100 | over the leaves 9 and 7 the root decodes to an edge in place of the leaf 9, under a collision-free hash |
| Descents.GetDescents | src/starkware/cairo/common/patricia_utils.py:126-184 | the loop that follows all trees and the two recursive calls give the recursive search |
| Descents.WalkMaximal | src/starkware/cairo/common/patricia_utils.py:155-173 | the loop stops at the end of a common descent that cannot be extended |
| Descents.WalkUnique | src/starkware/cairo/common/patricia_utils.py:155-173 | there is only one such descent |
| Descents.SearchSound | src/starkware/cairo/common/patricia_utils.py:126-184 | every entry is a maximal descent of length above 1 whose off-path nodes are empty in all trees |
| Descents.SearchComplete | src/starkware/cairo/common/patricia_utils.py:126-184 | every such descent is found, with its length and path |
| Descents.NoNesting | src/starkware/cairo/common/patricia_utils.py:126-184 | no search starts inside a descent or at its end |
| Descents.NoEntryInside | src/starkware/cairo/common/patricia_utils.py:126-184 | the map has no entry inside a descent, nor at its end |
| PatriciaSiblings.PreimageTreeIsShape | src/starkware/cairo/common/patricia_utils.py:103-119 | opening the root of a stored tree shows where its leaves are non-zero, also when a leaf has the value of a recorded edge |
| SiblingPaths.PathsAre | src/starkware/cairo/common/patricia_utils.py:187-214 | the paths listed for an update tree are exactly those of the empty sides of its nodes |
| SiblingPaths.PathsOrder | src/starkware/cairo/common/patricia_utils.py:196-214 | of two listed paths the earlier one takes, where they part, the untraversed side, or the left one of two traversed sides |
| SiblingPaths.BeforeIsStrict | src/starkware/cairo/common/patricia_utils.py:196-214 | so no path is listed twice |
| PatriciaSiblings.FullIs | src/starkware/cairo/common/patricia_utils.py:187-214 | the list without descents never fails on the nodes of a tree and holds, path by path, the root of the leaves below it |
| PatriciaSiblings.CompressedSiblings | src/starkware/cairo/common/patricia_utils.py:187-226 | with the descents of the same trees the zero-prefix assertion never fails; the compressed list with the descents determines the full list, which holds the roots of the subtrees of the untraversed siblings in their order |
| PatriciaSiblings.GuessedDescentsCompress | src/starkware/cairo/common/patricia_utils.py:242-249 | the same for the update tree of any non-empty modifications in range and the preimages of the old and new trees; the roots are those of the old tree |
| SmallMerkleTree.AbsentHash | src/starkware/cairo/common/small_merkle_tree.py:12-17 | a subtree without set leaves has the hash of the empty tree of its height |
| SmallMerkleTree.PassProgress | src/starkware/cairo/common/small_merkle_tree.py:37-47 | a pass over one layer brings that layer up to date, given that the indices cover what changed, and the next indices cover what changed above |
| SmallMerkleTree.ClosingCheck | src/starkware/cairo/common/small_merkle_tree.py:48 | the closing assertion holds exactly when all leaf numbers are from -2^height up to 2^height - 1 |
| SmallMerkleTree.MerkleTree.constructor | src/starkware/cairo/common/small_merkle_tree.py:7-19 | the new tree stands for the empty leaf map |
| SmallMerkleTree.MerkleTree.HashLayer | src/starkware/cairo/common/small_merkle_tree.py:38-47 | popping the indices in any order recomputes exactly these nodes from the layer below and records each preimage |
| SmallMerkleTree.MerkleTree.ComputeMerkleRoot | src/starkware/cairo/common/small_merkle_tree.py:21-49 | for leaves in range the root is the full tree hash of the accumulated leaf map with defaults, a node that is not stored has no set leaf below, and every preimage entry hashes to its key; leaf numbers -2^height and 1 - 2^height leave the root as last written, without a hash |
| SmallMerkleTree.NegativeLeaf | src/starkware/cairo/common/small_merkle_tree.py:21-49 | in a fresh tree of height 1, writing a value to leaf -1 returns that value as the root |
| SmallMerkleTree.OpensChildren | src/starkware/cairo/common/small_merkle_tree.py:41-44 | under a collision-free hash every node above a set leaf is opened to its two children |
| SmallMerkleTree.GetPreimageDictionary | src/starkware/cairo/common/small_merkle_tree.py:52-72 | both roots are full tree hashes, and the dictionary opens every node above a set leaf of both trees |
| NumberTheory.DivModCorrect | src/starkware/python/math_utils.py:32-38 | `div_mod` succeeds exactly when the divisor is not a multiple of the prime, and then gives the quotient below the prime |
| NumberTheory.DivModUnique | src/starkware/crypto/signature/math_utils.py:51-57 | the quotient is the only solution below the prime |
| NumberTheory.Fermat | src/starkware/python/math_utils.py:355-370 | Fermat's little theorem, which makes the powers in `ifft` inverses |
| Fft.FftEvaluates | src/starkware/python/math_utils.py:311-324 | the even/odd recursion evaluates the polynomial at every power of the generator |
| Fft.Fft | src/starkware/python/math_utils.py:305-345 | the loop that lists the sample points, the transform and the permutation compute the specified transform |
| Fft.TransformLength | src/starkware/python/math_utils.py:326-330 | both transforms fail exactly on a non-empty length that is no power of two |
| Fft.TransformEvaluates | src/starkware/python/math_utils.py:305-345 | for a generator of the order of the length, entry i is the value at the i-th power, or at the power of the reversed index |
| Fft.ReverseBitsTwice | src/starkware/python/math_utils.py:340-343 | bit reversal is an involution |
| Fft.ReverseBitsDigit | src/starkware/python/math_utils.py:340-343 | binary digit j of the permuted index is digit width - 1 - j of the index |
| Fft.Orthogonal | src/starkware/python/math_utils.py:348-370 | the powers of a root of unity other than 1 add up to 0 |
| Fft.Ifft | src/starkware/python/math_utils.py:348-370 | the inverse method computes the specified inverse |
| Fft.InverseOfTransform | src/starkware/python/math_utils.py:305-370 | `ifft` after `fft` gives the coefficients modulo the prime, in either order of the values |
| Fft.TransformOfInverse | src/starkware/python/math_utils.py:305-370 | `fft` after `ifft` gives the values modulo the prime, in either order |
| Curve.SameX | src/starkware/crypto/signature/math_utils.py:60-77 | two points share their x coordinate exactly when they are equal or opposite |
| ChordLaw.AddIsChord | src/starkware/crypto/signature/math_utils.py:60-69 | without assuming a group: `ec_add` of points of the curve fails exactly on equal x; otherwise the result is a reduced point of the curve, its mirror image is on the line through both points, and that line meets the curve at the three x coordinates and nowhere else |
| ChordLaw.DoubleIsTangent | src/starkware/crypto/signature/math_utils.py:80-89 | `ec_double` fails exactly where 2y = 0; otherwise the same with the tangent, the point counted twice |
| ChordLaw.ThirdUnique | src/starkware/crypto/signature/math_utils.py:60-89 | over an odd prime field the line and its two known roots leave one point only |
| Curve.AddIs | src/starkware/crypto/signature/math_utils.py:60-69 | `ec_add` fails exactly on equal x coordinates and otherwise adds |
| Curve.MultIs | src/starkware/crypto/signature/math_utils.py:92-101 | `ec_mult` never fails below the order of the group, and multiplies |
| Curve.SafeAddIs | src/starkware/python/math_utils.py:183-200 | `ec_safe_add` never fails and is the group operation, infinity included |
| Curve.SafeMultIs | src/starkware/python/math_utils.py:215-227 | `ec_safe_mult` never fails and multiplies, for every multiplier and point |
| Ecdsa.AirIs | src/starkware/crypto/signature/signature.py:182-190 | the loop succeeds exactly when no addition meets equal x coordinates, and then yields shift + m * point |
| Ecdsa.AirClearIs | src/starkware/crypto/signature/signature.py:183-188 | what each round must avoid, in terms of the low bits of m |
| Ecdsa.MimicEcMultAir | src/starkware/crypto/signature/signature.py:176-190 | the method computes these rounds, with the range check on m |
| Ecdsa.Sign | src/starkware/crypto/signature/signature.py:137-173 | refuses a message out of range, and otherwise the first usable nonce decides |
| Ecdsa.TryIs | src/starkware/crypto/signature/signature.py:146-173 | no round of `sign` fails; a returned signature has r in range, its w is recovered from s, and w * (msg + r * key) is the nonce; a nonce is used exactly under the condition of `NonceUsed` |
| Ecdsa.NonceUsed | src/starkware/crypto/signature/signature.py:155-172 | a nonce k is used exactly if r is in range, msg + r * key is not 0 modulo the order, and some w in range has w * (msg + r * key) = k |
| Ecdsa.VerifyPointIs | src/starkware/crypto/signature/signature.py:217-260 | `verify` raises exactly on a failed range check, and otherwise accepts exactly when the message is not 0, no addition meets equal x coordinates and w * (msg * G + r * Q) has x coordinate r |
| Ecdsa.VerifyAnyKey | src/starkware/crypto/signature/signature.py:217-260 | for any point with reduced coordinates as the key: off the curve `verify` raises, on the curve the point is the key of some private key and the same holds |
| Ecdsa.SignedIsAccepted | src/starkware/crypto/signature/signature.py:137-260 | what one nonce signs is accepted exactly when the message is not 0 and no addition meets equal x coordinates |
| Ecdsa.SignThenVerify | src/starkware/crypto/signature/signature.py:137-260 | the same for `sign` with any sequence of nonces and the public key computed from the private key |
| Ecdsa.ZeroIsRejected | src/starkware/crypto/signature/signature.py:181 | no signature of the message 0 is accepted |
| Ecdsa.GetYIs | src/starkware/crypto/signature/signature.py:84-96 | the y coordinate found belongs to the key or to its opposite |
| Ecdsa.VerifyXIs | src/starkware/crypto/signature/signature.py:229-238 | with an x coordinate only, `verify` accepts exactly what it accepts for one of the two points |
| Ecdsa.VerifyXInvalid | src/starkware/crypto/signature/signature.py:232-235 | a number that is the x coordinate of no point is rejected without an exception |
| Pedersen.GenerateConstantPoints | src/starkware/crypto/signature/nothing_up_my_sleeve_gen.py:73-91 | the nested loops compute the specified table |
| Pedersen.GenerateIsTable | src/starkware/crypto/signature/nothing_up_my_sleeve_gen.py:85-91 | the table holds, per element, the doublings of two points for the low and the high bits |
| Pedersen.PedersenHashAsPoint | src/starkware/crypto/signature/signature.py:300-318 | the nested loops compute the specified bitwise hash |
| Pedersen.BitwiseIs | src/starkware/crypto/signature/signature.py:300-318 | the bitwise hash rejects exactly elements outside the field and unhashable inputs, and otherwise is the sum of the weighed points |
| Pedersen.FastHashIs | src/starkware/crypto/signature/fast_pedersen_hash.py:26-44 | the fast form never fails on field elements, and is the same sum, infinity included |
| Pedersen.FastEqualsBitwise | src/starkware/crypto/signature/fast_pedersen_hash.py:34-44 | whenever the bitwise hash does not reject its two inputs the fast form gives the same point |
| OutputRoot.RunInv | src/starkware/cairo/bootloaders/compute_fact.py:53-83 | in every state of a run the stack tiles the consumed output, sizes add up, and its pages with those left are the pages in order |
| OutputRoot.RunFits | src/starkware/cairo/bootloaders/compute_fact.py:57-88 | which tree structures are accepted depends on the number of pages only |
| OutputRoot.GenerateOutputRoot | src/starkware/cairo/bootloaders/compute_fact.py:47-91 | the in-place stack machine computes the specified root |
| OutputRoot.RootIs | src/starkware/cairo/bootloaders/compute_fact.py:47-91 | there is a root exactly when the tree fits the pages and the page sizes add up to the output; its leaves are the pages in order, every hash commits to what the node covers, and read in post-order it is the shifts and reduces that the tree structure lists |
| OutputRoot.RunOrder | src/starkware/cairo/bootloaders/compute_fact.py:53-83 | a run from any state appends to the post-order of the stack exactly what the tree structure lists, a reduce of no nodes being nothing |
| OutputRoot.RootOnly | src/starkware/cairo/bootloaders/compute_fact.py:47-91 | the root is the only tree over these pages with that post-order whose hashes commit to what its nodes cover |
| OutputRoot.RootBinds | src/starkware/cairo/bootloaders/compute_fact.py:47-91 | under a collision-free hash equal root hashes mean equal outputs, cut into equal pages under equal trees |
| FactTopology.GetPageSizesFromPageDict | src/starkware/cairo/bootloaders/fact_topology.py:66-110 | the loop over the sorted pages computes the specified checks and sizes |
| FactTopology.PageSizesAccepts | src/starkware/cairo/bootloaders/fact_topology.py:85-108 | a dictionary is accepted exactly when its pages, suitably arranged, are numbered from 1, follow each other and end with the output |
| FactTopology.PageSizesTotal | src/starkware/cairo/bootloaders/fact_topology.py:66-110 | the returned sizes add up to the output size, in whatever order the raw keys come |
| FactTopology.OrderKept | src/starkware/cairo/bootloaders/fact_topology.py:110 | raw keys in page order give the sizes in page order |
| FactTopology.OrderLost | src/starkware/cairo/bootloaders/fact_topology.py:110 | raw keys in another order give some accepted pages out of order |
| FactTopology.PageOrderGuaranteed | src/starkware/cairo/bootloaders/fact_topology.py:110 | the sizes of all dictionaries with given keys come in page order exactly when the raw keys ascend in page order |
| FactTopology.TopologyIs | src/starkware/cairo/bootloaders/fact_topology.py:113-142 | an attribute is taken exactly if it holds one to five pairs of numbers below 2^30; without one there is the single page only; the page sizes are those of the dictionary |
| FactTopology.DecimalKeysAscend | src/starkware/cairo/bootloaders/fact_topology.py:110 | decimal keys ascend up to nine pages and never from ten on |
| FactTopology.GetAggregatorInputSize | src/starkware/cairo/bootloaders/aggregator_utils.py:7-20 | the loop over the tasks computes the offset after them |
| FactTopology.InputIsRead | src/starkware/cairo/bootloaders/aggregator_utils.py:7-20 | the number of tasks followed by task outputs that each begin with their length is read exactly to its end |
| FactTopology.SkippedAreTasks | src/starkware/cairo/bootloaders/aggregator_utils.py:14-18 | whatever is skipped inside the output is such task outputs, all of them unless a size of 0 stops the count |
| FactTopology.CutInputCovers | src/starkware/cairo/bootloaders/generate_fact.py:57-73 | after the aggregator rewrite the page sizes still add up to the output |
| FactTopology.CutInputIs | src/starkware/cairo/bootloaders/generate_fact.py:57-73 | from a count, that many task outputs and a rest, the rewrite keeps the rest and takes the others off page 0, or fails if page 0 is smaller |
| FactTopology.GetFactInfo | src/starkware/cairo/bootloaders/generate_fact.py:37-77 | once the topology and the aggregator input are accepted, the fact fails only on a tree that does not fit the pages: the closing offset check cannot fail |
| GatedStorage.GatedStorage.SetValue | src/starkware/storage/gated_storage.py:31-47 | with a fresh secondary key one entry of the plain map behind the two stores is set, and the stores stay sound |
| GatedStorage.GatedStorage.SetnxValue | src/starkware/storage/gated_storage.py:49-50 | with a fresh secondary key it answers whether the plain map lacked the key and sets the entry exactly then, although the secondary store is written first |
| GatedStorage.GatedStorage.GetValue | src/starkware/storage/gated_storage.py:52-60 | returns the entry of the plain map; a dangling reference occurs in unsound stores only |
| GatedStorage.GatedStorage.DelValue | src/starkware/storage/gated_storage.py:72-83 | one entry of the plain map is removed, the stores stay sound, the large value is gone from the secondary storage and no new leftover appears there |
| GatedStorage.SetIs | src/starkware/storage/gated_storage.py:31-47 | with a fresh secondary key one entry of the plain map is set, also for values that begin with the header |
| GatedStorage.SetnxIs | src/starkware/storage/gated_storage.py:49-50 | with a fresh secondary key it writes exactly if the key was absent, and a refused write leaves the map unchanged |
| GatedStorage.GetIs | src/starkware/storage/gated_storage.py:52-67 | a read never meets a dangling reference and returns the entry of the plain map |
| GatedStorage.DeleteIs | src/starkware/storage/gated_storage.py:72-83 | a delete removes one entry of the plain map |
| GatedStorage.DeleteLeaves | src/starkware/storage/gated_storage.py:72-83 | the target of a removed reference is not in the secondary storage, and the values there that no reference leads to are those from before |
| GatedStorage.RunRefines | src/starkware/storage/gated_storage.py:11-86 | every run with fresh secondary keys answers as one plain map does |
| GatedStorage.RunPlaced | src/starkware/storage/gated_storage.py:106-116 | over every run with fresh secondary keys exactly the values that begin with the header, or that exceed the limit with their key and the buffer, are behind a reference |
| GatedStorage.DeterministicSetnxIs | src/starkware/storage/gated_storage.py:89-95 | the deterministic storage answers a setnx as a plain map exactly unless the key holds another compressed value and the new value is compressed |
| GatedStorage.DeterministicSetnxFails | src/starkware/storage/gated_storage.py:89-95 | two values that begin with the header, written under one key, are a counterexample |
| GatedStorage.DeterministicRunRefines | src/starkware/storage/gated_storage.py:89-95 | every run without such a setnx answers as a plain map does |
| CachedStorage.StepCoherent | src/starkware/storage/dict_storage.py:55-139 | every call keeps each cached entry equal to the stored value, also a write that fails after writing none, some or all keys |
| CachedStorage.StepRefines | src/starkware/storage/dict_storage.py:55-139 | every call does and returns what the storage itself might |
| CachedStorage.RunRefines | src/starkware/storage/dict_storage.py:55-139 | every sequential run from an empty cache, with any evictions, is a run of the storage itself |
| CachedStorage.CachedStorage.SetValue | src/starkware/storage/dict_storage.py:55-67 | fails exactly when a write that is needed fails, and then drops the key alone; otherwise the value is cached and stored; the cache stays coherent and bounded |
| CachedStorage.CachedStorage.SetnxValue | src/starkware/storage/dict_storage.py:69-75 | reports a write exactly when the storage, not the cache, had no such key; caches the value only then |
| CachedStorage.CachedStorage.GetValue | src/starkware/storage/dict_storage.py:77-88 | returns what the storage holds, which is cached afterwards if there is a value |
| CachedStorage.CachedStorage.Mset | src/starkware/storage/dict_storage.py:93-107 | writes the updates the cache does not hold, and drops their keys when the write fails |
| CachedStorage.CachedStorage.Mget | src/starkware/storage/dict_storage.py:109-139 | returns what the storage holds for each key, repeated keys included |
| Blake2s.EncodeWords | src/starkware/cairo/common/cairo_blake2s/blake2s_utils.py:144-154 | the nested loops compute the specified encoding, in both byte orders |
| Blake2s.LeadingWord | src/starkware/cairo/common/cairo_blake2s/blake2s_utils.py:146-149 | the most significant word tells a 2-word from an 8-word element |
| Blake2s.LittleIsReversedBig | src/starkware/cairo/common/cairo_blake2s/blake2s_utils.py:150-154 | the little-endian stream read backwards is the big-endian stream of the data read backwards |
| Blake2s.RoundTrip | src/starkware/cairo/common/cairo_blake2s/blake2s_utils.py:144-154 | the words can be decoded to the reduced elements: from the front in big-endian, from the back in little-endian |
| Blake2s.EncodeInjective | src/starkware/cairo/common/cairo_blake2s/blake2s_utils.py:144-154 | two lists have the same words exactly when they have the same residues |
| Blake2s.HashWords | src/starkware/cairo/common/cairo_blake2s/blake2s_utils.py:166-182 | the block loop makes the specified calls, one after the other |
| Blake2s.BlockIs | src/starkware/cairo/common/cairo_blake2s/blake2s_utils.py:170-172 | the padded slice is the block of the message |
| Blake2s.ScheduledWord | src/starkware/cairo/common/cairo_blake2s/blake2s_utils.py:169-182 | word j of call i is word 16 i + j of the stream, or 0 past its end |
| Blake2s.Schedule | src/starkware/cairo/common/cairo_blake2s/blake2s_utils.py:169-182 | block i has the words of the message by index, counter min(64 (i + 1), total), and the final flag exactly on the last block, also for empty input |
| Blake2s.ScheduleIsStandard | src/starkware/cairo/common/cairo_blake2s/blake2s_utils.py:169-182 | the calls are those of section 3.3 of RFC 7693 exactly on inputs below 2^32 bytes |
| Blake2s.BlakeStateIntoFelt | src/starkware/cairo/common/cairo_blake2s/blake2s_utils.py:115-120 | the digest is the number with the state words modulo 2^32 as digits, reduced; words of 32 bits are taken as they are |
| Blake2s.CalculateHash | src/starkware/cairo/common/cairo_blake2s/blake2s_utils.py:123-184 | below 2^32 bytes the result is the digest of the standard calls on the encoded words, reduced |
| Witnesses.SmallIsScheme | src/starkware/crypto/signature/math_utils.py:60-101 | the curve y^2 = x^3 + x + 1 over GF(7), with five points, meets the hypotheses on the curve and on the scheme |
| Witnesses.EvenCodeIsIdeal | src/starkware/cairo/bootloaders/compute_fact.py:47-91 | there is a hash of lists for which page hashes and node hashes never collide |

## Left out

- The order of the work list of `traverse_tree`, its worker count and its shutdown: every order they allow is one of the schedules.
- asyncio, executors and threads: only the suspension points and the order of completion are kept.
- The optional `facts` dictionaries that the tree functions fill for witnesses.
- `_decommit` of a node whose bottom is an edge calculation is modelled, but no such node is ever built.
- Leaf facts are a hash with an emptiness flag; their serialisation and the prefixes of storage keys are not modelled.
- Missing leaf facts (`get_or_fail` on a leaf): leaves are compared and returned by hash.
- `fetch_witnesses`, and in fast_patricia_update.py the database keys of modified leaves and addresses that are negative or from 2^(height + 1) on.
- FastUpdate.CompareUpdates: says nothing of the leaf facts, since only the fast update also stores those that a later modification of the same leaf replaces.
- The lazy generator `preimage_tree` is opened completely.
- `igcdex` is modelled by extended Euclid; only the residue of its coefficient matters.
- numpy integer widths in `fft`: mathematical integers.
- The group law of the curve, RFC 6979, SHA-256, Keccak and the digits of pi: a hypothesis, and parameters.
- fastecdsa points in the fast Pedersen hash are modelled by the total addition and multiplication of python/math_utils.py.
- `int()` of a page key and the conversion of output words to bytes are parameters; output words are non-negative.
- `compute_program_hash_chain` and the aggregator prefix of the program hash.
- The BLAKE2s compression function is a parameter that takes its counter modulo 2^32; only its calls are modelled.
- Metrics and recency in `CachedStorage` (any entry may be evicted), concurrent calls, and a maximum size of 0.
- A storage that fails inside `GatedStorage`.
- SmallMerkleTree.MerkleTree.ComputeMerkleRoot: for other negative leaf numbers, which overwrite inner nodes that are hashed again, it does not give the root; it then depends on the order in which a set is popped.
- Ecdsa.VerifyPointIs: keys are multiples of the generator, and in VerifyAnyKey points with reduced coordinates.
- The Starknet compiler passes, the assembler, command line tools, clients and configuration.
