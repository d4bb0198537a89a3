# Blockchain structure in Dafny

This project models a small Java blockchain library.

- **Transactions** are immutable records of a sender, a receiver, an amount and a fee.
- **Priority line.** Transactions wait in a priority line that keeps the highest fee at the front. The line is built on a singly linked list with a comparator-driven `insert`.
- **Blocks.** The blockchain constructor drains the line into blocks. Each block collects transactions until its fees reach a threshold. A trailing block with positive fees is also kept.
- **Merkle tree.** The tree of a block hashes every transaction's text with SHA-256 and pads the leaves with digests of `"DUMMY"` up to a power of two that is at least 2. It then pairs the nodes front to back through a work list, with a byte-wise XOR pair hash, until one root is left. That root hash is written back into the block.
- **Proofs.** The tree answers breadth-first and depth-first traversals and extracts inclusion proofs. `Utilities.verifyTransaction` folds a proof back to a root hash behind a guard on the proof's length.

How the model is built:

- **Imperative parts** are Dafny classes with `modifies` and `reads` frames: the linked list and its iterator, the priority line, the block, the blockchain, and the tree's constructor, padding, `makeTree` and breadth-first traversal.
- Each method is proved against a specification function on ghost contents:
  - `InsertAt` and `InsertionIndex` for `insert`;
  - `Batch` for the blockchain constructor;
  - `PaddedLeaves` and `Build` for the tree;
  - `LevelOrder` for the breadth-first walk;
  - `Fold` and `Accepts` for `verifyTransaction`.
- Lemmas state what the source promises about those functions:
  - the tree is perfect, with `2^h` leaves and `2^h - 1` inner nodes;
  - every extracted proof folds back to the root;
  - the breadth-first order lists the root first and the leaves last;
  - the line stays ordered by fee and is a permutation of what was enqueued;
  - blocks reach the threshold and cover the line in order;
  - the hex encoding round-trips;
  - the pair hash is symmetric.
- **Pure parts** are functions over a `Tree` datatype: the depth-first helpers, `findProof` and `extractProof`. A Merkle `Node` is never changed after it is built, and `Nil` stands for `null`.
- **SHA-256** is a parameter `sha`: any function from strings to 32-byte digests.
- **Exceptions and faults.** A thrown exception or a null dereference becomes `Fail(...)` of the `Result` datatype.

## Model

| member | source | states |
|---|---|---|
| Transactions.CompareTo | Transaction.java:64-72 | 1, -1 or 0 exactly when the first fee is greater than, less than or equal to the second |
| Transactions.CompareToAntisymmetric | Transaction.java:64-72 | swapping the two transactions negates the comparison |
| Transactions.CompareToOnlyFee | Transaction.java:64-72 | the comparison depends on the two fees alone |
| Transactions.DecimalRoundTrip | Transaction.java:42-44 | the `%d` rendering of any integer, sign included, parses back to that integer |
| Transactions.NatToDecimalRoundTrip | Transaction.java:42-44 | the digits of a natural number read back to the number |
| Transactions.DecimalHasNoSpace | Transaction.java:42-44 | a decimal rendering contains no space |
| Transactions.ToStringHasThreeSpaces | Transaction.java:42-44 | the canonical text of a transaction holds at least the three separating spaces |
| Transactions.ToStringIsNotDummy | Transaction.java:42-44 | no transaction's text equals the padding preimage `DUMMY`, so no real leaf is hashed from the dummy text |
| Transactions.ToStringInjective | Transaction.java:42-44 | two transactions whose names contain no space have the same text only when they are equal |
| Transactions.NumbersInjective | Transaction.java:42-44 | the `amount fee` tail of the text determines both numbers |
| Utilities.HexByte | Utilities.java:86-92 | a byte `0xff & b` becomes exactly two lowercase hex digits, with a leading `0` under 16, whose value is the byte |
| Utilities.ToHexString | Utilities.java:87-88 | `Integer.toHexString` of a byte has one digit exactly when the byte is below 16 |
| Utilities.Hex | Utilities.java:86-92 | 32 digest bytes become 64 lowercase hex digits |
| Utilities.HexRoundTrip | Utilities.java:86-92 | decoding the hex string gives back the bytes |
| Utilities.DigestDecodes | Utilities.java:79-98 | the single-input hash decodes to the SHA-256 bytes of its input |
| Utilities.CryptographicHash | Utilities.java:79-98 | the hex loop produces `Digest(sha, input)`: 64 lowercase hex digits of SHA-256 of the input |
| Utilities.CryptographicHashPair | Utilities.java:108-128 | the XOR hex loop produces `Combine`: the hex of the byte-wise XOR of the two digests |
| Utilities.Xor | Utilities.java:117 | the XOR of two digests has their length, and byte i is the bitwise XOR of the bytes i |
| Utilities.XorByte | Utilities.java:117 | the XOR of two bytes is again a byte |
| Utilities.BitXorBound | Utilities.java:117 | the XOR of two numbers below 2^k is below 2^k |
| Utilities.BitXorSymmetric | Utilities.java:117 | bitwise XOR is commutative |
| Utilities.BitXorSelf | Utilities.java:117 | a number XORed with itself is 0 |
| Utilities.CombineSymmetric | Utilities.java:108-128 | the pair hash does not depend on the order of its inputs, so a proof need not record sides |
| Utilities.CombineSelf | Utilities.java:108-128 | the pair hash of a string with itself is 64 zeros, because XOR cancels: two equal children give an all-zero parent hash |
| Utilities.HexOfZeros | Utilities.java:86-92 | zero bytes encode to `00` each |
| Utilities.FoldAppend | Utilities.java:62-69 | folding one more proof entry pairs the running hash with it |
| Utilities.GateMeaning | Utilities.java:54-60 | the two guards pass exactly for a non-null proof whose length is a power of two of at least 2, against a non-null, non-empty root hash |
| Utilities.GateRefusesShortTrees | Utilities.java:58-60 | a proof of length 1 or 3 is refused, whatever the hashes |
| Utilities.VerifyTransaction | Utilities.java:53-71 | the result is `Accepts`: the guards pass and folding the proof from the transaction's digest reaches the root hash; the proof list is emptied when the guards pass and left alone when they refuse |
| Utilities.FoldProof | Utilities.java:62-69 | the `get(0)`/`remove(0)` loop returns the fold of the whole proof and leaves the list empty |
| Utilities.FoldNext | Utilities.java:64-68 | one iteration pairs the running hash with the first proof entry (running hash first) and removes exactly that entry |
| PowersOfTwo.Pow2IsPowerOfTwo | MerkleTree.java:101 | every `2^a` is a power of two |
| PowersOfTwo.Pow2Monotone | MerkleTree.java:99-101 | `2^j <= 2^k` when `j <= k` |
| PowersOfTwo.Log2OfPow2 | MerkleTree.java:99 | the exact logarithm of `2^k` is k |
| PowersOfTwo.CeilLog2 | MerkleTree.java:99 | `ceil(log2 n)` is the least a with `n <= 2^a` |
| PowersOfTwo.CeilLog2Exact | MerkleTree.java:99-105 | `2^ceil(log2 n) == n` exactly when n is a power of two |
| PowersOfTwo.BitAndTest | Utilities.java:58 | for n >= 1, `n & (n - 1) == 0` exactly when n is a power of two |
| PowersOfTwo.BitAndSelf | Utilities.java:58 | bitwise AND of a number with itself is that number |
| SinglyLinkedLists.SinglyLinkedList.constructor | SinglyLinkedList.java:25-29 | a new list is empty |
| SinglyLinkedLists.SinglyLinkedList.Add | SinglyLinkedList.java:36-45 | the value is appended at the tail and nothing else changes |
| SinglyLinkedLists.SinglyLinkedList.Insert | SinglyLinkedList.java:54-76 | the contents become the old contents with the value at `InsertionIndex` |
| SinglyLinkedLists.InsertionIndex | SinglyLinkedList.java:60-67 | the insertion point lies within the list (front when the head compares less, else after the head and every following greater element) |
| SinglyLinkedLists.LeadingGreater | SinglyLinkedList.java:64-67 | the walk stops at the first element that does not compare greater, and every element before it compares greater |
| SinglyLinkedLists.LeadingGreaterIs | SinglyLinkedList.java:64-67 | any index meeting that stopping condition is the walk's result |
| SinglyLinkedLists.InsertAtIndex | SinglyLinkedList.java:68-72 | inserting at p shifts the later elements by one and leaves the earlier ones |
| SinglyLinkedLists.SinglyLinkedList.WalkGreater | SinglyLinkedList.java:64-67 | the walk ends on the node after which the value is linked |
| SinglyLinkedLists.SinglyLinkedList.LinkOnly | SinglyLinkedList.java:55-58 | linking into an empty list gives the one-element list |
| SinglyLinkedLists.SinglyLinkedList.LinkFirst | SinglyLinkedList.java:60-62 | linking at the front prepends |
| SinglyLinkedLists.SinglyLinkedList.LinkAfter | SinglyLinkedList.java:68-72 | linking after node k inserts the value at position k + 1 |
| SinglyLinkedLists.SinglyLinkedList.Relink | SinglyLinkedList.java:68-75 | node k now links to the new node and the new node to k's old successor; every other link, the head and the contents are unchanged; the length grows by one and the tail moves only when k was the last node |
| SinglyLinkedLists.SinglyLinkedList.RemoveFirst | SinglyLinkedList.java:83-97 | an empty list throws and is unchanged; otherwise the head value is returned and dropped |
| SinglyLinkedLists.SinglyLinkedList.RemoveLast | SinglyLinkedList.java:104-124 | an empty list throws and is unchanged; otherwise the last value is returned and dropped |
| SinglyLinkedLists.SinglyLinkedList.Remove | SinglyLinkedList.java:132-151 | an index out of range throws and changes nothing; otherwise element `index` is returned and removed, keeping the order of the rest |
| SinglyLinkedLists.SinglyLinkedList.UnlinkAfter | SinglyLinkedList.java:142-149 | unlinking after node k removes element k + 1 |
| SinglyLinkedLists.SinglyLinkedList.Get | SinglyLinkedList.java:159-168 | element `index` when in range, a thrown exception otherwise |
| SinglyLinkedLists.SinglyLinkedList.Size | SinglyLinkedList.java:175-177 | the length of the contents |
| SinglyLinkedLists.SinglyLinkedList.IsEmpty | SinglyLinkedList.java:184-186 | true exactly when the contents are empty |
| SinglyLinkedLists.SinglyLinkedList.DistinctNodes | SinglyLinkedList.java:229-247 | the nodes of a well-formed chain are pairwise distinct |
| SinglyLinkedLists.SinglyLinkedList.NodeAtOnly | SinglyLinkedList.java:229-247 | a node occurs at one position of the chain only |
| SinglyLinkedLists.SinglyLinkedList.OnlyLastEndsChain | SinglyLinkedList.java:229-247 | only the tail has a null `next` |
| SinglyLinkedLists.SinglyLinkedList.Iterator | SinglyLinkedList.java:193-224 | a fresh iterator over the current contents, at position 0 |
| SinglyLinkedLists.ListIterator.constructor | SinglyLinkedList.java:194-198 | the iterator starts at the head |
| SinglyLinkedLists.ListIterator.HasNext | SinglyLinkedList.java:205-207 | true exactly while elements remain |
| SinglyLinkedLists.ListIterator.Next | SinglyLinkedList.java:214-222 | returns the next element and advances, or throws at the end without moving |
| SinglyLinkedLists.ListNode.constructor | SinglyLinkedList.java:244-246 | a node holds its value and no successor |
| PriorityLines.CountGreater | PriorityLine.java:26-28 | the count of elements with a higher fee is at most the length |
| PriorityLines.CountGreaterNone | PriorityLine.java:26-28 | nothing outbids a fee at least as high as all others |
| PriorityLines.CountGreaterIsLeading | PriorityLine.java:26-28 | on a fee-ordered line, insert's walk passes exactly the elements with a higher fee |
| PriorityLines.InsertionIndexPlacement | PriorityLine.java:26-28 | a new transaction goes first exactly when the line is empty or its head has a lower fee; otherwise it goes after the head and after every higher fee |
| PriorityLines.InsertKeepsOrder | PriorityLine.java:26-28 | inserting into a line ordered by non-increasing fee keeps it ordered |
| PriorityLines.InsertAtMultiset | PriorityLine.java:26-28 | insertion adds exactly the new element to the multiset |
| PriorityLines.PriorityLine.constructor | PriorityLine.java:17-19 | a new line is empty |
| PriorityLines.PriorityLine.Enqueue | PriorityLine.java:26-28 | the element is inserted at `InsertionIndex`, the multiset grows by it, and the line stays ordered by fee |
| PriorityLines.PriorityLine.Dequeue | PriorityLine.java:35-37 | an empty line throws; otherwise the front transaction is removed, and no transaction left has a higher fee |
| PriorityLines.PriorityLine.Size | PriorityLine.java:44-46 | the number of waiting transactions |
| PriorityLines.PriorityLine.IsEmpty | PriorityLine.java:53-55 | true exactly when nothing waits |
| PriorityLines.PriorityLine.Peek | PriorityLine.java:62-64 | the front transaction, the one with the highest fee, without removing it; throws when empty |
| PriorityLines.PriorityLine.Iterator | PriorityLine.java:71-73 | iterates the line in non-increasing fee order |
| Blocks.Block.constructor | Block.java:20-22 | a new block holds no transactions and no root hash |
| Blocks.Block.AddTransaction | Block.java:29-31 | the transaction is appended; the root hash is unchanged |
| Blocks.Block.NumOfTransactions | Block.java:38-40 | the number of transactions |
| Blocks.Block.GetRootHash | Block.java:49-51 | the stored root hash, null when unset |
| Blocks.Block.SetRootHash | Block.java:60-62 | the root hash becomes the argument; the transactions are unchanged |
| Blocks.Block.Iterator | Block.java:69-71 | iterates the transactions in insertion order |
| Blocks.Block.CompareTo | Block.java:81-83 | the difference of the transaction counts, zero exactly for equal counts |
| Blockchains.FeeSumSnoc | Blockchain.java:30 | the running fee total grows by each added fee |
| Blockchains.BatchFromStep | Blockchain.java:28-35 | one loop iteration: the block is closed when its total reaches the threshold and a fresh one is started, else it keeps growing |
| Blockchains.OpenSnoc | Blockchain.java:31-35 | a block below the threshold stays open after one more transaction, unless the total reaches the threshold |
| Blockchains.BatchFromShape | Blockchain.java:27-41 | every block reaches the threshold only at its last transaction; all blocks but the last reach it; the last is closed or has positive fees |
| Blockchains.BatchShape | Blockchain.java:23-43 | the same for the whole chain, started from an empty block |
| Blockchains.CoversPrepend | Blockchain.java:27-41 | coverage of a prefix extends to a longer block in front |
| Blockchains.BatchFromCover | Blockchain.java:27-41 | the blocks list the open block and the remaining transactions in order, dropping at most a trailing part with no positive total |
| Blockchains.BatchCover | Blockchain.java:23-43 | the chain's transactions are a prefix of the dequeued transactions, and any dropped tail has total fee at most 0 |
| Blockchains.PositiveSum | Blockchain.java:37 | a nonempty run of positive fees has a positive total |
| Blockchains.BatchKeepsAllWhenFeesPositive | Blockchain.java:37-41 | when every fee is positive, no transaction is lost |
| Blockchains.BatchSingletons | Blockchain.java:31-35 | when each fee alone reaches the threshold, every block holds one transaction |
| Blockchains.Take | Blockchain.java:28-29 | the front transaction moves from the line to the end of the block |
| Blockchains.Blockchain.constructor | Blockchain.java:23-43 | the line ends empty, the blocks are `Batch` of the dequeued order, and no block has a root hash yet |
| Blockchains.Blockchain.Fill | Blockchain.java:27-36 | the loop drains the line, keeping closed blocks joined with the open block equal to `Batch` |
| Blockchains.Blockchain.Step | Blockchain.java:28-35 | one iteration keeps that invariant and consumes one transaction |
| Blockchains.Blockchain.Advance | Blockchain.java:31-35 | a block whose total reaches the threshold is appended and replaced by a fresh empty one with total 0; otherwise nothing changes |
| Blockchains.Blockchain.Finish | Blockchain.java:37-41 | the trailing block is appended exactly when its total is positive, and its root hash stays null |
| Blockchains.Blockchain.Seal | Blockchain.java:32 | appends the block, its transactions and its root hash to the chain |
| Blockchains.Blockchain.Iterator | Blockchain.java:50-52 | the chain's blocks in order, each holding its batch |
| MerkleNodes.PreOrder | MerkleTree.java:203-210 | a permutation of the tree's hashes, the root first |
| MerkleNodes.InOrder | MerkleTree.java:218-225 | a permutation of the tree's hashes, the root after the left subtree |
| MerkleNodes.PostOrder | MerkleTree.java:233-240 | a permutation of the tree's hashes, the root last |
| MerkleNodes.PerfectShape | MerkleTree.java:33-86 | a perfect tree of height h is full, with `2^h` leaves, `2^h - 1` inner nodes and `2^(h+1) - 1` nodes |
| MerkleNodes.FindProofFindsDescendants | MerkleTree.java:272-302 | on a full tree the search never dereferences null, and finds a proof exactly when some proper descendant carries the hash |
| MerkleNodes.FindProofRecurse | MerkleTree.java:289-301 | at a node whose children do not match, a proof exists exactly when one exists in the left or the right subtree |
| MerkleNodes.FindProofUp | MerkleTree.java:289-299 | a left subtree's proof gets the right child's hash appended; otherwise a right subtree's proof gets the left child's hash |
| MerkleNodes.FindProofSound | MerkleTree.java:272-302 | on a correctly hashed tree, folding a found proof from the leaf hash gives the root hash |
| MerkleNodes.Siblings | MerkleTree.java:272-302 | the sibling path of leaf i has one hash per level |
| MerkleNodes.SiblingsFold | MerkleTree.java:272-302 | folding leaf i's sibling path reaches the root hash |
| MerkleNodes.FindProofPath | MerkleTree.java:272-302 | for a leaf hash that no inner node carries, the proof is the sibling path of its first occurrence |
| MerkleNodes.FindProofPathLeft | MerkleTree.java:289-293 | a hash found in the left subtree yields its path there plus the right child's hash |
| MerkleNodes.FindProofPathRight | MerkleTree.java:295-299 | a hash only in the right subtree yields its path there plus the left child's hash |
| MerkleNodes.FindProofBottom | MerkleTree.java:277-287 | at height 1 the proof is the other child's hash |
| MerkleNodes.FindProofMisses | MerkleTree.java:273-275 | a hash carried by no node gives no proof |
| MerkleNodes.Children | MerkleTree.java:149-154 | the non-null children, left before right |
| MerkleNodes.LevelOrder | MerkleTree.java:140-158 | the breadth-first order of a queue has one hash per queued node |
| MerkleNodes.LevelOrderHashes | MerkleTree.java:140-158 | the breadth-first order is a permutation of the queued trees' hashes |
| MerkleNodes.LevelOrderStep | MerkleTree.java:145-155 | one step lists the front node and queues its children |
| MerkleNodes.LevelOrderByLevels | MerkleTree.java:140-158 | on perfect trees of one height, breadth-first order is level by level |
| MerkleNodes.DeepestLevel | MerkleTree.java:140-158 | the deepest level of a perfect tree is its leaves |
| MerkleNodes.BreadthFirstOfPerfect | MerkleTree.java:140-158 | the breadth-first order of a perfect tree starts with the root, has `2^(h+1) - 1` hashes and ends with the `2^h` leaves |
| MerkleTrees.PaddedSizeBounds | MerkleTree.java:45-49 | the padded leaf count is a power of two, at least 2 and at least n, below 2n for n >= 2, and exactly 2 for one transaction |
| MerkleTrees.CeilLog2OfPow2 | MerkleTree.java:99 | `ceil(log2 2^k) == k` |
| MerkleTrees.PaddingStops | MerkleTree.java:45-49 | while padding from n leaves, `powerOfTwo` first answers true at the padded size, where it records the padded height |
| MerkleTrees.PaddedLeaves | MerkleTree.java:38-49 | the leaves number exactly the padded size |
| MerkleTrees.PaddedLeavesAreDigests | MerkleTree.java:39-44 | leaf i below the transaction count is the digest of transaction i's text |
| MerkleTrees.PaddedLeavesAreDummies | MerkleTree.java:45-49 | every later leaf is the digest of `DUMMY` |
| MerkleTrees.Build | MerkleTree.java:70-86 | the `makeTree` recursion over a nonempty work list yields a node |
| MerkleTrees.PairLength | MerkleTree.java:75-83 | pairing 2n nodes gives n parents |
| MerkleTrees.BuildRound | MerkleTree.java:70-86 | consuming a whole even round of the queue is the same as replacing it by its parents at the back |
| MerkleTrees.BuildLevel | MerkleTree.java:70-86 | a queue of 2n nodes builds the same root as its n parents |
| MerkleTrees.PairLeaves | MerkleTree.java:75-83 | pairing keeps the left-to-right leaves |
| MerkleTrees.PairPerfect | MerkleTree.java:75-83 | pairing perfect trees of height j gives perfect, correctly hashed trees of height j + 1 |
| MerkleTrees.BuildPerfect | MerkleTree.java:70-86 | `2^k` perfect trees of height j build a perfect, correctly hashed tree of height j + k with the same leaves |
| MerkleTrees.BuildPadded | MerkleTree.java:38-50 | the padded leaves build a perfect, correctly hashed tree of the padded height whose leaves are the padded leaves |
| MerkleTrees.Drain | MerkleTree.java:145-155 | the loop returns the breadth-first order from a non-null start, and dereferences null on a null start |
| MerkleTrees.EnqueueChildren | MerkleTree.java:149-154 | the non-null children are queued, left first |
| MerkleTrees.LevelOrderAdvance | MerkleTree.java:146-154 | one iteration keeps "listed so far, then the order of the queue" equal to the whole order, and shrinks the queue's measure |
| MerkleTrees.RemoveFront | MerkleTree.java:146 | `remove(0)` on a nonempty queue returns and drops its head |
| MerkleTrees.MerkleTree.constructor | MerkleTree.java:33-53 | an empty block gives a null root, height 0 and no inner nodes, and is left alone; otherwise the root is perfect over the padded leaves, with the padded height and padded size minus 1 inner nodes, and the block's root hash is the root's hash |
| MerkleTrees.MerkleTree.Plant | MerkleTree.java:38-51 | the hashing, padding and building of a nonempty block give that tree |
| MerkleTrees.MerkleTree.HashTransactions | MerkleTree.java:38-44 | the first loop lists one leaf per transaction, carrying its digest, in order |
| MerkleTrees.MerkleTree.HashNext | MerkleTree.java:40-43 | one iteration adds the next transaction's leaf |
| MerkleTrees.MerkleTree.AddLeaf | MerkleTree.java:42-43 | appends a childless node with the input's digest |
| MerkleTrees.MerkleTree.Pad | MerkleTree.java:45-49 | the second loop pads with dummy leaves exactly up to the padded size and leaves the padded height recorded |
| MerkleTrees.MerkleTree.PadNext | MerkleTree.java:46-48 | one padding step adds a dummy leaf and reports whether the count is now a power of two of at least 2 |
| MerkleTrees.MerkleTree.PowerOfTwo | MerkleTree.java:95-107 | false for size 0 with the height kept; otherwise the height becomes `max(ceil(log2 size), 1)` and the answer is true exactly for a power of two of at least 2 |
| MerkleTrees.MerkleTree.MakeTree | MerkleTree.java:70-86 | returns `Build` of the queue, leaves the root alone in the list, and counts one inner node per merge |
| MerkleTrees.MerkleTree.MergeFront | MerkleTree.java:75-83 | the first two nodes are replaced by their parent at the back |
| MerkleTrees.MerkleTree.Finish | MerkleTree.java:50 | building the padded leaves gives the perfect tree with the padded inner-node count |
| MerkleTrees.MerkleTree.Height | MerkleTree.java:114-116 | 0 for an empty tree; otherwise h >= 1 with a perfect tree of `2^h` leaves |
| MerkleTrees.MerkleTree.InnerNodes | MerkleTree.java:123-125 | the number of inner nodes, one less than the leaves |
| MerkleTrees.MerkleTree.BreadthFirstTraversal | MerkleTree.java:140-158 | a null root dereferences null; otherwise the level-by-level order, root first, `2^(h+1) - 1` hashes, leaves last |
| MerkleTrees.MerkleTree.DepthFirstTraversal | MerkleTree.java:169-173 | a permutation of all the tree's hashes (those of the breadth-first order too), `2^(h+1) - 1` of them, root first in preorder and last in postorder, empty for an empty tree |
| MerkleTrees.MerkleTree.Walk | MerkleTree.java:184-195 | whichever order is chosen, every hash of the tree is listed once, the root first in preorder and last in postorder |
| MerkleTrees.MerkleTree.ExtractProof | MerkleTree.java:249-256 | never faults on a valid tree; a nonempty proof folds from the transaction's digest to the root hash |
| MerkleTrees.MerkleTree.ExtractProofOfLeaf | MerkleTree.java:249-256 | for an included transaction, the proof is its leaf's sibling path, of length `height` |
| MerkleTrees.MerkleTree.ExtractProofOfAbsent | MerkleTree.java:249-256 | a transaction whose digest no node carries gets the empty proof |
| MerkleTrees.MerkleTree.VerifiesIncluded | Utilities.java:53-71 | an included transaction's extracted proof verifies against the root when the height is a power of two of at least 2 |
| MerkleTrees.MerkleTree.RejectsShortTrees | Utilities.java:58-60 | in trees of height 1 or 3 even an included transaction's proof is refused |

## Left out

- `Utilities.loadTransactions` and `Main.java` read a file and print, so they are left out as I/O.
- SHA-256, `MessageDigest` and UTF-8 encoding are not modelled. The digest is the parameter `sha`, any function to 32 bytes.
- `CryptographicHash`, `CryptographicHashPair`: the `catch` branch is not modelled. A missing SHA-256 provider (then `hexString.toString()` dereferences null) is outside the model.
- `PowerOfTwo`: `Math.log`, `Math.ceil` and `Math.pow` on doubles are replaced by the exact `CeilLog2` and `Pow2`. Floating-point rounding at large sizes is not modelled.
- Java `int` overflow is not modelled: integers are unbounded, for fee sums, amounts, sizes and `innerNodes`.
- `Transaction.toString` uses `%d` with the default locale. The model uses plain ASCII digits with a leading `-` for negatives.
- `getFee` is the datatype field `fee`.
- `MerkleTree.Node.compareTo` (MerkleTree.java:340-342) is never called by the core, so it is left out.
- `Walk`: the `throw new RuntimeException()` branch of `helperFunction` is left out, because `Order` is a closed datatype with three values and no null.
- `BreadthFirstTraversal`, `DepthFirstTraversal`, `ExtractProof`: these return sequences, not fresh `SinglyLinkedList` objects. The breadth-first result is built as a sequence in `Drain`. The depth-first helpers and `findProof` are modelled as pure functions.
- `ExtractProof`: the lemmas about which proof is found assume that the transaction's digest is not also an inner hash. Without distinct hashes the search may stop at a matching inner node.
- `ExtractProof`: `findProof`'s null dereference of a missing sibling cannot happen on a valid tree, so it is proved absent rather than returned.
- `Blockchains.Blockchain`: the chain's own list is a `seq<Block>` field, not a `SinglyLinkedList<Block>`. Its `Iterator` returns that sequence rather than an iterator object.
- `Blockchains.Blockchain.Finish`: `setRootHash(getRootHash())` writes back null, so it is modelled as leaving the root hash null.
- `MerkleTrees.MerkleTree.MakeTree`: it requires a nonempty list. Its only caller passes at least two nodes; on an empty list the source's `hashes.get(0)` would throw.
- `PriorityLines.PriorityLine` is specialised to `Transaction`, the only element type the repository uses. `SinglyLinkedList.insert` takes the comparator as a parameter.
- Several loops and branches of the source are split across helper methods. Examples are `Plant`/`Finish`/`Pad`/`PadNext`, `Fill`/`Step`/`Advance`/`Seal`, `Drain`, `FoldProof`/`FoldNext` and `LinkAfter`/`Relink`. Each has its own contract, and the split does not change what is computed.
