# Diwali assignments: verified model of the exercise data structures and the product/category service

This project models, in Dafny, the algorithmic exercises of the repository and the two Spring services of its product/category REST API:

- **Circular array queue** (`CircularQueueDemo`). A class over an `int` array with `front`/`rear` indices, where -1 means empty. A ghost `Contents()` refines it to the queued sequence.
- **Circular singly linked list** (`CircularLinkedListDemo`). Heap nodes with `data`/`next`. The list object carries a ghost node sequence, a footprint `Repr` and a ghost `Contents` sequence. The invariant `Valid()` ties the three together: the nodes are distinct, `head` is the first of them, each links to the next, and the last links back to `head`.
- **Binary search tree** (`BinarySearchTreeDemo`). Trees are values, and the `BST` object holds the root. It covers insertion that ignores duplicates and deletion by in-order successor. `minValue` is a loop. The three traversals are sequences.
- **Two-pointer merge** (`ArrayMerger`) of two `int[]`s, with ties going to the first array.
- **In-place rotation** (`ArrayRotator`) of an `int[]` by three reversals, including the exceptions C# raises.
- **Missing number** (`MissingNumberFinder`): the Gauss-sum method, with Java's 32-bit `int` arithmetic written out (`Int32`).
- **Product and category services** (`Entities`, `Repositories`, `ProductServices`, `CategoryServices`).
  - One `Database` object holds two maps from id to entity, plus the next value of the id generator.
  - The services are classes over it.
  - The service exceptions are `Result` failures.

Each imperative operation is a method proved against a specification function on sequences, such as `Merge`, `RotatedRight`, `Inserted`, `DeleteFirst`, `ReplaceFirst` or `DeleteRec`. The lemmas beside each function prove what that function means: a permutation, sortedness, stability, a position law, or the first occurrence.

## Model

| member | source | states |
|---|---|---|
| CircularQueueDemo.CircularQueue.constructor | Day_2_Assignments/src/com/demo/datastructure/CircularQueueDemo.java:9-12 | a new queue of capacity `size` is valid and empty, with `front == rear == -1` |
| CircularQueueDemo.CircularQueue.IsFull | Day_2_Assignments/src/com/demo/datastructure/CircularQueueDemo.java:14-16 | `isFull` holds exactly when the queue holds `size` elements |
| CircularQueueDemo.CircularQueue.IsEmpty | Day_2_Assignments/src/com/demo/datastructure/CircularQueueDemo.java:18-20 | `isEmpty` holds exactly when the contents are empty |
| CircularQueueDemo.CircularQueue.Enqueue | Day_2_Assignments/src/com/demo/datastructure/CircularQueueDemo.java:22-30 | on a full queue nothing changes; otherwise `data` is appended at the back (FIFO); the first enqueue sets both indices to 0; the index invariant is kept |
| CircularQueueDemo.CircularQueue.Dequeue | Day_2_Assignments/src/com/demo/datastructure/CircularQueueDemo.java:32-40 | on an empty queue nothing changes; otherwise exactly the front element is removed, and removing the last one resets both indices to -1 |
| CircularQueueDemo.CircularQueue.Display | Day_2_Assignments/src/com/demo/datastructure/CircularQueueDemo.java:42-55 | the walk from `front` to `rear` modulo `size` yields exactly the contents, in order |
| CircularQueueDemo.CircularQueue.WalkedStep | Day_2_Assignments/src/com/demo/datastructure/CircularQueueDemo.java:51-52 | one `(i + 1) % size` step of the display walk stays on the occupied slots and prints one more element in order |
| CircularQueueDemo.CircularQueue.WalkedEnd | Day_2_Assignments/src/com/demo/datastructure/CircularQueueDemo.java:50-51 | printing slot `rear` completes the contents |
| CircularQueueDemo.Step | Day_2_Assignments/src/com/demo/datastructure/CircularQueueDemo.java:28 | `(i + 1) % size` is `i + 1`, or 0 at the end of the buffer |
| CircularQueueDemo.DemoRun | Day_2_Assignments/src/com/demo/datastructure/CircularQueueDemo.java:59-67 | enqueuing 10, 20, 30 into a queue of five shows [10, 20, 30]; a dequeue then leaves [20, 30] |
| CircularLinkedListDemo.Node.constructor | Day_02/Day_2_Assignments/src/com/demo/datastructure/CircularLinkedListDemo.java:9 | a new node holds the given value and no successor (`next` is null) |
| CircularLinkedListDemo.CircularLinkedList.constructor | Day_02/Day_2_Assignments/src/com/demo/datastructure/CircularLinkedListDemo.java:12-13 | a new list is valid and empty, with `head == null` |
| CircularLinkedListDemo.CircularLinkedList.InsertAt | Day_02/Day_2_Assignments/src/com/demo/datastructure/CircularLinkedListDemo.java:15-35 | the contents become the old contents with `data` inserted at `InsertIndex(n, pos)`; exactly one fresh node joins the footprint; the ring stays closed |
| CircularLinkedListDemo.CircularLinkedList.InsertIntoEmpty | Day_02/Day_2_Assignments/src/com/demo/datastructure/CircularLinkedListDemo.java:17-21 | into an empty list, whatever `pos`: a single self-linked node, contents `[data]` |
| CircularLinkedListDemo.CircularLinkedList.InsertAsHead | Day_02/Day_2_Assignments/src/com/demo/datastructure/CircularLinkedListDemo.java:22-28 | `pos == 1`: the new node becomes the head, with the old order after it, and the ring stays closed |
| CircularLinkedListDemo.CircularLinkedList.FindInsertPoint | Day_02/Day_2_Assignments/src/com/demo/datastructure/CircularLinkedListDemo.java:30-32 | the `for` walk stops at the node the new one goes after, which is index `InsertIndex(n, pos) - 1` |
| CircularLinkedListDemo.CircularLinkedList.InsertAfter | Day_02/Day_2_Assignments/src/com/demo/datastructure/CircularLinkedListDemo.java:33-34 | linking the new node in after the k-th node inserts `data` at index k+1 and keeps the ring valid |
| CircularLinkedListDemo.RingInsert | Day_02/Day_2_Assignments/src/com/demo/datastructure/CircularLinkedListDemo.java:33-34 | the two pointer writes turn a ring into the ring with the new node at k+1, still of distinct nodes, with the values in inserted order |
| CircularLinkedListDemo.RingPrepend | Day_02/Day_2_Assignments/src/com/demo/datastructure/CircularLinkedListDemo.java:25-27 | relinking the last node to a new node that links to the old head gives a ring with the new node first |
| CircularLinkedListDemo.NextOf | Day_02/Day_2_Assignments/src/com/demo/datastructure/CircularLinkedListDemo.java:24 | in a ring of distinct nodes, `next` of the k-th node is the (k+1)-th, and it is the head exactly from the last node |
| CircularLinkedListDemo.WalkIndex | Day_02/Day_2_Assignments/src/com/demo/datastructure/CircularLinkedListDemo.java:79-83 | following `next` j times from the head reaches the j-th node, and the head again after n steps |
| CircularLinkedListDemo.CircularLinkedList.RingCloses | Day_02/Day_2_Assignments/src/com/demo/datastructure/CircularLinkedListDemo.java:79-83 | following `next` from `head` returns to `head` after exactly `|Contents|` steps, and not before |
| CircularLinkedListDemo.CircularLinkedList.FindLast | Day_02/Day_2_Assignments/src/com/demo/datastructure/CircularLinkedListDemo.java:23-24 | the walk `while (temp.next != head)` ends at the last node |
| CircularLinkedListDemo.CircularLinkedList.DeleteNode | Day_02/Day_2_Assignments/src/com/demo/datastructure/CircularLinkedListDemo.java:37-58 | the contents lose their first `key`, counted from the head; an empty list or an absent key leaves them unchanged; the ring stays valid and the footprint only shrinks |
| CircularLinkedListDemo.CircularLinkedList.UnlinkHead | Day_02/Day_2_Assignments/src/com/demo/datastructure/CircularLinkedListDemo.java:42-49 | deleting the head either empties a one-node list, or makes `head.next` the head with the last node relinked to it: the node sequence loses its first node, the ring stays valid, and the contents lose their first element |
| CircularLinkedListDemo.CircularLinkedList.UnlinkAfter | Day_02/Day_2_Assignments/src/com/demo/datastructure/CircularLinkedListDemo.java:51 | `prev.next = curr.next` removes exactly the element at k |
| CircularLinkedListDemo.CircularLinkedList.ModifyNode | Day_02/Day_2_Assignments/src/com/demo/datastructure/CircularLinkedListDemo.java:60-71 | the contents become `ReplaceFirst(old, oldData, newData)`; the head, the node sequence, the footprint and the ring are kept |
| CircularLinkedListDemo.CircularLinkedList.SetData | Day_02/Day_2_Assignments/src/com/demo/datastructure/CircularLinkedListDemo.java:65 | overwriting the k-th node's value changes exactly contents position k |
| CircularLinkedListDemo.CircularLinkedList.Display | Day_02/Day_2_Assignments/src/com/demo/datastructure/CircularLinkedListDemo.java:74-85 | the do-while from the head visits each node once, in list order, yielding exactly the contents |
| CircularLinkedListDemo.InsertIndex | Day_02/Day_2_Assignments/src/com/demo/datastructure/CircularLinkedListDemo.java:22-32 | the index is 0 for an empty list or `pos == 1`, `min(pos - 1, n)` for `pos >= 2`, and 1 for `pos <= 0`; at `Integer.MIN_VALUE`, `pos - 1` wraps and the element goes to the end |
| CircularLinkedListDemo.InsertedShape | Day_02/Day_2_Assignments/src/com/demo/datastructure/CircularLinkedListDemo.java:15-35 | an insertion grows the list by one, places the element at its index, keeps the old elements in order (removing it gives them back), and adds exactly one element to the multiset |
| CircularLinkedListDemo.DeleteFirstCount | Day_02/Day_2_Assignments/src/com/demo/datastructure/CircularLinkedListDemo.java:37-58 | a present key is removed exactly once (length minus one, multiset minus `key`); an absent key changes nothing |
| CircularLinkedListDemo.DeleteFirstAt | Day_02/Day_2_Assignments/src/com/demo/datastructure/CircularLinkedListDemo.java:40-53 | when the first `key` is at k, exactly index k is cut out |
| CircularLinkedListDemo.DeleteFirstAbsent | Day_02/Day_2_Assignments/src/com/demo/datastructure/CircularLinkedListDemo.java:55-57 | without `key`, deletion is the identity |
| CircularLinkedListDemo.ReplaceFirstAt | Day_02/Day_2_Assignments/src/com/demo/datastructure/CircularLinkedListDemo.java:63-67 | when the first `oldData` is at k, exactly position k becomes `newData` |
| CircularLinkedListDemo.ReplaceFirstAbsent | Day_02/Day_2_Assignments/src/com/demo/datastructure/CircularLinkedListDemo.java:68-70 | without `oldData`, modification is the identity |
| CircularLinkedListDemo.ReplaceFirstCount | Day_02/Day_2_Assignments/src/com/demo/datastructure/CircularLinkedListDemo.java:60-71 | a present `oldData` turns into `newData` exactly once in the multiset; an absent one changes nothing |
| BinarySearchTreeDemo.InsertRec | Day_02/Day_2_Assignments/src/com/demo/datastructure/BinarySearchTreeDemo.java:17-22 | the keys become old keys ∪ {data}; the search-tree order is preserved; the empty tree becomes a single leaf |
| BinarySearchTreeDemo.InsertPresent | Day_02/Day_2_Assignments/src/com/demo/datastructure/BinarySearchTreeDemo.java:19-21 | inserting a key already present returns the tree unchanged, so no duplicates arise |
| BinarySearchTreeDemo.Leftmost | Day_02/Day_2_Assignments/src/com/demo/datastructure/BinarySearchTreeDemo.java:36-43 | the leftmost key is a key of the tree, and in a search tree it is the minimum |
| BinarySearchTreeDemo.MinValue | Day_02/Day_2_Assignments/src/com/demo/datastructure/BinarySearchTreeDemo.java:36-43 | the loop down the left spine returns the leftmost key: a key of the tree, and the minimum of a search tree |
| BinarySearchTreeDemo.DeleteRec | Day_02/Day_2_Assignments/src/com/demo/datastructure/BinarySearchTreeDemo.java:24-35 | on a search tree, the order is preserved and the keys become old keys minus {data}; an absent key leaves the tree unchanged |
| BinarySearchTreeDemo.DeleteUsesSuccessor | Day_02/Day_2_Assignments/src/com/demo/datastructure/BinarySearchTreeDemo.java:29-32 | deleting the key of a node with two children puts its in-order successor there: the smallest key greater than it |
| BinarySearchTreeDemo.Preorder | Day_02/Day_2_Assignments/src/com/demo/datastructure/BinarySearchTreeDemo.java:53-59 | pre-order visits the root first |
| BinarySearchTreeDemo.Postorder | Day_02/Day_2_Assignments/src/com/demo/datastructure/BinarySearchTreeDemo.java:60-66 | post-order visits the root last |
| BinarySearchTreeDemo.Inorder | Day_02/Day_2_Assignments/src/com/demo/datastructure/BinarySearchTreeDemo.java:45-51 | the in-order walk (left subtree, root, right subtree) visits a value exactly when it is a key of the tree |
| BinarySearchTreeDemo.InorderSorted | Day_02/Day_2_Assignments/src/com/demo/datastructure/BinarySearchTreeDemo.java:45-51 | in-order visits exactly the keys, and in a search tree in strictly ascending order |
| BinarySearchTreeDemo.TraversalsAgree | Day_02/Day_2_Assignments/src/com/demo/datastructure/BinarySearchTreeDemo.java:45-66 | the three traversals visit the same nodes, each once (equal multisets) |
| BinarySearchTreeDemo.BST.constructor | Day_02/Day_2_Assignments/src/com/demo/datastructure/BinarySearchTreeDemo.java:13 | a new tree has an empty root |
| BinarySearchTreeDemo.BST.Insert | Day_02/Day_2_Assignments/src/com/demo/datastructure/BinarySearchTreeDemo.java:15 | `root = insertRec(root, data)`: the keys gain `data`, and the search-tree order is kept |
| BinarySearchTreeDemo.DemoFirstInserts | Day_02/Day_2_Assignments/src/com/demo/datastructure/BinarySearchTreeDemo.java:71-73 | inserting 50, 30, 70 builds the root 50 with leaves 30 and 70 |
| BinarySearchTreeDemo.DemoLeftInserts | Day_02/Day_2_Assignments/src/com/demo/datastructure/BinarySearchTreeDemo.java:74-75 | 20 and 40 become the children of 30 |
| BinarySearchTreeDemo.DemoRightInserts | Day_02/Day_2_Assignments/src/com/demo/datastructure/BinarySearchTreeDemo.java:76-77 | 60 and 80 become the children of 70 |
| BinarySearchTreeDemo.DemoInorder | Day_02/Day_2_Assignments/src/com/demo/datastructure/BinarySearchTreeDemo.java:78-79 | the tree's in-order walk is 20 … 80 |
| BinarySearchTreeDemo.DemoDelete | Day_02/Day_2_Assignments/src/com/demo/datastructure/BinarySearchTreeDemo.java:85 | deleting 20 removes that leaf and leaves the rest of the tree as it was |
| BinarySearchTreeDemo.DemoInorderAfterDelete | Day_02/Day_2_Assignments/src/com/demo/datastructure/BinarySearchTreeDemo.java:86-87 | after the deletion the in-order walk is 30 … 80 |
| BinarySearchTreeDemo.DemoRun | Day_02/Day_2_Assignments/src/com/demo/datastructure/BinarySearchTreeDemo.java:69-88 | the run of `main` prints in-order `20 30 40 50 60 70 80`, and after deleting 20 prints `30 40 50 60 70 80` |
| ArrayMerger.Merge | Day_06/Challege_ArrayMerger/ArrayMerger/src/com/demo/challege/ArrayMergerDemo.java:10-24 | the merge is as long as both inputs together |
| ArrayMerger.MergePermutes | Day_06/Challege_ArrayMerger/ArrayMerger/src/com/demo/challege/ArrayMergerDemo.java:10-24 | the merge's multiset is the union of the inputs' multisets |
| ArrayMerger.MergeInterleaves | Day_06/Challege_ArrayMerger/ArrayMerger/src/com/demo/challege/ArrayMergerDemo.java:10-24 | the merge is an interleaving: the elements taken from each input are that input, in order |
| ArrayMerger.OriginMember | Day_06/Challege_ArrayMerger/ArrayMerger/src/com/demo/challege/ArrayMergerDemo.java:11-15 | each output element taken from a side is an element of that side |
| ArrayMerger.MergeStable | Day_06/Challege_ArrayMerger/ArrayMerger/src/com/demo/challege/ArrayMergerDemo.java:11 | ties go to `nums1`: after an element of `nums2` is output, no equal element from `nums1` follows |
| ArrayMerger.MergeLowerBound | Day_06/Challege_ArrayMerger/ArrayMerger/src/com/demo/challege/ArrayMergerDemo.java:10-24 | a lower bound of both inputs bounds the merge |
| ArrayMerger.MergeSorted | Day_06/Challege_ArrayMerger/ArrayMerger/src/com/demo/challege/ArrayMergerDemo.java:11-15 | two sorted inputs merge to a sorted result |
| ArrayMerger.MergeEmpty | Day_06/Challege_ArrayMerger/ArrayMerger/src/com/demo/challege/ArrayMergerDemo.java:18-24 | with one input empty, the result is the other input |
| ArrayMerger.TakeFirst | Day_06/Challege_ArrayMerger/ArrayMerger/src/com/demo/challege/ArrayMergerDemo.java:11-12 | taking `nums1[i]` extends the output by the merge's next element |
| ArrayMerger.TakeSecond | Day_06/Challege_ArrayMerger/ArrayMerger/src/com/demo/challege/ArrayMergerDemo.java:13-14 | taking `nums2[j]` extends the output by the merge's next element |
| ArrayMerger.MergeDone | Day_06/Challege_ArrayMerger/ArrayMerger/src/com/demo/challege/ArrayMergerDemo.java:18-24 | once both indices reach the end, the output is the whole merge |
| ArrayMerger.MergeSortedArrays | Day_06/Challege_ArrayMerger/ArrayMerger/src/com/demo/challege/ArrayMergerDemo.java:6-28 | the three loops produce a fresh array holding exactly `Merge(nums1, nums2)` |
| ArrayMerger.MergeExample | Day_06/Challege_ArrayMerger/ArrayMerger/src/com/demo/challege/ArrayMergerDemo.java:31-34 | {1,3,5,7} and {2,4,6,8} merge to 1 … 8 |
| ArrayMerger.MergeExampleTail | Day_06/Challege_ArrayMerger/ArrayMerger/src/com/demo/challege/ArrayMergerDemo.java:31-34 | the tail of that merge: {5,7} and {6,8} give 5 … 8 |
| ArrayMerger.DemoRun | Day_06/Challege_ArrayMerger/ArrayMerger/src/com/demo/challege/ArrayMergerDemo.java:30-36 | the run of `main` gives {1,…,8} |
| ArrayRotator.ReversedAt | Day_05/Challege_ArrayRotator/Challege_ArrayRotator/Program.cs:15-25 | the reference reversal puts element |s|-1-i at position i |
| ArrayRotator.ReverseRangeAt | Day_05/Challege_ArrayRotator/Challege_ArrayRotator/Program.cs:15-25 | after the swaps from both ends inward, each index inside `start..end` holds the value mirrored about the slice's middle and each index outside it keeps its value |
| ArrayRotator.ReverseRangeIsSliceReversal | Day_05/Challege_ArrayRotator/Challege_ArrayRotator/Program.cs:15-25 | reversing a range is cutting out the slice, reversing it and putting it back |
| ArrayRotator.Reverse | Day_05/Challege_ArrayRotator/Challege_ArrayRotator/Program.cs:15-25 | the slice `start..end` is mirrored in place and every other index is unchanged; `start >= end` is a no-op; a bound outside the array throws `IndexOutOfRangeException` before any write |
| ArrayRotator.RotatedRightAt | Day_05/Challege_ArrayRotator/Challege_ArrayRotator/Program.cs:5-13 | in the right rotation by k, the element at i lands at `(i + k) % n` |
| ArrayRotator.RotatedRightPermutes | Day_05/Challege_ArrayRotator/Challege_ArrayRotator/Program.cs:10-12 | a rotation preserves the multiset |
| ArrayRotator.TripleReversal | Day_05/Challege_ArrayRotator/Challege_ArrayRotator/Program.cs:10-12 | reversing the whole array, then the first k, then the rest, is the right rotation by k |
| ArrayRotator.ReverseThree | Day_05/Challege_ArrayRotator/Challege_ArrayRotator/Program.cs:10-12 | with `r = k % n`, the three reversals rotate the array right by r when r is not negative; otherwise the third throws `IndexOutOfRangeException`, and the array is left as the first reversal made it, wholly reversed |
| ArrayRotator.RotatedRightFacts | Day_05/Challege_ArrayRotator/Challege_ArrayRotator/Program.cs:5-13 | the rotation by `k % n` sends the element at i to `(i + k) % n` and keeps the multiset |
| ArrayRotator.RemainderZero | Day_05/Challege_ArrayRotator/Challege_ArrayRotator/Program.cs:8 | C#'s `k % n` is non-negative exactly when `k >= 0` or n divides k, and is then the Euclidean remainder |
| ArrayRotator.RotatedRightByAnyAt | Day_05/Challege_ArrayRotator/Challege_ArrayRotator/Program.cs:8 | rotating by `k % n` moves each element to `(i + k) % n`, so it is rotating by k |
| ArrayRotator.ModSum | Day_05/Challege_ArrayRotator/Challege_ArrayRotator/Program.cs:8 | `(i + k) % n == (i + k % n) % n` |
| ArrayRotator.Rotate | Day_05/Challege_ArrayRotator/Challege_ArrayRotator/Program.cs:5-13 | an empty array throws `DivideByZeroException`, unchanged. For `k >= 0`, or n dividing k, the array becomes the right rotation by `k % n`, with `nums[(i + k) % n] == old nums[i]` and the same multiset. Any other negative k throws `IndexOutOfRangeException` with the array left reversed |
| ArrayRotator.RotateExample | Day_05/Challege_ArrayRotator/Challege_ArrayRotator/Program.cs:30-33 | {1,…,7} rotated right by 3 is {5,6,7,1,2,3,4} |
| ArrayRotator.DemoRun | Day_05/Challege_ArrayRotator/Challege_ArrayRotator/Program.cs:28-36 | the run of `Main` gives {5,6,7,1,2,3,4} |
| Int32.Wrap | Day_04/ChallegeDay4/MissingNumChalllege/src/com/demoi/java/MissingNumberFinder.java:5 | a 32-bit result lies in the `int` range and equals the exact result when that fits |
| Int32.JavaDiv | Day_04/ChallegeDay4/MissingNumChalllege/src/com/demoi/java/MissingNumberFinder.java:5 | Java's `/` rounds toward zero |
| Int32.JavaRem | Day_05/Challege_ArrayRotator/Challege_ArrayRotator/Program.cs:8 | C#'s `%` is the remainder of the truncating division: non-negative for `a >= 0` (the Euclidean one), in `(-b, 0]` otherwise |
| Int32.WrapShift | Day_04/ChallegeDay4/MissingNumChalllege/src/com/demoi/java/MissingNumberFinder.java:9 | wrapping changes a value by a whole multiple of 2^32 |
| Int32.WrapAdd | Day_04/ChallegeDay4/MissingNumChalllege/src/com/demoi/java/MissingNumberFinder.java:9 | a running 32-bit sum equals the wrapped exact sum |
| MissingNumberFinder.ExpectedSumAsWritten | Day_04/ChallegeDay4/MissingNumChalllege/src/com/demoi/java/MissingNumberFinder.java:5 | `(n * (n + 1)) / 2` as computed in `int` is an `int`, and for n up to 46340, where nothing wraps, it is the Gauss sum n(n+1)/2 |
| MissingNumberFinder.FindMissing | Day_04/ChallegeDay4/MissingNumChalllege/src/com/demoi/java/MissingNumberFinder.java:3-13 | the loop's `actualSum` is the wrapped sum of the array. The result is `expectedSum - actualSum` in 32 bits. For up to 46340 distinct values from `0..n`, it is the value absent from the array |
| MissingNumberFinder.FindMissingAsWrittenSmall | Day_04/ChallegeDay4/MissingNumChalllege/src/com/demoi/java/MissingNumberFinder.java:3-13 | for an array of at most 46340 distinct values of 0..n, the as-written result is the absent value |
| MissingNumberFinder.FindMissingOverflows | Day_04/ChallegeDay4/MissingNumChalllege/src/com/demoi/java/MissingNumberFinder.java:5 | at 46341 elements `n * (n + 1)` overflows: the result is the absent value minus 2^31, which is not absent from `0..n` |
| MissingNumberFinder.FindMissingCorrected | Day_04/ChallegeDay4/MissingNumChalllege/src/com/demoi/java/MissingNumberFinder.java:3-13 | with the sums kept exact, the result is `n*(n+1)/2 - sum(arr)` narrowed to `int`, and for n distinct values from `0..n` it is the absent one, for every length |
| MissingNumberFinder.OneAbsent | Day_04/ChallegeDay4/MissingNumChalllege/src/com/demoi/java/MissingNumberFinder.java:3-13 | n distinct values from `0..n` miss exactly one value of that range |
| MissingNumberFinder.SumOfAllBut | Day_04/ChallegeDay4/MissingNumChalllege/src/com/demoi/java/MissingNumberFinder.java:12 | the sum of an arrangement of `0..n` without m is `n*(n+1)/2 - m` |
| MissingNumberFinder.DemoRun | Day_04/ChallegeDay4/MissingNumChalllege/src/com/demoi/java/MissingNumberFinder.java:15-18 | {3, 0, 1} gives 2 |
| Entities.PatchProduct | Day_04/Q4_DynamicWebProj/springproductapi/RESTapispringproduct/src/main/java/com/pdo/product_category/service/ProductService.java:45-53 | the updated product keeps the stored id; each of name, price and category becomes the supplied value when it is not null, and stays as stored when it is null |
| Entities.PatchCategory | Day_04/Q4_DynamicWebProj/springproductapi/RESTapispringproduct/src/main/java/com/pdo/product_category/service/CategoryService.java:48-56 | the updated category keeps the stored id; a non-null name replaces the stored one and a null keeps it; the product list changes only to a supplied non-empty list, and every supplied non-empty list is taken |
| Entities.PatchProductEmpty | Day_04/Q4_DynamicWebProj/springproductapi/RESTapispringproduct/src/main/java/com/pdo/product_category/service/ProductService.java:45-53 | a product update with every field null keeps the stored product |
| Entities.PatchProductFull | Day_04/Q4_DynamicWebProj/springproductapi/RESTapispringproduct/src/main/java/com/pdo/product_category/service/ProductService.java:45-53 | an update with every field given determines the product apart from its id, which stays the stored one |
| Entities.PatchProductCompose | Day_04/Q4_DynamicWebProj/springproductapi/RESTapispringproduct/src/main/java/com/pdo/product_category/service/ProductService.java:45-53 | the same update applied twice stores what it stores once; two updates in a row act as one whose given fields override the first's |
| Entities.PatchCategoryCases | Day_04/Q4_DynamicWebProj/springproductapi/RESTapispringproduct/src/main/java/com/pdo/product_category/service/CategoryService.java:48-56 | a null name together with a null or empty product list keeps the category; a given name and a non-empty list replace both |
| Entities.PatchCategoryIdempotent | Day_04/Q4_DynamicWebProj/springproductapi/RESTapispringproduct/src/main/java/com/pdo/product_category/service/CategoryService.java:48-56 | the same category update applied twice stores what it stores once |
| Repositories.Database.FreshId | Day_04/Q4_DynamicWebProj/springproductapi/RESTapispringproduct/src/main/java/com/pdo/product_category/entity/Product.java:17-19 | the generated id is in use by no product and no category; the stores are unchanged |
| ProductServices.ProductService.FindProductById | Day_04/Q4_DynamicWebProj/springproductapi/RESTapispringproduct/src/main/java/com/pdo/product_category/service/ProductService.java:36-39 | the stored product when the id is present, otherwise `GenericException`; it reads the store only |
| ProductServices.ProductService.SaveProduct | Day_04/Q4_DynamicWebProj/springproductapi/RESTapispringproduct/src/main/java/com/pdo/product_category/service/ProductService.java:24-34 | an unknown category gives `CategoryNotFoundException`, with the store unchanged. Otherwise exactly one new product is stored, under a fresh id, with the request's name and price and the found category, and it is returned and can be found |
| ProductServices.ProductService.UpdateById | Day_04/Q4_DynamicWebProj/springproductapi/RESTapispringproduct/src/main/java/com/pdo/product_category/service/ProductService.java:41-56 | an absent id gives `NotFoundException`, with the store unchanged. Otherwise each non-null field replaces the stored one and the rest are kept; the id is kept; no other entry changes |
| ProductServices.ProductService.DeleteId | Day_04/Q4_DynamicWebProj/springproductapi/RESTapispringproduct/src/main/java/com/pdo/product_category/service/ProductService.java:58-64 | an absent id gives `NotFoundException`, with the store unchanged. Otherwise the id is removed, nothing else changes, the product as stored before is returned, and it can no longer be found |
| CategoryServices.StoredCount | Day_04/Q4_DynamicWebProj/springproductapi/RESTapispringproduct/src/main/java/com/pdo/product_category/service/CategoryService.java:40-42 | a store keyed by the entities' own ids holds as many distinct categories as ids |
| CategoryServices.CategoryService.FindByName | Day_04/Q4_DynamicWebProj/springproductapi/RESTapispringproduct/src/main/java/com/pdo/product_category/service/CategoryService.java:34-38 | the stored category of that name when one exists, otherwise `GenericException`; it reads the store only |
| CategoryServices.CategoryService.FindAllCategories | Day_04/Q4_DynamicWebProj/springproductapi/RESTapispringproduct/src/main/java/com/pdo/product_category/service/CategoryService.java:40-42 | exactly the stored categories, one per id |
| CategoryServices.CategoryService.SaveCategory | Day_04/Q4_DynamicWebProj/springproductapi/RESTapispringproduct/src/main/java/com/pdo/product_category/service/CategoryService.java:22-32 | a taken name gives `ConflictException`, with the store unchanged. Otherwise one new category is stored, under a fresh id, with the request's name and products; `findByname` then finds it; names stay unique |
| CategoryServices.CategoryService.UpdateById | Day_04/Q4_DynamicWebProj/springproductapi/RESTapispringproduct/src/main/java/com/pdo/product_category/service/CategoryService.java:44-59 | an absent id gives `NotFoundException`, with the store unchanged. Otherwise a non-null name replaces the old one and a non-null, non-empty product list replaces the old list. A name held by another category is refused by the unique column, with nothing changed. Other entries never change |

## Left out

- Console output is not modelled: the messages of `enqueue`, `dequeue` and `display`, the prints of the traversals, and the `main` methods' printing. Displays and traversals are modelled as the sequences they print.
- The interactive `Scanner` menu of `CircularLinkedListDemo.main` is not modelled, because it is console input.
- CircularQueueDemo.CircularQueue.constructor: requires `size > 0`. Java accepts 0 and throws only on the first `enqueue`, at `% 0`. A negative size throws at `new int[size]`. Neither failure path is modelled.
- BST nodes are modelled as values.
  - Java's `insertRec`/`deleteRec` overwrite `left`, `right` and `data` in place. No node is shared, so the resulting tree is the same, but object identity is not modelled.
  - `deleteRec` calls `minValue`; the function model uses its specification `Leftmost`, which `MinValue` is proved to compute.
- Category–product association.
  - It is kept as ids: a product holds its category's id, and a category holds its products' ids.
  - The lazily loaded, `mappedBy` inverse list of `Category` is stored as the request gives it, and is not kept in step with the products.
- ProductServices.ProductService.UpdateById: a category given in the update is stored without checking that it exists. Java would fail at flush on a missing foreign key; that failure is not modelled.
- JPA behaviour is not modelled: persistence, `saveAndFlush`, transactions and `@NotNull` validation.
- Id generation is not modelled beyond a fresh key: it is a counter above every id in use. Overflow of the `Integer` ids is not modelled.
- CategoryServices.CategoryService.FindAllCategories: returns a set. The repository's list order is unspecified and is not modelled.
- `Double` prices are only copied, so they are an opaque 64-bit pattern. No floating point is modelled.
- `ProductRequestDTO.java` and `ProductRepository.java` are not part of this model. The request's fields (name, price, category id) are read off the service's getters.
- The service exceptions are modelled as `Result` failures. Their messages and the HTTP mapping of the exception handler are not modelled.

## Findings

| source | as written | input that shows it | evidently intended | confidence | as-written member | corrected member |
|---|---|---|---|---|---|---|
| Day_04/ChallegeDay4/MissingNumChalllege/src/com/demoi/java/MissingNumberFinder.java:5 | `int expectedSum = (n * (n + 1)) / 2` multiplies in 32-bit `int`, which overflows from n = 46341 on | any 46341 distinct values from 0..46341, e.g. all but 0: the result is the absent value minus 2^31 | compute the Gauss sum without overflow (in `long`) and return the absent value for every array length | not executed | MissingNumberFinder.FindMissingOverflows | MissingNumberFinder.FindMissingCorrected |
