# Containers and parsers, verified

This project models the containers, the sorting algorithms and the parser of the repository, and proves what they promise.
It has one Dafny module for each component; what the C code changes in place is changed in place here: nodes are relinked,
arrays are overwritten, and methods are proved against functions on the old state.

| modules | what they model |
|---|---|
| `RBModel`, `RBTree` | the red-black tree with its sentinel; nodes are relinked and never copied |
| `SplayModel`, `SplayTree` | the top-down splay tree |
| `Rotation`, `StableOrder`, `MergeSort`, `Permutation`, `QuickSort`, `Heap`, `Powers` | rotation by cycles, stable sorts with and without a buffer, quicksort with its fixed stack, heaps and partial sort |
| `Vectors`, `Texts`, `Bits`, `Rings`, `DequeModel`, `Deques` | the growing array, the string on top of it, the power-of-two ring, and the deque as a sliding map of rings |
| `ListSort` | the circular doubly linked list: merge sort, merge, splice, reverse, swap |
| `TableModel`, `HashTable` | the chained table of libevent with its two ways of growing |
| `MultiTable` | the hash multimap, in which equal keys stand together |
| `JsonText`, `JsonItem`, `JsonPrint`, `JsonParse` | the printer and the parser of JSON, on text and on linked items |
| `JsonUnicode`, `JsonLiteral`, `JsonGrammar`, `JsonAccept` | what texts mean, told by a grammar and tables of their own; what the parser accepts and refuses, and where its errors are |
| `JsonLayout`, `JsonStandard`, `JsonRoundTrip` | how printed text is laid out, that it is JSON by RFC 8259, and that it is read back |
| `MinHeap` | the timer heap, whose events know their index |
| `Locks` | ordered double locking, as a state machine over single lock operations |
| `Order` | total preorders; every comparator is one |

A structure on the heap is tied to a value that says what it looks like as a whole: the links of a tree as a map from nodes
to cells with their in-order positions, the chains of a table as sequences, the rings of a deque as the pieces of one
sequence. `Valid()` says that both agree. The contracts are about the value: `order` is the in-order sequence of a tree,
`chains` the buckets of a table, `Contents()` the elements of a deque, `Text` the characters of a string, `events` the
events of a heap. The comparator is an arbitrary total preorder, a hash is an arbitrary function that agrees with key
equality. Whether memory can be had is a parameter (`room`, `more`, `enough`, `tmp`, `mem`), so that every failing path is
covered too.

## Findings

Four promises of the code do not hold on all inputs. For each the project has an input that breaks it and the exact
condition under which it holds, for all inputs.

- **Surrogate pairs** (`Chinese_Word_Sepration/cJSON.c:177`). The two halves are joined by a bitwise "or" with 0x10000 where an
  addition is needed. `JsonUnicode.PairIsRight`: the character is the one of section 2.2 of RFC 2781 if and only if bit 0x40
  of the high half is clear. `JsonLiteral.LiteralMeans` says so for whole literals; `JsonUnicode.WrongPair` is an input.
- **Strings without an end** (`Chinese_Word_Sepration/cJSON.c:146-196`). The parser is to read JSON, but the scan of a string stops at
  the end of the text as it does at a quote. `JsonAccept.Accepts`: a value is read if and only if a spelling of it stands
  there, or a string that the end of the text breaks off, which is none (`NotBoth`); `JsonAccept.UnclosedIsTaken` is an input. Apart from that the
  spellings are those of RFC 8259 for integers of 32 bits, and a few more: any control character is white space and may
  stand in a string, a backslash may stand before any character, a zero may stand before other digits, and a minus without
  digits is zero.
- **LOCK2 inside of LOCK2** (`Chinese_Word_Sepration/libevent/evthread-internal.h:335-337`). The comment promises that two threads that
  lock with LOCK2 do not deadlock. `Locks.ExactOrder`: a thread is safe beside all threads of plain sections if and only if
  every lock it takes inside of other sections is null, held already, or above all that it holds. `Locks.NestedDeadlock`
  is an input.
- **Edits that go on at the terminator** (`Chinese_Word_Sepration/cstl/string.h:477`). The test for a source inside of the string leaves
  out its terminator, so an insertion from there reads a shifted place or a freed buffer; a replacement gets there by
  passing on the rest of its source. `Texts.RightExactly` gives the condition on the string, the source, the place, the
  length and the capacity; `Texts.EndIsLost` is an input.

## Model

| member | source | states |
|---|---|---|
| `RBTree.Tree.Insert` | Chinese_Word_Sepration/cstl/rbtree.h:457-486 | The tree stays a valid red-black tree; the in-order node sequence is the old one with the new node put in behind every key not above its own; no other node changes identity or key. |
| `RBTree.Tree.BalanceForInsert` | Chinese_Word_Sepration/cstl/rbtree.h:397-455 | From a tree whose only flaw is one red node under a red parent, all invariants hold again and every node keeps its in-order position. |
| `RBTree.Tree.Erase` | Chinese_Word_Sepration/cstl/rbtree.h:579-629 | The tree stays valid; the in-order sequence is the old one without exactly the given node; every other node stays the same node with the same key. |
| `RBTree.Tree.EraseStep` | Chinese_Word_Sepration/cstl/rbtree.h:501-577 | One round of the repair either pays the missing black node, with the order kept, or moves the debt to the parent and touches no link. |
| `RBTree.Tree.BalanceForErase` | Chinese_Word_Sepration/cstl/rbtree.h:488-577 | From a tree in which one slot is short of a black node, all invariants hold again and every node keeps its in-order position. |
| `RBTree.Tree.RotateRight` | Chinese_Word_Sepration/cstl/rbtree.h:338-354 | A turn of a node below its left child changes exactly the links of a rotation and keeps every in-order position. |
| `RBTree.Tree.RotateLeft` | Chinese_Word_Sepration/cstl/rbtree.h:356-372 | A turn of a node below its right child, likewise. |
| `RBTree.Tree.SwapParentChild` | Chinese_Word_Sepration/cstl/rbtree.h:278-298 | A node and its child exchange their places in the tree, whichever side the child is on. |
| `RBTree.Tree.SwapNodes` | Chinese_Word_Sepration/cstl/rbtree.h:300-336 | Two nodes without a common parent exchange places and colours: the tree is the old one with the two names exchanged, also when one is the parent of the other. |
| `RBTree.Tree.Find` | Chinese_Word_Sepration/cstl/rbtree.h:191-213 | Returns a node with an equivalent key, and the header exactly when no node has one. |
| `RBTree.Tree.Count` | Chinese_Word_Sepration/cstl/rbtree.h:215-228 | The equivalent keys are one contiguous stretch of the order, and its length is returned. |
| `RBTree.Tree.LowerBound` | Chinese_Word_Sepration/cstl/rbtree.h:230-246 | Every key in front of the result is below the argument, every key from it on is not. |
| `RBTree.Tree.UpperBound` | Chinese_Word_Sepration/cstl/rbtree.h:248-264 | Every key in front of the result is not above the argument, every key from it on is. |
| `RBTree.Tree.Begin` | Chinese_Word_Sepration/cstl/rbtree.h:631-643 | Returns the node at position 0 of the order, the header for an empty tree. |
| `RBTree.Tree.Next` | Chinese_Word_Sepration/cstl/rbtree.h:671-689 | Returns the node one position further in the order, the header behind the last one. |
| `RBTree.Tree.Prev` | Chinese_Word_Sepration/cstl/rbtree.h:691-709 | Returns the node one position before, the header in front of the first one. |
| `RBTree.Tree.EraseAt` | Chinese_Word_Sepration/cstl/rbtree.h:802-814 | Erases the node and returns the one that now has its position. |
| `RBTree.Tree.EraseRange` | Chinese_Word_Sepration/cstl/rbtree.h:816-831 | Cuts exactly the positions from `first` to `last` out of the order and returns their number; the iterator `last` stays valid. |
| `RBTree.Tree.EraseKey` | Chinese_Word_Sepration/cstl/rbtree.h:833-848 | Cuts out exactly the stretch of nodes with an equivalent key and returns its length. |
| `RBModel.HeightBound` | Chinese_Word_Sepration/libevent/tree.h:54 | A valid tree of n nodes has height h with 2^h <= (n + 1)^2. |
| `RBModel.EqualBlackHeights` | Chinese_Word_Sepration/cstl/rbtree.h:488-577 | In every valid tree, every way from a node down to the sentinel meets the same number of black nodes. |
| `RBModel.TraversalIsOrder` | Chinese_Word_Sepration/cstl/rbtree.h:671-709 | Following left links, node, right links gives exactly the sequence that all other contracts speak of. |
| `Rotation.Gcd` | Chinese_Word_Sepration/cstl/algorithm.h:173-182 | The result divides both arguments and is an integer combination of them. |
| `Rotation.TurnDistinct` | Chinese_Word_Sepration/cstl/algorithm.h:184-236 | No cell of a cycle is filled twice: x -> x + k mod n meets every cell once when k and n have no common divisor. |
| `Rotation.LastTurn` | Chinese_Word_Sepration/cstl/algorithm.h:184-236 | The cycle comes back to its start after exactly l steps forward and k - 1 back, and not before. |
| `Rotation.CycleForward` | Chinese_Word_Sepration/cstl/algorithm.h:209-220 | One pass of the loop with the shorter steps forward turns exactly one more of the gcd cycles. |
| `Rotation.CycleBack` | Chinese_Word_Sepration/cstl/algorithm.h:221-232 | One pass of the loop with the shorter steps back turns exactly one more cycle. |
| `Rotation.RotateAux` | Chinese_Word_Sepration/cstl/algorithm.h:184-236 | For all first <= middle <= last the two parts are exchanged, everything outside is as before, and first + (last - middle) is returned. |
| `StableOrder.MergeSorted` | Chinese_Word_Sepration/cstl/algorithm.h:238-299 | The functional merge of two sorted sequences is sorted. |
| `StableOrder.MergeStable` | Chinese_Word_Sepration/cstl/algorithm.h:238-299 | The functional merge keeps all elements, and equivalent ones in their old order. |
| `StableOrder.MergeCut` | Chinese_Word_Sepration/cstl/algorithm.h:238-276 | Merging falls apart at any cut that separates small from great in both sequences. |
| `StableOrder.StablySortedUnique` | Chinese_Word_Sepration/cstl/algorithm.h:301-338 | Two sorted sequences with the same elements, equivalent ones in the same order, are equal. |
| `StableOrder.OneStableResult` | Chinese_Word_Sepration/cstl/algorithm.h:322-338 | A stable sort has one result only, so the buffered and the bufferless path give the same. |
| `MergeSort.InsertionSort` | Chinese_Word_Sepration/cstl/algorithm.h:73-84 | The range becomes its stable sort; nothing outside changes. |
| `MergeSort.MergeWithBuffer` | Chinese_Word_Sepration/cstl/algorithm.h:278-299 | The bitonic merge through the scratch buffer equals the functional stable merge of the two runs. |
| `MergeSort.MergeWithoutBuffer` | Chinese_Word_Sepration/cstl/algorithm.h:238-276 | The recursive merge by rotations equals the same functional merge; the recursion ends because both lengths together shrink. |
| `MergeSort.MergeIsStableSort` | Chinese_Word_Sepration/cstl/algorithm.h:301-320 | Merging the stable sorts of two halves is the stable sort of the whole. |
| `MergeSort.Sort` | Chinese_Word_Sepration/cstl/algorithm.h:301-320 | The range becomes its stable sort, whether or not a buffer is given. |
| `MergeSort.StableSort` | Chinese_Word_Sepration/cstl/algorithm.h:322-338 | The same for the whole operation, whether or not the buffer can be allocated. |
| `MergeSort.InplaceMerge` | Chinese_Word_Sepration/cstl/algorithm.h:490-509 | The functional merge of two sorted runs, whether or not the buffer can be allocated. |
| `MergeSort.LowerBound` | Chinese_Word_Sepration/cstl/algorithm.h:340-362 | The first index whose element is not below the value; every one in front is. |
| `MergeSort.UpperBound` | Chinese_Word_Sepration/cstl/algorithm.h:364-386 | The first index whose element is above the value; none in front is. |
| `MergeSort.BinarySearch` | Chinese_Word_Sepration/cstl/algorithm.h:388-405 | The first equivalent element, and the end exactly when there is none. |
| `QuickSort.ChoosePivot` | Chinese_Word_Sepration/cstl/algorithm.h:117-133 | A permutation of the segment whose ends are sentinels for the pivot. |
| `QuickSort.Partition` | Chinese_Word_Sepration/cstl/algorithm.h:134-152 | No scan leaves the segment; the pivot gets its final place, with nothing greater in front and nothing smaller behind. |
| `QuickSort.Room` | Chinese_Word_Sepration/cstl/algorithm.h:86-171 | With the smaller part always on top, entry j of the stack has at most n / 2^j elements, so 32 entries are enough for every n < 10 * 2^31. |
| `QuickSort.Settle` | Chinese_Word_Sepration/cstl/algorithm.h:86-171 | Rearranging one pending segment, and splitting it where it is in order, keeps every settled element at its place. |
| `QuickSort.Sort` | Chinese_Word_Sepration/cstl/algorithm.h:86-171 | The range is a sorted permutation of the old one; nothing outside changes; the index into the fixed stack never leaves it. |
| `Heap.TopIsGreatest` | Chinese_Word_Sepration/cstl/algorithm.h:511-548 | The first element of a heap is a greatest one. |
| `Heap.UpHeap` | Chinese_Word_Sepration/cstl/algorithm.h:511-524 | A last element that may be too great is brought to its place: heap order holds again, the range is permuted. |
| `Heap.DownHeap` | Chinese_Word_Sepration/cstl/algorithm.h:526-548 | An element that may be too small is brought to its place: heap order holds again, the range is permuted. |
| `Heap.PushHeap` | Chinese_Word_Sepration/cstl/algorithm.h:550-559 | A heap of n - 1 elements and one more become a heap of n. |
| `Heap.PopHeap` | Chinese_Word_Sepration/cstl/algorithm.h:561-577 | The greatest element goes behind the others, which stay a heap. |
| `Heap.MakeHeap` | Chinese_Word_Sepration/cstl/algorithm.h:579-591 | Any range becomes a heap of the same elements. |
| `Heap.SortHeap` | Chinese_Word_Sepration/cstl/algorithm.h:593-609 | A heap becomes a sorted permutation of itself. |
| `Heap.PartialSort` | Chinese_Word_Sepration/cstl/algorithm.h:611-635 | For 0 < k <= n the first k places hold the k smallest elements in order, and the whole range is a permutation. |
| `SplayTree.Tree.StepLeft` | Chinese_Word_Sepration/libevent/tree.h:81-110 | One round to the left keeps the left tree, the middle and the right tree in order and makes the middle smaller, or finds that the search ends at the root. |
| `SplayTree.Tree.Splay` | Chinese_Word_Sepration/libevent/tree.h:202-235 | Top-down splaying ends, keeps the in-order sequence, and brings the node that the search ends at to the root: a match, or else a neighbour of the place of the key. |
| `SplayTree.Tree.SplayFor` | Chinese_Word_Sepration/libevent/tree.h:202-235 | After a splay for a key, no node has the key unless the root has it. |
| `SplayTree.Tree.Find` | Chinese_Word_Sepration/libevent/tree.h:121-130 | Returns the node with the key, now the root, and null exactly when there is none; the set of nodes is unchanged. |
| `SplayTree.Tree.Next` | Chinese_Word_Sepration/libevent/tree.h:132-144 | Returns the node behind the given one in the order, null behind the last. |
| `SplayTree.Tree.Insert` | Chinese_Word_Sepration/libevent/tree.h:157-179 | Puts the node in at its place and nothing else changes, or returns the node that has its key and changes no node. |
| `SplayTree.Tree.Remove` | Chinese_Word_Sepration/libevent/tree.h:181-200 | Takes exactly the node with the key out of the sequence and returns the argument; without one nothing leaves and null is returned. |
| `SplayTree.Tree.MinMax` | Chinese_Word_Sepration/libevent/tree.h:240-271 | Brings the first or the last node of the order to the root. |
| `SplayModel.TurnRightKeeps` | Chinese_Word_Sepration/libevent/tree.h:81-90 | A right turn in the middle of a splay keeps the three trees and the order. |
| `SplayModel.AssembleKeeps` | Chinese_Word_Sepration/libevent/tree.h:105-110 | Joining the three trees gives one search tree with the old order. |
| `SplayModel.TraversalIsOrder` | Chinese_Word_Sepration/libevent/tree.h:132-144 | Following left links, node, right links gives exactly the sequence that the contracts of the splay tree speak of. |
| `JsonParse.ParseNumber` | Chinese_Word_Sepration/cJSON.c:96-116 | Reads a 32-bit integer with its optional sign, and stops behind its last digit. |
| `JsonPrint.PrintNumber` | Chinese_Word_Sepration/cJSON.c:119-139 | Every 32-bit integer is printed in decimal, and its digits fit the buffer of 21. |
| `JsonParse.CountString` | Chinese_Word_Sepration/cJSON.c:148 | The first pass over a literal counts what the buffer is made for. |
| `JsonParse.DecodeString` | Chinese_Word_Sepration/cJSON.c:153-196 | The second pass writes the decoded bytes and stays inside of the buffer that the first pass ordered. |
| `JsonParse.ParseString` | Chinese_Word_Sepration/cJSON.c:143-200 | The item gets the decoded string; anything but a quote in front is an error at that place. |
| `JsonParse.WriteUtf8` | Chinese_Word_Sepration/cJSON.c:180-188 | The bytes of a character are written from the last to the first and are its UTF-8 form. |
| `JsonParse.DecodeUnicode` | Chinese_Word_Sepration/cJSON.c:167-189 | An escape with four digits, a surrogate pair, and every invalid combination are decoded as the reading function says. |
| `JsonUnicode.HexCodeDenotes` | Chinese_Word_Sepration/cJSON.c:168 | Four hexadecimal digits, of either case, are read as the number that they denote in base 16. |
| `JsonUnicode.ShortEscapes` | Chinese_Word_Sepration/cJSON.c:160-190 | Each of the eight short escapes of section 7 of RFC 8259 stands for its character. |
| `JsonUnicode.OtherEscapes` | Chinese_Word_Sepration/cJSON.c:190 | Behind a backslash any other character, but u, stands for itself. |
| `JsonUnicode.EncodeIsUtf8` | Chinese_Word_Sepration/cJSON.c:180-188 | Every character that is not a surrogate is written as the table in section 3 of RFC 3629 has it. |
| `JsonLiteral.Utf8IsEncode` | Chinese_Word_Sepration/cJSON.c:180-188 | A character has no other UTF-8 form by that table than the one that is written. |
| `JsonUnicode.EscapeOfCharacter` | Chinese_Word_Sepration/cJSON.c:167-189 | An escape for a character other than zero and the surrogates gives its UTF-8 form. |
| `JsonUnicode.EscapeDenotes` | Chinese_Word_Sepration/cJSON.c:167-189 | An escape with four digits gives the UTF-8 form of the character whose number the digits denote. |
| `JsonUnicode.PairIsRight` | Chinese_Word_Sepration/cJSON.c:172-178 | A surrogate pair is joined to the number of section 2.2 of RFC 2781 if and only if bit 0x40 of the high half is clear; otherwise the result is too small by 0x10000. |
| `JsonUnicode.EscapeOfPair` | Chinese_Word_Sepration/cJSON.c:167-189 | A pair of escapes gives the UTF-8 form of its character if and only if bit 0x40 of the high half is clear. |
| `JsonUnicode.WrongPair` | Chinese_Word_Sepration/cJSON.c:177 | The pair of U+20000 is read as U+10000. |
| `JsonLiteral.CodeDenotes` | Chinese_Word_Sepration/cJSON.c:167-168 | The code of an escape in a literal is the number that its four digits denote. |
| `JsonLiteral.ShortMeaning` | Chinese_Word_Sepration/cJSON.c:160-190 | A short escape in a literal stands for its one character. |
| `JsonLiteral.TakenRead` | Chinese_Word_Sepration/cJSON.c:143-200 | Every sequence of characters and escapes, lone surrogates and bad pairs included, is decoded to what these make sense as, up to the closing quote or the end of the text. |
| `JsonLiteral.CharsTaken` | Chinese_Word_Sepration/cJSON.c:143-200 | Whatever is read as the content of a string is such a sequence. |
| `JsonLiteral.LiteralRead` | Chinese_Word_Sepration/cJSON.c:143-200 | Every literal of the grammar in section 7 of RFC 8259 is read, up to its closing quote. |
| `JsonLiteral.LiteralCounted` | Chinese_Word_Sepration/cJSON.c:148-196 | For every literal of that grammar the counting pass stops at the closing quote and counts at least the decoded bytes. |
| `JsonLiteral.LiteralMeans` | Chinese_Word_Sepration/cJSON.c:153-196 | A literal without lone surrogates and zero characters is decoded to the UTF-8 of its characters if and only if no high surrogate in it has bit 0x40. |
| `JsonUnicode.CountCovers` | Chinese_Word_Sepration/cJSON.c:148-196 | For every text that the second pass can read, the first pass stops at the same place and counts at least the decoded bytes. |
| `JsonPrint.EscapedLength` | Chinese_Word_Sepration/cJSON.c:208 | The first pass of the string printer counts exactly the escaped bytes. |
| `JsonPrint.PrintStringPtr` | Chinese_Word_Sepration/cJSON.c:203-236 | The quoted and escaped string with its zero byte fills the buffer exactly; the zero bytes written in between stay inside of it. |
| `JsonPrint.ComposeArray` | Chinese_Word_Sepration/cJSON.c:347-375 | The size added up over the elements is enough for every byte that is written, the zero bytes in between included, and the text is the elements joined. |
| `JsonPrint.PrintArray` | Chinese_Word_Sepration/cJSON.c:328-376 | The buffer holds the printed form of the list, at every depth, formatted or not. |
| `JsonPrint.ComposeObject` | Chinese_Word_Sepration/cJSON.c:432-469 | The size added up over names and values is enough for every byte that is written, and the text is the fields joined. |
| `JsonPrint.PrintObject` | Chinese_Word_Sepration/cJSON.c:415-470 | The buffer holds the printed form of the object, at every depth, formatted or not. |
| `JsonPrint.PrintValue` | Chinese_Word_Sepration/cJSON.c:282-297 | The linked tree of items is printed as its value. |
| `JsonLayout.ListLayout` | Chinese_Word_Sepration/cJSON.c:364-375 | The elements of a list stand between brackets, parted by a comma, and by a comma and a space with formatting. |
| `JsonLayout.ObjectLayout` | Chinese_Word_Sepration/cJSON.c:448-469 | With formatting every name of an object that is not empty stands right behind a newline and one tab more than the depth, a colon and a tab part it from its value, and the closing brace stands right behind a newline and as many tabs as the depth; without formatting there are only commas and colons. |
| `JsonLayout.EmptyLayout` | Chinese_Word_Sepration/cJSON.c:448-469 | An empty object is printed with a line break between its braces, or as the braces alone. |
| `JsonLayout.FormattingIsBlank` | Chinese_Word_Sepration/cJSON.c:262-263 | With the white space outside of literals taken out, a formatted print is the unformatted one, which has none. |
| `JsonStandard.PrintIsJson` | Chinese_Word_Sepration/cJSON.c:119-470 | Whatever is printed is in the grammar of RFC 8259 and stands for the printed value: no leading zeros, the shortest escapes, and white space only where section 2 allows it. |
| `JsonStandard.CharNeat` | Chinese_Word_Sepration/cJSON.c:213-232 | A character of a string is printed as itself, by its short escape, or as a control character by its number in lower-case digits. |
| `JsonGrammar.SyntaxRead` | Chinese_Word_Sepration/cJSON.c:267-412 | Every text that is put together by the grammar is read as the value that it stands for, to its end, unless a number goes on behind it. |
| `JsonGrammar.SyntaxTaken` | Chinese_Word_Sepration/cJSON.c:267-412 | Whatever is read, except for a string that is broken off, is put together by the grammar. |
| `JsonAccept.Accepts` | Chinese_Word_Sepration/cJSON.c:267-412 | A value is read from one place to another if and only if a spelling of it stands there, or a string that the end of the text breaks off. |
| `JsonAccept.NotBoth` | Chinese_Word_Sepration/cJSON.c:143-200 | A string that is broken off is a spelling of nothing. |
| `JsonAccept.Refuses` | Chinese_Word_Sepration/cJSON.c:267-412 | A refused text begins with no spelling of any value. |
| `JsonAccept.ErrorPlace` | Chinese_Word_Sepration/cJSON.c:37-412 | Up to the place of the error the text is the front of a spelling, and with the character at that place it is not, unless that is the first letter of a word. |
| `JsonAccept.OnlyLeftOpen` | Chinese_Word_Sepration/cJSON.c:96-196 | The model leaves an outcome open only where there is a number that is not a 32-bit integer, or an escape that is cut short. |
| `JsonAccept.EveryOutcome` | Chinese_Word_Sepration/cJSON.c:252-412 | All of this for every text and every place in it. |
| `JsonAccept.OneValue` | Chinese_Word_Sepration/cJSON.c:267-412 | A text is a spelling of one value only. |
| `JsonAccept.UnclosedIsTaken` | Chinese_Word_Sepration/cJSON.c:155-197 | A string without its closing quote is read. |
| `JsonParse.ParseArray` | Chinese_Word_Sepration/cJSON.c:300-325 | The new children are linked in both directions and stand for the elements that were read; errors are where the reading function has them. |
| `JsonParse.ParseObject` | Chinese_Word_Sepration/cJSON.c:379-412 | The same for objects, with the names moved to their children. |
| `JsonParse.ParseValue` | Chinese_Word_Sepration/cJSON.c:267-279 | The item becomes a tree of fresh items that stands for the value that the text begins with, or the place of the error is told. |
| `JsonParse.Parse` | Chinese_Word_Sepration/cJSON.c:252-260 | A tree of the value is returned exactly when the text, behind white space, begins with one by the grammar, or with a string that is broken off; an error is where the text stops being the front of a spelling. |
| `JsonRoundTrip.NumberBack` | Chinese_Word_Sepration/cJSON.c:96-139 | Every printed integer is read back as itself, to its end. |
| `JsonRoundTrip.StringBack` | Chinese_Word_Sepration/cJSON.c:143-236 | Every string without a zero byte is read back from its quoted form, to its end. |
| `JsonRoundTrip.PrintBack` | Chinese_Word_Sepration/cJSON.c:96-470 | At any place in a text and at any depth, a printed value is read back as itself, to its end. |
| `JsonRoundTrip.RoundTrip` | Chinese_Word_Sepration/cJSON.c:96-470 | Every value of null, booleans, 32-bit integers, strings without zero bytes, lists and named objects is read back from its print, formatted or not, and the parser stops exactly at the end. |
| `JsonParse.PrintAndParse` | Chinese_Word_Sepration/cJSON.c:252-470 | The same on the linked items: printing and parsing gives a fresh tree of the same value. |
| `Locks.OrderOfSections` | Chinese_Word_Sepration/libevent/evthread-internal.h:324-354 | A program of LOCK2 sections, inside of each other to any depth, takes its locks in ascending order if and only if every section is under locks that are null, held already, or above all held ones. |
| `Locks.FlatInOrder` | Chinese_Word_Sepration/libevent/evthread-internal.h:335-354 | Sections that are not inside of each other satisfy that, null and equal locks included. |
| `Locks.StepTracks` | Chinese_Word_Sepration/libevent/evthread-internal.h:324-354 | Every step of every thread keeps the record of which thread holds which lock how often, and the order of what it has still to take. |
| `Locks.NoDeadlock` | Chinese_Word_Sepration/libevent/evthread-internal.h:335-354 | For any number of threads that take their locks in ascending order, recursively or not, in every interleaving: as long as a thread is unfinished, some thread can step. |
| `Locks.AllReleased` | Chinese_Word_Sepration/libevent/evthread-internal.h:335-354 | When all threads are finished, every lock count is back at zero. |
| `Locks.AllComplete` | Chinese_Word_Sepration/libevent/evthread-internal.h:335-354 | From every state that such threads can get to, they can all come to their end with no lock held. |
| `Locks.RunsEnd` | Chinese_Word_Sepration/libevent/evthread-internal.h:335-354 | Every interleaving ends: a run has exactly as many steps as operations are done. |
| `Locks.ExactOrder` | Chinese_Word_Sepration/libevent/evthread-internal.h:335-337 | A thread of LOCK2 sections cannot get into a deadlock beside any threads of plain LOCK2 sections if and only if its own sections are in that order. |
| `Locks.NestedDeadlock` | Chinese_Word_Sepration/libevent/evthread-internal.h:335-337 | A deadlock of two threads, one of which has a section inside of another one under a higher lock. |
| `MinHeap.LaterIsMore` | Chinese_Word_Sepration/libevent/util.h:411-414 | A time is later than another one if and only if it is more microseconds. |
| `MinHeap.TopIsFirst` | Chinese_Word_Sepration/libevent/minheap-internal.h:59-62 | In an ordered heap no event is due before the first one. |
| `MinHeap.Heap.Top` | Chinese_Word_Sepration/libevent/minheap-internal.h:69 | Returns an event of the least number of microseconds, null for an empty heap. |
| `MinHeap.Heap.Push` | Chinese_Word_Sepration/libevent/minheap-internal.h:71-77 | Adds exactly the event; heap order and all back-indices hold; it fails exactly when it needs memory and gets none, and then nothing changes. |
| `MinHeap.Heap.Pop` | Chinese_Word_Sepration/libevent/minheap-internal.h:79-89 | Takes out an event of the least number of microseconds; its index becomes -1, all others keep theirs right. |
| `MinHeap.Heap.Erase` | Chinese_Word_Sepration/libevent/minheap-internal.h:96-115 | Takes out the event wherever it stands, with heap order and back-indices restored by one shift in one direction; an event that is in no heap is refused. |
| `MinHeap.Heap.Reserve` | Chinese_Word_Sepration/libevent/minheap-internal.h:117-131 | Room for the wanted number, and -1 with nothing changed exactly when that needs memory and gets none. |
| `MinHeap.Heap.ShiftUp` | Chinese_Word_Sepration/libevent/minheap-internal.h:133-143 | Heap order and back-indices hold again after the event has moved up from the hole; the same events. |
| `MinHeap.Heap.ShiftDown` | Chinese_Word_Sepration/libevent/minheap-internal.h:145-158 | Likewise downwards, also for a hole behind the last event. |
| `HashTable.Table.NextPrime` | Chinese_Word_Sepration/libevent/ht-internal.h:320-327 | The smallest prime of the table whose load limit is above the wanted size. |
| `HashTable.LimitIsGreatest` | Chinese_Word_Sepration/libevent/ht-internal.h:325 | The load limit is the greatest number of elements that is not above load times length. |
| `HashTable.Table.LoadKept` | Chinese_Word_Sepration/libevent/ht-internal.h:399-403 | A table within its limit is within load times length. |
| `HashTable.Rehash` | Chinese_Word_Sepration/libevent/ht-internal.h:328-345 | The fresh-table path ends with every old element once in bucket hash mod the new length. |
| `HashTable.SplitChain` | Chinese_Word_Sepration/libevent/ht-internal.h:356-366 | Splitting one chain where it stands leaves exactly the elements that belong there and loses none. |
| `HashTable.SplitAll` | Chinese_Word_Sepration/libevent/ht-internal.h:346-366 | The in-place path ends with every old element once in bucket hash mod the new length. |
| `HashTable.PathsAgree` | Chinese_Word_Sepration/libevent/ht-internal.h:312-371 | Whatever path was taken, every bucket holds the same elements. |
| `HashTable.Table.Grow` | Chinese_Word_Sepration/libevent/ht-internal.h:312-371 | Growth keeps the elements and the table valid and takes the smallest sufficient prime; it fails exactly when neither path has memory, and then changes nothing. |
| `HashTable.Table.FindPlace` | Chinese_Word_Sepration/libevent/ht-internal.h:139-152 | Finds the first matching element of its chain and the one in front of it. |
| `HashTable.Table.Find` | Chinese_Word_Sepration/libevent/ht-internal.h:155-163 | Returns the first matching element, and null exactly when there is none. |
| `HashTable.Table.Insert` | Chinese_Word_Sepration/libevent/ht-internal.h:166-177 | Adds exactly the element at the head of its bucket; says exactly when the table is within its limit afterwards. |
| `HashTable.Table.Replace` | Chinese_Word_Sepration/libevent/ht-internal.h:181-199 | The element takes the place of the matching one, which is returned, or is added when there is none. |
| `HashTable.Table.Remove` | Chinese_Word_Sepration/libevent/ht-internal.h:202-215 | Takes out exactly the first matching element; without one nothing changes. |
| `HashTable.Table.Start` | Chinese_Word_Sepration/libevent/ht-internal.h:246-256 | Returns the first element of the traversal, null exactly for an empty table. |
| `HashTable.Table.Next` | Chinese_Word_Sepration/libevent/ht-internal.h:262-277 | Returns the next element of the traversal. |
| `HashTable.Table.NextRemove` | Chinese_Word_Sepration/libevent/ht-internal.h:277-296 | Takes the element out and returns the one that followed it. |
| `HashTable.Table.Walk` | Chinese_Word_Sepration/libevent/ht-internal.h:120-123 | The loop over all elements meets each exactly once, in the traversal order. |
| `HashTable.Table.RepIsBad` | Chinese_Word_Sepration/libevent/ht-internal.h:384-417 | Returns 0 if and only if counters and buckets agree and the table is within its limit. |
| `Vectors.Vector.Expand` | Chinese_Word_Sepration/cstl/vector.h:210-216 | Room for the wanted number with the elements kept; fails exactly when the buffer is too small and there is no memory. |
| `Vectors.Vector.InsertGap` | Chinese_Word_Sepration/cstl/vector.h:326-332 | Opens a gap; elements in front and behind are kept, and inside of it the old ones still stand. |
| `Vectors.Vector.InsertArray` | Chinese_Word_Sepration/cstl/vector.h:381-392 | Inserts the given elements; a failure changes nothing. |
| `Vectors.Vector.InsertRange` | Chinese_Word_Sepration/cstl/vector.h:396-421 | Inserts a stretch of a vector, which may be this very one, as it was before the call. |
| `Vectors.Vector.Erase` | Chinese_Word_Sepration/cstl/vector.h:426-434 | Takes exactly the stretch out. |
| `Vectors.FillWhole` | Chinese_Word_Sepration/cstl/vector.h:405-415 | A source on one side of the gap is copied right. |
| `Vectors.FillSplit` | Chinese_Word_Sepration/cstl/vector.h:405-415 | A source that the gap has torn apart is copied right, in two pieces. |
| `Texts.InsertLen` | Chinese_Word_Sepration/cstl/string.h:466-511 | For every source, inside the string or not, the terminator included, and for every capacity: what is inserted, and that it is what was asked for whenever the condition holds; the trailing terminator is kept and a failure changes nothing. |
| `Texts.ReplaceLen` | Chinese_Word_Sepration/cstl/string.h:537-602 | The same for replacing, in every overlap and capacity case. |
| `Texts.RightExactly` | Chinese_Word_Sepration/cstl/string.h:466-602 | An edit writes its source, whatever a freed buffer reads as, if and only if the condition holds: it does not go on at the terminator, or is at the end of the string, or the last character is a terminator too (with room), or the source begins in front of the terminator (without). |
| `Texts.EndIsLost` | Chinese_Word_Sepration/cstl/string.h:576-578 | Replacing the first character of "abc" by its last one and the terminator writes the last one twice. |
| `Texts.Erase` | Chinese_Word_Sepration/cstl/string.h:331-343 | Takes out at most the wanted number of characters; the terminator is kept. |
| `Texts.Resize` | Chinese_Word_Sepration/cstl/string.h:355-370 | The first characters are kept, the others are the fill character, the terminator is behind them; a failure changes nothing. |
| `Texts.Search` | Chinese_Word_Sepration/cstl/string.h:635-650 | The first place at which the pattern occurs, and none exactly when it does not. |
| `Texts.SearchBack` | Chinese_Word_Sepration/cstl/string.h:652-667 | The last place at which the pattern occurs, and none exactly when it does not. |
| `Bits.MaskIsRemainder` | Chinese_Word_Sepration/cstl/ring.h:40-41 | For every power of two m, masking with m - 1 is the remainder by m. |
| `Rings.Ring.MoveBackward` | Chinese_Word_Sepration/cstl/ring.h:142-149 | Seen from any slot, the stretch has moved n slots to the back, over the end of the buffer if need be. |
| `Rings.Ring.MoveForward` | Chinese_Word_Sepration/cstl/ring.h:151-157 | Likewise to the front. |
| `Rings.Ring.PushBack` | Chinese_Word_Sepration/cstl/ring.h:159-169 | Appends unless the ring is full. |
| `Rings.Ring.PushFront` | Chinese_Word_Sepration/cstl/ring.h:171-181 | Puts in front unless the ring is full. |
| `Rings.Ring.PopFront` | Chinese_Word_Sepration/cstl/ring.h:183-190 | Takes the first element. |
| `Rings.Ring.PopBack` | Chinese_Word_Sepration/cstl/ring.h:192-199 | Takes the last element. |
| `Rings.Ring.Erase` | Chinese_Word_Sepration/cstl/ring.h:201-229 | Takes exactly the stretch out, by moving the shorter side. |
| `Rings.Ring.InsertArray` | Chinese_Word_Sepration/cstl/ring.h:318-343 | Inserts the elements at the index, by moving the shorter side, or changes nothing when they do not fit. |
| `DequeModel.CoordinateFinds` | Chinese_Word_Sepration/cstl/deque.h:140-151 | For every index, ring and index in the ring are those of the element in the flat sequence. |
| `DequeModel.CoordinateMask` | Chinese_Word_Sepration/cstl/deque.h:148-149 | The index in the ring is the masked distance. |
| `Deques.Deque.constructor` | Chinese_Word_Sepration/cstl/deque.h:338-367 | An empty deque, with one ring in the middle of the map. |
| `Deques.Deque.At` | Chinese_Word_Sepration/cstl/deque.h:140-151 | The coordinate of an index is the place of that element. |
| `Deques.Deque.Get` | Chinese_Word_Sepration/cstl/deque.h:493-501 | The element at an index of the sequence. |
| `Deques.Deque.Put` | Chinese_Word_Sepration/cstl/deque.h:493-501 | Writing through the address of an element changes exactly that element. |
| `Deques.Deque.PopRing` | Chinese_Word_Sepration/cstl/deque.h:153-162 | A ring from the pool, or a new one, that is in no slot. |
| `Deques.Deque.PushRing` | Chinese_Word_Sepration/cstl/deque.h:164-173 | A ring goes back to the pool, or away when that is full. |
| `Deques.Deque.ExpandFront` | Chinese_Word_Sepration/cstl/deque.h:176-226 | Whether the map slides or grows, there is room for the wanted elements in front and the sequence is unchanged; so it is after a failure. |
| `Deques.Deque.ExpandBack` | Chinese_Word_Sepration/cstl/deque.h:229-278 | The same behind. |
| `Deques.Deque.OpenFrontN` | Chinese_Word_Sepration/cstl/deque.h:296-307 | The sequence gets the wanted number of open slots in front. |
| `Deques.Deque.OpenBackN` | Chinese_Word_Sepration/cstl/deque.h:309-320 | The same behind. |
| `Deques.Deque.MoveBackward` | Chinese_Word_Sepration/cstl/deque.h:322-328 | A stretch of the sequence moves to the back, across rings. |
| `Deques.Deque.MoveForward` | Chinese_Word_Sepration/cstl/deque.h:330-336 | A stretch of the sequence moves to the front, across rings. |
| `Deques.Deque.PushBack` | Chinese_Word_Sepration/cstl/deque.h:403-417 | Appends to the sequence, always when there is a free slot; a failure changes nothing. |
| `Deques.Deque.PushFront` | Chinese_Word_Sepration/cstl/deque.h:419-433 | Puts in front of the sequence, always when there is a free slot; a failure changes nothing. |
| `Deques.Deque.PopFront` | Chinese_Word_Sepration/cstl/deque.h:435-448 | Takes the first element. |
| `Deques.Deque.PopBack` | Chinese_Word_Sepration/cstl/deque.h:450-463 | Takes the last element. |
| `Deques.Deque.Clear` | Chinese_Word_Sepration/cstl/deque.h:479-491 | The empty sequence. |
| `Deques.Deque.InsertGap` | Chinese_Word_Sepration/cstl/deque.h:536-555 | Opens a gap by moving the shorter side; a failed expansion leaves the sequence unchanged. |
| `Deques.Deque.InsertArray` | Chinese_Word_Sepration/cstl/deque.h:581-595 | Inserts the elements; a failure changes nothing. |
| `Deques.Deque.InsertRange` | Chinese_Word_Sepration/cstl/deque.h:597-634 | Inserts a stretch of a deque, which may be this very one, as it was before the call. |
| `Deques.Deque.Erase` | Chinese_Word_Sepration/cstl/deque.h:636-678 | Takes exactly the stretch out, by moving the shorter side, and gives empty rings back. |
| `Deques.Deque.Resize` | Chinese_Word_Sepration/cstl/deque.h:680-698 | Shortens the sequence or fills it up; a failure changes nothing. |
| `ListSort.MergeList` | Chinese_Word_Sepration/cstl/list.h:494-530 | The two circles become one: the functional stable merge of their node sequences, linked both ways. |
| `ListSort.MergeSort` | Chinese_Word_Sepration/cstl/list.h:532-555 | The circle holds the same nodes in the order of the functional merge sort. |
| `ListSort.Sort` | Chinese_Word_Sepration/cstl/list.h:557-578 | The same behind the sentinel, which is attached again. |
| `ListSort.SortIsStable` | Chinese_Word_Sepration/cstl/list.h:532-578 | The result holds every node once, ordered by data, with equal ones in their old order. |
| `ListSort.MergeInOrder` | Chinese_Word_Sepration/cstl/list.h:494-530 | The merge of two ordered lists is ordered. |
| `ListSort.MergeInto` | Chinese_Word_Sepration/cstl/list.h:580-613 | The first list gets the merge, the second one is empty; a list merged with itself is unchanged. |
| `ListSort.Splice` | Chinese_Word_Sepration/cstl/list.h:469-492 | Between two lists: the stretch leaves the one and stands in front of the position in the other. |
| `ListSort.SpliceWithin` | Chinese_Word_Sepration/cstl/list.h:469-492 | Within one list: the stretch moves in front of any position outside of it, also right behind or in front of it. |
| `ListSort.Reverse` | Chinese_Word_Sepration/cstl/list.h:615-628 | The same nodes the other way round, linked both ways. |
| `ListSort.Swap` | Chinese_Word_Sepration/cstl/list.h:449-467 | Two lists, neither empty, exchange their nodes. |
| `MultiTable.NextSize` | Chinese_Word_Sepration/cstl/hashtable.h:260-269 | The smallest size of the table that is not below the wanted one, or the last. |
| `MultiTable.Map.constructor` | Chinese_Word_Sepration/cstl/hashtable.h:276-297 | An empty table whose only element is the sentinel. |
| `MultiTable.Map.Begin` | Chinese_Word_Sepration/cstl/hashtable.h:341-359 | Returns the first element of the walk, the sentinel exactly for an empty table. |
| `MultiTable.Map.Next` | Chinese_Word_Sepration/cstl/hashtable.h:368-385 | Returns the next element of the walk, the sentinel at last. |
| `MultiTable.Map.Walk` | Chinese_Word_Sepration/cstl/hashtable.h:341-385 | From the first element to the sentinel, every element is met exactly once. |
| `MultiTable.Map.FindNode` | Chinese_Word_Sepration/cstl/hashtable.h:387-398 | The first element of a chain with the key. |
| `MultiTable.Map.Find` | Chinese_Word_Sepration/cstl/hashtable.h:400-407 | The first element with the key, and the sentinel exactly when there is none. |
| `MultiTable.Map.EqualRange` | Chinese_Word_Sepration/cstl/hashtable.h:409-430 | The range holds exactly the elements with the key. |
| `MultiTable.Map.Count` | Chinese_Word_Sepration/cstl/hashtable.h:432-445 | The number of elements with the key. |
| `MultiTable.Map.Erase` | Chinese_Word_Sepration/cstl/hashtable.h:544-566 | Takes exactly the element out and returns the one that followed; the others keep their order. |
| `MultiTable.Map.EraseKey` | Chinese_Word_Sepration/cstl/hashtable.h:585-599 | Takes out exactly the elements with the key and returns their number. |
| `MultiTable.RehashOne` | Chinese_Word_Sepration/cstl/hashtable.h:675-695 | One node goes from its old bucket into its new one next to an equal key. |
| `MultiTable.MoveAll` | Chinese_Word_Sepration/cstl/hashtable.h:669-696 | All nodes are moved, with every bucket right and equal keys together. |
| `MultiTable.Map.Rehash` | Chinese_Word_Sepration/cstl/hashtable.h:648-704 | The elements are the same, in buckets of hash mod the new size, equal keys together; a table that is large enough is left alone, otherwise the new size is the least sufficient one; the table never shrinks, and it fails exactly when it needs memory and gets none. |
| `MultiTable.Map.SetMaxLoad` | Chinese_Word_Sepration/cstl/hashtable.h:537-542 | The load bound is never below a thousandth. |
| `MultiTable.InsertedGrouped` | Chinese_Word_Sepration/cstl/unordered_map.h:313-327 | Putting an element next to an equal one, or at the head when there is none, keeps equal keys together. |
| `MultiTable.TakenGrouped` | Chinese_Word_Sepration/cstl/hashtable.h:544-566 | Taking an element out keeps equal keys together. |
| `MultiTable.Settle` | Chinese_Word_Sepration/cstl/unordered_map.h:312-327 | Links an element into its bucket next to an equal key. |
| `MultiTable.Map.Ready` | Chinese_Word_Sepration/cstl/unordered_map.h:303-311 | Growth before an insertion, of a crowded table only: afterwards the load fits, unless the sizes are exhausted; it fails exactly when it needs memory and gets none, and then nothing changes. |
| `MultiTable.Map.Insert` | Chinese_Word_Sepration/cstl/unordered_map.h:286-331 | Adds exactly the element, in its bucket next to an equal key. |
| `MultiTable.Map.Copies` | Chinese_Word_Sepration/cstl/unordered_map.h:344-353 | The range, of this table or another one, is copied key by key in the order of the walk; the copies are new. |
| `MultiTable.Map.InsertRange` | Chinese_Word_Sepration/cstl/unordered_map.h:333-394 | Adds exactly the copies of the range, which may be one of this very table, growing at most once; a failure changes nothing. |

## Left out

- Trees: the accessors that set one child (inlined), and nodes given back to the allocator (they leave the modelled store).
- RBTree.Tree.SwapNodes: requires two nodes with different parents, because the code is not right for siblings; erasing never calls it for these.
- The red-black tree of libevent and the second copy of tree.h, which the include guard hides; sets and maps on top of the modelled trees and tables.
- SplayTree.Tree.MinMax: requires an argument other than zero; the same loop serves SPLAY and SPLAY_MINMAX.
- Sorting: reversing a range, the wrapper of rotate, merging into another container. The code forces idx + n > 0 for sort and k > 0 for partial_sort.
- QuickSort.Sort: requires n < 10 * 2^31, the bound up to which the fixed stack is proved to be enough.
- Vector: shrinking, swap, and the accessors; an overflow of sizes is one of the reasons why `room` may be false.
- String: lengths found by searching the terminator, comparison, the variants for one repeated character, and the searches for sets of characters; a source that starts behind the terminator.
- Ring: resize and swap.
- Deque: swap, inserting n copies, deletion; a ring leaves its slot before it is given back, where the code has the two assignments the other way round; allocation failure in the constructor.
- List: single insertion and removal, resize.
- ListSort.Swap: requires two lists that are not empty, because the code writes through aliased sentinels otherwise.
- HashTable.Table.Insert: requires that an empty table can be allocated, and a size below the load limit of the last prime when growth is needed; the code divides by the length of a null table otherwise.
- HashTable.Table.Grow: requires a size below the load limit of the last prime, as the search for a prime does.
- HashTable.Table.Replace: requires a null `next` and an element that is not in the table yet, which the code relies on.
- libevent table: the loops with a callback, the find-or-insert macros, clearing, improving a hash, and an overflow of load times length; the cached hash is a constant field.
- Multimap: values (they travel with their nodes), the map and set with unique keys with their insert and rehash, swap of two tables, clearing, erasing a range, and walking within one bucket. The link from a node to its bucket is a map from nodes to bucket indices; the load factor is a real number.
- JSON: numbers with fractions and exponents or beyond 32 bits, escapes that are cut short, a null name, allocation failure, and lengths beyond an int. The parser's text is read as zero behind its end, the place of an error is a position, and strings held by items are values.
- Timer heap: times are compared as whole numbers, a timeout does not change while its event is in the heap, and sizes do not wrap around.
- Locks: the modes passed to the locks, and locks that are not recursive.
- Sockets, threads, exceptions and the other headers of libevent: input and output, or declarations without bodies.
