# Bid containers: a binary search tree and a chaining hash table

This project models the two in-memory containers of the bid-management
exercise and proves what they guarantee. Both store `Bid` records keyed on
the string `bidId`.

- **Binary search tree** (`BinarySearchTree_New.cpp`). Nodes live on the
  heap and are linked by `left`/`right` pointers. An id strictly smaller
  than a node's id, under string `<`, goes left. Every other id goes right,
  duplicates included. `Search` walks down from the root and stops at the
  first equal id. `Remove` is the three-case deletion: a node with no left
  child is replaced by its right child, one with no right child by its left
  child, and a node with two children takes the bid of its in-order
  successor, which is then removed from the right subtree. The in-order,
  pre-order and post-order walks are read-only recursions.
- **Chaining hash table** (`HashTables_New.cpp`). This is a fixed vector of
  `tableSize` slot nodes, 179 by default. A slot is empty when its `key` is
  `UINT_MAX`. Otherwise it holds the first bid of its bucket and a link to a
  heap chain holding the rest. The bucket of an id is
  `(unsigned) stoi(id) % tableSize`. `Insert` fills an empty slot or appends
  at the chain's tail. `Search` and `Remove` walk slot then chain, comparing
  ids as strings. `Remove` unlinks a chain node, copies the second node
  into the slot, or marks a lone slot empty. `PrintAll` lists the buckets
  in index order.

In Dafny:

- `bid.dfy` (module `BidRecord`) holds the record, `Option`, and the
  default-constructed bid that both `Search` operations return when nothing
  matches.
- `bst_model.dfy` (module `BstModel`) is the tree as a value: string `<`,
  the `Tree` datatype, `Insert`/`Find`/`Remove`/`Leftmost`, the three
  traversals, and lemmas about them.
- `bst.dfy` (module `Bst`) holds the pointer-based tree. `Node` is a heap
  class whose ghost fields are the objects it owns (`Repr`) and the tree
  they form (`Model`). The methods of `BinarySearchTree` mutate the links in
  place and are proved against the functions of `BstModel`.
- `hash_model.dfy` (module `HashModel`) holds the value-level part of the
  table:
  - `stoi` restricted to decimal ids, the unsigned cast, and `hash`;
  - the functions on a bucket: first match, `Search`'s result, and removal
    of the first match;
  - the listing of all buckets;
  - lemmas about all of these.
- `hash_table.dfy` (module `HashTables`) holds the heap table.
  - The slots are `Node` objects held in a fixed array.
  - Ghost state records each bucket's chain of node objects (`Chains`) and
    its bids (`Buckets`), plus a place map `Pos` that keeps nodes distinct.
  - `Valid()` ties this ghost state to the heap: slot then chain,
    `next`-linked, every entry keyed with its bucket and filed under its
    hash, and an empty slot alone.
  - Every operation is a method over that heap. Its contract is stated on
    `Buckets` in terms of the `HashModel` functions.
  - Filling an empty slot is done inline in `Insert`, proved by the
    two-state lemma `FilledSlotValid`.
  - The other pointer updates are small methods of their own: `Append`,
    `Unlink`, `ClearSlot` and `PullUp`. `ClearSlot`'s proof is the single
    two-state lemma `EmptiedValid`. For `Append`, `Unlink` and `PullUp`,
    the proof that `Valid()` still holds is split into two-state lemmas, one
    per part of the invariant (`Appended…`, `Unlinked…`, `Shifted…`).

## Model

| member | source | states |
|---|---|---|
| BstModel.StrLess | BinarySearchTree_New.cpp:26-28 | no contract of its own; specified by StrLessIsLexicographic, StrLessIrreflexive, StrLessAsymmetric, StrLessTransitive, StrLessTotal |
| BstModel.StrLessIsLexicographic | BinarySearchTree_New.cpp:26-28 | `strLessThan` is lexicographic order: a proper prefix, or a smaller character at the first difference |
| BstModel.StrLessIrreflexive | BinarySearchTree_New.cpp:26-28 | no id is less than itself |
| BstModel.StrLessAsymmetric | BinarySearchTree_New.cpp:26-28 | `a < b` excludes `b < a` |
| BstModel.StrLessTransitive | BinarySearchTree_New.cpp:26-28 | string `<` is transitive |
| BstModel.StrLessTotal | BinarySearchTree_New.cpp:26-28 | two ids are equal or one is less than the other |
| BstModel.Insert | BinarySearchTree_New.cpp:201-222 | no contract of its own; specified by InsertElems, InsertOrdered, InsertKeepsOtherFinds, InsertThenFind |
| BstModel.InsertElems | BinarySearchTree_New.cpp:201-222 | insertion adds exactly one copy of the bid and loses none |
| BstModel.InsertOrdered | BinarySearchTree_New.cpp:201-222 | insertion keeps ids left of a node strictly below it and ids right of it not below it |
| BstModel.Find | BinarySearchTree_New.cpp:174-184 | a found bid has exactly the searched id |
| BstModel.FindSound | BinarySearchTree_New.cpp:174-181 | a found bid is one of the stored bids |
| BstModel.FindComplete | BinarySearchTree_New.cpp:174-181 | on an ordered tree, every stored id is found |
| BstModel.FindIffStored | BinarySearchTree_New.cpp:174-184 | on an ordered tree, Search finds an id exactly when a stored bid has it |
| BstModel.InsertKeepsOtherFinds | BinarySearchTree_New.cpp:201-222 | inserting a bid does not change a search for a different id |
| BstModel.InsertThenFind | BinarySearchTree_New.cpp:141-151 | after an insert the new id is found, and other searches are unchanged |
| BstModel.Leftmost | BinarySearchTree_New.cpp:254-257 | no contract of its own; specified by LeftmostIn, LeftmostIsMin, FindLeftmost |
| BstModel.LeftmostIn | BinarySearchTree_New.cpp:254-257 | the successor loop ends at a stored bid |
| BstModel.LeftmostIsMin | BinarySearchTree_New.cpp:254-257 | the successor has the least id of the right subtree |
| BstModel.FindLeftmost | BinarySearchTree_New.cpp:263 | the recursive removal by the successor's id finds the successor itself |
| BstModel.Remove | BinarySearchTree_New.cpp:224-266 | no contract of its own; specified by RemoveCorrect, RemoveOrdered, RemoveElems, RemoveSubset, RemoveAbsent, FindLeftmost |
| BstModel.RemoveAbsent | BinarySearchTree_New.cpp:224-235 | removing an id that Search does not find leaves the tree unchanged |
| BstModel.RemoveElems | BinarySearchTree_New.cpp:224-266 | removal takes out exactly the bid Search would return, or nothing |
| BstModel.RemoveSubset | BinarySearchTree_New.cpp:224-266 | removal never adds a bid |
| BstModel.RemoveTwoChildrenOrdered | BinarySearchTree_New.cpp:252-263 | the promoted successor separates the left subtree from the reduced right subtree |
| BstModel.RemoveOrdered | BinarySearchTree_New.cpp:224-266 | removal keeps the ordering invariant |
| BstModel.RemoveCorrect | BinarySearchTree_New.cpp:224-266 | removal keeps order, changes nothing when the id is absent, and otherwise removes exactly the found bid |
| BstModel.RemoveThenFind | BinarySearchTree_New.cpp:156-158 | when no second bid carries the id, Search no longer finds it after Remove |
| BstModel.InOrder | BinarySearchTree_New.cpp:269-280 | no contract of its own; specified by InOrderElems, InOrderSorted |
| BstModel.PreOrder | BinarySearchTree_New.cpp:294-305 | no contract of its own; specified by PreOrderElems |
| BstModel.PostOrder | BinarySearchTree_New.cpp:281-292 | no contract of its own; specified by PostOrderElems |
| BstModel.InOrderElems | BinarySearchTree_New.cpp:269-280 | the in-order walk visits every stored bid exactly once |
| BstModel.PreOrderElems | BinarySearchTree_New.cpp:294-305 | the pre-order walk visits every stored bid exactly once, the root's first |
| BstModel.PostOrderElems | BinarySearchTree_New.cpp:281-292 | the post-order walk visits every stored bid exactly once, the root's last |
| BstModel.InOrderSorted | BinarySearchTree_New.cpp:269-280 | on an ordered tree the in-order walk lists ids in non-decreasing order |
| Bst.Node.constructor | BinarySearchTree_New.cpp:55-58 | a leaf holding the bid, both links null |
| Bst.InOrderFrom | BinarySearchTree_New.cpp:269-280 | the walk over the linked nodes lists the in-order sequence of the tree they form |
| Bst.PreOrderFrom | BinarySearchTree_New.cpp:294-305 | the walk over the linked nodes lists the pre-order sequence of their tree |
| Bst.PostOrderFrom | BinarySearchTree_New.cpp:281-292 | the walk over the linked nodes lists the post-order sequence of their tree |
| Bst.BinarySearchTree.constructor | BinarySearchTree_New.cpp:101-104 | a valid, empty tree |
| Bst.BinarySearchTree.Insert | BinarySearchTree_New.cpp:141-151 | the tree stays valid and ordered, only new nodes are added, and its contents become `Insert(old, bid)` |
| Bst.BinarySearchTree.AddNode | BinarySearchTree_New.cpp:201-222 | the subtree becomes `Insert(old subtree, bid)`, with one fresh leaf on the first missing link |
| Bst.BinarySearchTree.Search | BinarySearchTree_New.cpp:164-185 | returns the bid the model's walk finds, or the default bid, and a bid with the id whenever one is stored |
| Bst.BinarySearchTree.Remove | BinarySearchTree_New.cpp:156-158 | the tree stays valid and ordered, owns no new objects, and becomes `Remove(old, id)` |
| Bst.BinarySearchTree.RemoveNode | BinarySearchTree_New.cpp:224-266 | the returned subtree is valid, within the old nodes, and equals `Remove(old subtree, id)` |
| Bst.BinarySearchTree.InOrder | BinarySearchTree_New.cpp:117-120 | the in-order listing is sorted by id and holds exactly the stored bids |
| Bst.BinarySearchTree.PreOrder | BinarySearchTree_New.cpp:133-136 | the pre-order listing holds exactly the stored bids |
| Bst.BinarySearchTree.PostOrder | BinarySearchTree_New.cpp:125-128 | the post-order listing holds exactly the stored bids |
| HashModel.DecimalValue | HashTables_New.cpp:145 | no contract of its own; specified by StoiDecimalString together with DecimalString |
| HashModel.ValidId | HashTables_New.cpp:145 | no contract of its own; a subset of the ids `stoi` accepts: non-empty, digits only, value at most `INT_MAX`; StoiDecimalString shows every number in `[0, INT_MAX]` has such an id |
| HashModel.Stoi | HashTables_New.cpp:145 | `stoi` of a valid id is a non-negative `int` |
| HashModel.DecimalString | HashTables_New.cpp:145 | a reference printer: the decimal digits of a number |
| HashModel.StoiDecimalString | HashTables_New.cpp:145 | `stoi` reads back every number in `[0, INT_MAX]` written in decimal |
| HashModel.ToUnsigned | HashTables_New.cpp:136 | the unsigned cast lands in `[0, UINT_MAX]`, agrees modulo 2^32, and keeps non-negative values |
| HashModel.Hash | HashTables_New.cpp:134-137 | for a positive table size the hash is below the table size |
| HashModel.BucketOf | HashTables_New.cpp:145 | the bucket of a valid id is a slot index |
| HashModel.BucketOfDecimal | HashTables_New.cpp:134-137 | for a valid id the cast never wraps: the bucket is the id's value modulo the size, never `UINT_MAX` |
| HashModel.OnlyInItsBucket | HashTables_New.cpp:234-237 | in a well-hashed table an id is stored somewhere exactly when it is stored in its own bucket |
| HashModel.FirstIndex | HashTables_New.cpp:245-251 | the first position whose id matches, with no match before it, or none when nothing matches |
| HashModel.SearchResult | HashTables_New.cpp:240-254 | the result carries the searched id, or is the default bid and nothing matches; for a non-empty id, found iff stored |
| HashModel.RemoveFirst | HashTables_New.cpp:189-222 | no contract of its own; specified by RemoveFirstAt, RemoveFirstElems, RemoveFirstAppend, SearchAfterRemoveFirst, RemoveFirstKeepsOthers |
| HashModel.RemoveFirstAt | HashTables_New.cpp:194-197 | a match with no earlier match is the first one, and removal cuts out exactly that place |
| HashModel.RemoveFirstElems | HashTables_New.cpp:189-222 | removal takes out exactly the first match, or nothing |
| HashModel.FirstIndexAppend | HashTables_New.cpp:152-157 | appending keeps earlier matches first and is found only when nothing earlier matches |
| HashModel.RemoveFirstAppend | HashTables_New.cpp:189-222 | removing the id of a just-appended, previously absent bid gives back the bucket |
| HashModel.SearchAfterAppend | HashTables_New.cpp:144-158 | after an append the appended id is found, and other ids' searches are unchanged |
| HashModel.SearchAfterRemoveFirst | HashTables_New.cpp:189-222 | with no second bid of that id in the bucket, Search no longer finds it after removal |
| HashModel.RemoveFirstKeepsOthers | HashTables_New.cpp:189-222 | removal leaves the search for any other id unchanged |
| HashModel.Flatten | HashTables_New.cpp:166-181 | no contract of its own; specified by FlattenStep, FlattenUpdate, FlattenElems, FlattenMembers |
| HashModel.FlattenStep | HashTables_New.cpp:168-180 | one more bucket adds its bids at the end of the listing |
| HashModel.FlattenUpdate | HashTables_New.cpp:166-181 | replacing one bucket replaces exactly its bids in the listing |
| HashModel.FlattenElems | HashTables_New.cpp:166-181 | every bucket's bids appear in the listing |
| HashModel.FlattenMembers | HashTables_New.cpp:166-181 | a bid is listed exactly when some bucket holds it |
| HashModel.InsertListing | HashTables_New.cpp:144-158 | an insert adds exactly the new bid to the listing |
| HashModel.RemoveListing | HashTables_New.cpp:189-222 | a remove leaves the buckets unchanged when nothing matches, and otherwise takes exactly the bid Search returns out of the listing |
| HashModel.WellHashedAppend | HashTables_New.cpp:149-156 | filing a bid under its own bucket keeps every bid in its hash bucket |
| HashModel.WellHashedRemoveAt | HashTables_New.cpp:194-215 | removing a bid keeps every bid in its hash bucket |
| HashTables.Node.constructor | HashTables_New.cpp:57-60 | an empty slot: key `UINT_MAX`, no next link |
| HashTables.Node.WithBid | HashTables_New.cpp:63-65 | a bid with the empty-slot key and no next link |
| HashTables.Node.WithKey | HashTables_New.cpp:68-70 | a bid with the given key and no next link |
| HashTables.HashTable.EmptySlots | HashTables_New.cpp:203-206 | a slot is marked empty exactly when its bucket is empty, and an empty slot never has a chain |
| HashTables.HashTable.EntryKeys | HashTables_New.cpp:150 | every slot or chain entry holds its bucket's bid, keyed with the hash of its id, never `UINT_MAX` |
| HashTables.HashTable.AllocateSlots | HashTables_New.cpp:94 | `n` fresh, distinct, default-constructed, empty slots |
| HashTables.HashTable.EmptyValid | HashTables_New.cpp:94 | a table of distinct empty slots, each chain its slot alone, is valid |
| HashTables.HashTable.constructor | HashTables_New.cpp:92-95 | a valid table of 179 empty slots and empty buckets |
| HashTables.HashTable.WithSize | HashTables_New.cpp:102-105 | a valid table of `size` empty slots and empty buckets |
| HashTables.HashTable.FilledSlotValid | HashTables_New.cpp:150 | overwriting an empty slot with the bid and its key, next null, keeps the table valid |
| HashTables.HashTable.AppendedValid | HashTables_New.cpp:156 | linking a new node after the chain's last node keeps the table valid |
| HashTables.HashTable.Append | HashTables_New.cpp:156 | the new node extends the bucket by the bid, and the table stays valid |
| HashTables.HashTable.Insert | HashTables_New.cpp:144-158 | the table stays valid, and the bid's bucket gains the bid at its end with no other bucket changed |
| HashTables.HashTable.Search | HashTables_New.cpp:231-255 | returns the first bid of the id's bucket, slot then chain, with that id, or the default bid; the id is found exactly when stored anywhere |
| HashTables.HashTable.UnlinkedValid | HashTables_New.cpp:197 | linking a chain node's predecessor past it keeps the table valid |
| HashTables.HashTable.Unlink | HashTables_New.cpp:196-200 | the chain node's bid leaves its bucket, the rest stay in order, and the table stays valid |
| HashTables.HashTable.EmptiedValid | HashTables_New.cpp:204 | marking a lone slot `UINT_MAX` keeps the table valid |
| HashTables.HashTable.ClearSlot | HashTables_New.cpp:203-206 | the lone slot's bucket becomes empty and the table stays valid |
| HashTables.HashTable.ShiftedValid | HashTables_New.cpp:211 | copying the second node into the slot keeps the table valid |
| HashTables.HashTable.PullUp | HashTables_New.cpp:208-214 | the slot's bid leaves the bucket, the rest keep their order, and the table stays valid |
| HashTables.HashTable.Remove | HashTables_New.cpp:189-222 | the table stays valid; the result says whether the bucket had a match; the bucket loses exactly its first match and nothing else changes |
| HashTables.HashTable.ChainBids | HashTables_New.cpp:170-179 | the walk of an occupied slot and its chain lists exactly its bucket, slot first |
| HashTables.HashTable.PrintAll | HashTables_New.cpp:166-181 | lists every bucket's bids in index order, slot before chain, chain in link order |

## Left out

- The `main` menus, console input and output, `displayBid` formatting and the `" -> "` prefix of `PrintAll` are I/O. `PrintAll` and the traversals return the sequence of bids they would print.
- The `"Bid removed."` and `"not found"` messages of the hash table's `Remove` are I/O. `HashTables.HashTable.Remove` returns a `bool` that says which one would be printed.
- `loadBids` and the CSV parser it uses are file I/O. `CSVparser.hpp` is not part of this model.
- `strToDouble` and the `double` amount are floating point. `amount` is an opaque `real` that no operation inspects.
- The `clock()` timing around the operations is not modelled, because it is nondeterministic.
- `DeleteAll` and both destructors only release memory. `delete` has no counterpart in Dafny's heap. A tree node that `Remove` unlinks below the root stays in its former parent's ghost `Repr`, but a removed root with at most one child leaves the tree's `Repr()`. A chain node that the hash table's `Remove` unlinks stays in the table's ghost `Repr`.
- `stoi` failures are not modelled. An id must be a non-empty string of decimal digits no larger than 2^31-1, so `stoi` neither throws nor yields a negative value. The cast to `unsigned int` is still modelled exactly for negative values.
- HashModel.ValidId: ids with leading whitespace, a `+` or `-` sign, or trailing non-digits (such as `" 12"`, `"+12"`, `"-0"` or `"12abc"`) are parsed by `stoi` without failing, but they are excluded from `Insert`, `Search` and `Remove`, which require a `ValidId`.
- `HashTables.HashTable.WithSize` requires `size > 0`, because the source's `hash` would divide by zero otherwise.
- The `int` loop counter of `PrintAll` is compared with the `unsigned` table size. The model uses an unbounded counter, which agrees for every table size up to 2^31-1.
- `std::string` `<` compares bytes as `unsigned char`. `StrLess` compares `char`s by code point. The two orders agree when each byte is read as the `char` of the same value, and also for UTF-8 ids, since UTF-8 keeps code-point order.
- Removing a chain node (`delete node`) and pulling the second node into the slot (`delete temp`) leave no dangling pointer in the model. That node is simply unreachable, since Dafny has no explicit deallocation.

## Notes

- Duplicate ids are allowed in both containers.
- "Remove then Search finds nothing" holds only when the container holds no second bid with the same id. Otherwise the code's Search finds the second one. `BstModel.RemoveThenFind` and `HashModel.SearchAfterRemoveFirst` state the property with that condition, as the code behaves.
