# CreditCardProject core in Dafny

This project models the in-memory core of the CreditCardProject back end:

- the container library of `Core.Library/DataStructures`:
  - a chained hash table;
  - an unbalanced binary search tree;
  - an AVL tree;
  - a singly linked list with its node class;
  - a list-backed stack and a list-backed queue;
- the three CRUD services of `Core.Library/Services`: clients (`Cliente`), cards (`Tarjeta`) and transactions (`Transaccion`). Each service keeps its entities in a hash table keyed by their `Id`.

The model proves what each operation does to the contents it manages. Those contents are:

- a map for the hash table and the services;
- a multiset or set of values, plus an order and shape invariant, for the trees;
- a sequence for the list, the stack and the queue.

## Modules

| file | models |
|---|---|
| `Wrappers.dfy` | `Option`, `Result` and `Outcome`, standing for `null` returns and thrown exceptions. `Error` names the three exceptions the core throws. |
| `Ordering.dfy` | the `CompareTo` parameter of the trees, as a sign-valued total order; sorted-sequence facts |
| `HashTables.dfy` | `HashTable<TKey,TValue>`: a class over `array<seq<(K, V)>>`, with a `Count` field and the ghost map `Contents` |
| `BinarySearchTrees.dfy` | `BinarySearchTree<T>`: the tree as a datatype, insert and remove as functions returning the new root, `FindMin` as a loop, and a class holding `_root` |
| `AvlTrees.dfy` | `AvlTree<T>`: the tree as a datatype with a cached height, rotations and rebalancing as functions, and a class holding `_root` |
| `LinkedLists.dfy` | `SinglyLinkedList<T>` and `LinkedListNode<T>`: heap nodes, with a ghost node sequence and a ghost value sequence |
| `Stacks.dfy`, `Queues.dfy` | `Stack<T>` and `Queue<T>`, each with a `seq` field standing for the `List<T>` |
| `Models.dfy` | `Cliente`, `Tarjeta`, `Transaccion` and `TipoTransaccion` as plain records |
| `Services.dfy` | one generic `CrudService<V>` and the three constructors that instantiate it |

## Behaviour notes

- **Remove keeps only the weak order in the binary search tree.** The node's own comments (BinarySearchTree..cs:17 and :20) describe the left child as holding smaller values and the right child larger ones. Insertion keeps left ≤ node < right (`InsertPreservesInsertOrdered`): equal values already go left, so only the right side is strict. `RemoveRec`'s two-child case then breaks that strictness too: it copies the in-order successor into the node even when an equal value remains in the right subtree. The model follows the code.
  - So the class invariant is the weak order, left ≤ node ≤ right (`Ordered`).
  - `RemoveKeepsOnlyWeakOrder` shows the counterexample: insert 5, 3, 7, 7, then remove 5.
- **Bucket order in the hash table.** The indexer setter on a present key unlinks the old entry and appends the new one. So replacing a value moves its entry to the end of its chain, and the `Set` contract says so.
- **Failure shapes.** `HashTable.Add` and the services' `Crear` return `Fail(DuplicateKey)` where the code throws `ArgumentException`. The indexer getter returns `Failure(KeyNotFound)`. `Pop`, `Peek` and `Dequeue` on an empty container return `Failure(EmptyContainer)`.

## Model

| member | source | states |
|---|---|---|
| HashTables.IndexFor | Core.Library/DataStructures/HashTable.cs:22-26 | For a positive bucket count, the masked hash modulo the count always lies in [0, capacity). |
| HashTables.FindKey | Core.Library/DataStructures/HashTable.cs:48-58 | Returns the position of the first entry of the chain with the key, or -1 when no entry has it. |
| HashTables.AbsentFromChain | Core.Library/DataStructures/HashTable.cs:33-36 | Under the table invariant, a key that appears in no entry of its own bucket is not in the map. |
| HashTables.RemoveEntryAt | Core.Library/DataStructures/HashTable.cs:48-56 | Unlinking the first entry with the key cuts out exactly that position of the chain. |
| HashTables.AppendValid | Core.Library/DataStructures/HashTable.cs:38-39 | Appending a fresh key to its chain keeps the invariant: unique keys, each entry in its hash's bucket, the map fully stored. It maps the key and adds one entry. |
| HashTables.UnlinkValid | Core.Library/DataStructures/HashTable.cs:53-54 | Unlinking a present key's entry keeps the invariant, unmaps the key and removes one entry. |
| HashTables.ReplaceValid | Core.Library/DataStructures/HashTable.cs:99-100 | Unlinking a present key's entry and appending the new pair keeps the invariant. It remaps the key and keeps the count. |
| HashTables.EnumerateDone | Core.Library/DataStructures/HashTable.cs:112-118 | Once all buckets are visited, the enumerated entries are the flattened buckets. They are `Count` many, have distinct keys and are exactly the map's pairs. |
| HashTables.HashTable.constructor | Core.Library/DataStructures/HashTable.cs:16-20 | The new table has `capacity` buckets, each of them empty, an empty map, `Count` 0, and satisfies the invariant. |
| HashTables.HashTable.BucketIndex | Core.Library/DataStructures/HashTable.cs:22-26 | With at least one bucket, the index for any key names one of the buckets. |
| HashTables.RemoveEntry | Core.Library/DataStructures/HashTable.cs:48-56 | Unlinking the first entry with the key shortens the chain by one when some entry has the key and leaves its length otherwise; every remaining entry comes from the chain. |
| HashTables.HashTable.Add | Core.Library/DataStructures/HashTable.cs:28-40 | A present key gives `Fail(DuplicateKey)`; the map, `Count` and buckets are unchanged. A fresh key is mapped to the value at the end of its chain, nothing else changes, and `Count` grows by one. |
| HashTables.HashTable.AppendAt | Core.Library/DataStructures/HashTable.cs:38-39 | `AddLast` and `Count++` for an absent key: the map gains the key, `Count` grows by one, and only the key's chain gets the new pair at its end. |
| HashTables.HashTable.Remove | Core.Library/DataStructures/HashTable.cs:42-60 | Returns whether the key was present. The map loses the key, and `Count` drops by one exactly when it returns true. On false the buckets are unchanged. On true the first matching entry is unlinked from its chain. |
| HashTables.HashTable.UnlinkAt | Core.Library/DataStructures/HashTable.cs:51-55 | Unlinking the entry at position `j` of the key's chain unmaps the key, drops `Count` by one and changes only that chain. |
| HashTables.HashTable.TryGetValue | Core.Library/DataStructures/HashTable.cs:62-79 | Never fails. Returns the stored value for a present key and `None` for an absent one. |
| HashTables.HashTable.Get | Core.Library/DataStructures/HashTable.cs:83-87 | Returns the stored value, or `Failure(KeyNotFound)` for an absent key. |
| HashTables.HashTable.Set | Core.Library/DataStructures/HashTable.cs:88-109 | Maps the key to the value whether or not it was present. `Count` is unchanged for a present key and grows by one for an absent one. The old entry is unlinked and the new pair is appended to the key's chain. |
| HashTables.HashTable.ReplaceAt | Core.Library/DataStructures/HashTable.cs:96-101 | The replacing branch of the setter: the key was present, is remapped, `Count` stays, and its entry moves to the end of its chain. |
| HashTables.HashTable.GetEnumerator | Core.Library/DataStructures/HashTable.cs:112-118 | Yields the entries bucket by bucket and along each chain: `Count` entries with distinct keys, exactly the map's pairs. |
| BinarySearchTrees.InsertRec | Core.Library/DataStructures/BinarySearchTree..cs:58-78 | Insertion adds exactly one occurrence of the value to the tree's multiset. |
| BinarySearchTrees.RemoveRec | Core.Library/DataStructures/BinarySearchTree..cs:120-152 | When nothing is removed, the returned root is the tree it was given. |
| BinarySearchTrees.FindMin | Core.Library/DataStructures/BinarySearchTree..cs:157-162 | The loop stops at the leftmost node, and its value is in the tree. |
| BinarySearchTrees.InsertPreservesOrdered | Core.Library/DataStructures/BinarySearchTree..cs:58-78 | Insertion keeps the weak order: left ≤ node ≤ right at every node. |
| BinarySearchTrees.InsertPreservesInsertOrdered | Core.Library/DataStructures/BinarySearchTree..cs:61-77 | Routing compare ≤ 0 left and > 0 right keeps the insert-only order: left ≤ node < right at every node. |
| BinarySearchTrees.InsertOrderedIsOrdered | Core.Library/DataStructures/BinarySearchTree..cs:61-77 | The insert-only order implies the weak order. |
| BinarySearchTrees.ContainsCorrect | Core.Library/DataStructures/BinarySearchTree..cs:91-103 | On a weakly ordered tree, the search returns true if and only if the value occurs in the tree. |
| BinarySearchTrees.LeftmostIsMinimum | Core.Library/DataStructures/BinarySearchTree..cs:157-162 | The leftmost value is in the tree and is at most every value in it. |
| BinarySearchTrees.RemoveElems | Core.Library/DataStructures/BinarySearchTree..cs:120-152 | On an ordered tree, the removed flag is true exactly when the value occurs, and exactly one occurrence leaves the multiset. |
| BinarySearchTrees.RemoveOrdered | Core.Library/DataStructures/BinarySearchTree..cs:120-152 | Removal keeps the weak order in all three cases. |
| BinarySearchTrees.SuccessorAsRoot | Core.Library/DataStructures/BinarySearchTree..cs:146-150 | The right subtree's minimum, removed from that subtree, can take the removed node's place without breaking the weak order. |
| BinarySearchTrees.InOrderTraverse | Core.Library/DataStructures/BinarySearchTree..cs:175-185 | The in-order traversal lists exactly the tree's multiset of values. |
| BinarySearchTrees.ContainsRec | Core.Library/DataStructures/BinarySearchTree..cs:91-103 | A `true` answer is backed by a stored value that compares equal to the probe. |
| BinarySearchTrees.Leftmost | Core.Library/DataStructures/BinarySearchTree..cs:157-162 | The value reached by always going left is one of the tree's values. |
| BinarySearchTrees.InOrderSorted | Core.Library/DataStructures/BinarySearchTree..cs:175-185 | The in-order traversal of a weakly ordered tree is non-decreasing. |
| BinarySearchTrees.InsertThenRemoveIsEmpty | Core.Library/DataStructures/BinarySearchTree..cs:141-142 | Removing the only value of a one-node tree gives back the empty tree and reports a removal. |
| BinarySearchTrees.RemoveKeepsOnlyWeakOrder | Core.Library/DataStructures/BinarySearchTree..cs:146-150 | Insert 5, 3, 7, 7, then remove 5: the tree satisfies the insert-only order before, the root becomes 7 with another 7 on its right, and the insert-only order fails after. |
| BinarySearchTrees.RemoveKeepsWeakOrder | Core.Library/DataStructures/BinarySearchTree..cs:120-155 | The same insertions and removal on integers leave a weakly ordered tree (left at or below, right at or above). |
| BinarySearchTrees.BinarySearchTree.constructor | Core.Library/DataStructures/BinarySearchTree..cs:36 | A new tree is empty and ordered. |
| BinarySearchTrees.BinarySearchTree.Insert | Core.Library/DataStructures/BinarySearchTree..cs:41-53 | Always succeeds, keeps the weak order and adds one occurrence. |
| BinarySearchTrees.BinarySearchTree.Contains | Core.Library/DataStructures/BinarySearchTree..cs:83-86 | Returns true if and only if the value occurs in the tree. |
| BinarySearchTrees.BinarySearchTree.Remove | Core.Library/DataStructures/BinarySearchTree..cs:109-114 | Returns whether the value occurred, removes exactly one occurrence and keeps the weak order. An absent value leaves the root unchanged. |
| BinarySearchTrees.BinarySearchTree.GetEnumerator | Core.Library/DataStructures/BinarySearchTree..cs:167-170 | Yields the in-order values: a non-decreasing sequence whose multiset is the tree's contents. |
| AvlTrees.RotateRight | Core.Library/DataStructures/AvlTree.cs:94-108 | Needs a left child. The left child becomes the local root, the in-order sequence is preserved and correct heights stay correct. |
| AvlTrees.RotateLeft | Core.Library/DataStructures/AvlTree.cs:111-125 | Needs a right child. This is the mirror of `RotateRight`: same in-order sequence, heights stay correct. |
| AvlTrees.LeftLeft | Core.Library/DataStructures/AvlTree.cs:62-64 | A left-heavy left child is fixed by one right rotation, back to the height before insertion. |
| AvlTrees.RightRight | Core.Library/DataStructures/AvlTree.cs:67-68 | A right-heavy right child is fixed by one left rotation, back to the height before insertion. |
| AvlTrees.LeftRight | Core.Library/DataStructures/AvlTree.cs:71-75 | A right-heavy left child has a right child. Rotating it left and then the node right balances the tree. |
| AvlTrees.RightLeft | Core.Library/DataStructures/AvlTree.cs:78-82 | A left-heavy right child has a left child. Rotating it right and then the node left balances the tree. |
| AvlTrees.Rebalance | Core.Library/DataStructures/AvlTree.cs:55-84 | After one side of an insertion grew, recomputing the height and rotating by the balance sign and comparison keeps the in-order sequence and the AVL shape. A balance already within [-1, 1] only updates the height, and the resulting height is stated for both outcomes. |
| AvlTrees.Leaf | Core.Library/DataStructures/AvlTree.cs:17-21 | A new node has correct cached heights, is balanced, has height 1, holds just its value and lists just that value in order. |
| AvlTrees.CachedHeight | Core.Library/DataStructures/AvlTree.cs:88-91 | Where every cached height is right, `GetHeight` is the height computed from the shape (0 for an empty tree) and `GetBalance` of a node is its left height minus its right height. |
| AvlTrees.InOrder | Core.Library/DataStructures/AvlTree.cs:132-142 | Every value the in-order walk lists is stored in the tree. |
| AvlTrees.InsertRec | Core.Library/DataStructures/AvlTree.cs:42-85 | Keeps heights correct and every balance factor within [-1, 1], and grows the height by at most one. When the height grows, the root is unchanged and leans towards the side the value went down. |
| AvlTrees.OrderedIffAscending | Core.Library/DataStructures/AvlTree.cs:132-142 | A tree is ordered if and only if its in-order sequence is strictly ascending. |
| AvlTrees.RotationsKeepOrder | Core.Library/DataStructures/AvlTree.cs:94-125 | Both rotations keep the set of values, and keep the ordering in both directions. |
| AvlTrees.RebalanceKeepsOrder | Core.Library/DataStructures/AvlTree.cs:55-84 | Rebalancing an ordered node gives an ordered tree. |
| AvlTrees.InsertCorrect | Core.Library/DataStructures/AvlTree.cs:42-85 | Insertion into an AVL tree gives an AVL tree: ordered, correct heights, balanced. It adds exactly the value, and returns the tree unchanged when the value is present. |
| AvlTrees.InsertPresent | Core.Library/DataStructures/AvlTree.cs:47-53 | Inserting a present value returns the same tree. |
| AvlTrees.InOrderAscending | Core.Library/DataStructures/AvlTree.cs:132-142 | The in-order sequence of an AVL tree is strictly ascending and holds exactly its values. |
| AvlTrees.InsertAscendingThree | Core.Library/DataStructures/AvlTree.cs:66-68 | Inserting three ascending values into an empty tree takes the Right Right case. The result is the middle value with the other two as leaves, at height 2. |
| AvlTrees.InsertMNO | Core.Library/DataStructures/AvlTree.cs:66-68 | Inserting 'M', 'N', 'O' gives root 'N' with leaves 'M' and 'O', and that tree is a correct AVL tree. |
| AvlTrees.AvlTree.constructor | Core.Library/DataStructures/AvlTree.cs:29 | A new tree is empty and satisfies the AVL invariant. |
| AvlTrees.AvlTree.Insert | Core.Library/DataStructures/AvlTree.cs:34-37 | Keeps the AVL invariant and adds exactly the value. A present value leaves the root unchanged. |
| AvlTrees.AvlTree.GetEnumerator | Core.Library/DataStructures/AvlTree.cs:130 | Yields the in-order values: strictly ascending, exactly the stored values. |
| LinkedLists.RemoveFirst | Core.Library/DataStructures/SinglyLinkedList.cs:40-65 | The result is one shorter when the value occurs and as long otherwise, and holds only elements of the input. |
| LinkedLists.RemoveFirstProperties | Core.Library/DataStructures/SinglyLinkedList.cs:40-65 | Removing the first occurrence of a present value cuts out its first position, so the others keep their order. It shortens the sequence by one and takes one copy out of the multiset. Without an occurrence nothing changes. |
| LinkedLists.RemoveFirstAt | Core.Library/DataStructures/SinglyLinkedList.cs:43-55 | When `k` is the first position holding the value, removing the first occurrence cuts out exactly position `k`. |
| LinkedLists.RemoveFirstAbsent | Core.Library/DataStructures/SinglyLinkedList.cs:63-64 | Removing a value that does not occur leaves the sequence as it is. |
| LinkedLists.Node.constructor | Core.Library/DataStructures/LinkedListNode.cs:13-17 | A new node holds the value and has no successor. |
| LinkedLists.SinglyLinkedList.constructor | Core.Library/DataStructures/SinglyLinkedList.cs:13-15 | A new list is empty, with a null head and a null tail. |
| LinkedLists.SinglyLinkedList.AddLast | Core.Library/DataStructures/SinglyLinkedList.cs:21-34 | The sequence becomes `old + [v]` and `Count` grows by one. The list invariant is kept: head and tail are null exactly when it is empty, the tail is the last node with a null `Next`, and `Count` is the length. |
| LinkedLists.SinglyLinkedList.Remove | Core.Library/DataStructures/SinglyLinkedList.cs:40-65 | Returns whether the value occurred. Its first occurrence is removed, so the rest keep their order, and `Count` drops by one. On removal the surviving nodes are the old ones with exactly that node cut out. Without an occurrence nothing changes. |
| LinkedLists.SinglyLinkedList.Locate | Core.Library/DataStructures/SinglyLinkedList.cs:42-61 | The `prev`/`current` walk stops at the first node holding the value, or falls off the end when none does. On stopping, `prev` is that node's predecessor, or null at the head. |
| LinkedLists.SinglyLinkedList.Unlink | Core.Library/DataStructures/SinglyLinkedList.cs:48-55 | Unlinking the node at position `k` from its predecessor (or from the head) cuts position `k` out of both the node sequence and the value sequence, and decrements `Count`. At the head, `_head` becomes the node's successor. When the node was the tail, `prev` becomes the tail. The invariant is kept. |
| LinkedLists.SinglyLinkedList.UnlinkFirst | Core.Library/DataStructures/SinglyLinkedList.cs:48-53 | Unlinking the head makes `_head` the old head's successor, and the nodes are the old `Nodes[1..]`. On a one-element list the tail becomes null too. |
| LinkedLists.SinglyLinkedList.UnlinkAfter | Core.Library/DataStructures/SinglyLinkedList.cs:50-53 | Unlinking a later node relinks its predecessor, and the nodes are the old ones with that position cut out. When it was the tail, the predecessor becomes the tail. |
| LinkedLists.SinglyLinkedList.GetEnumerator | Core.Library/DataStructures/SinglyLinkedList.cs:70-78 | The walk from the head terminates and yields the values head to tail. |
| Stacks.Stack.Count | Core.Library/DataStructures/Stack.cs:17 | `Count` is the number of stored elements: zero exactly when the stack is empty. |
| Stacks.Stack.constructor | Core.Library/DataStructures/Stack.cs:12 | A new stack is empty. |
| Stacks.Stack.Push | Core.Library/DataStructures/Stack.cs:22-25 | The item becomes the new top, and `Count` grows by one. |
| Stacks.Stack.Pop | Core.Library/DataStructures/Stack.cs:30-38 | Fails with `EmptyContainer` on an empty stack. Otherwise it returns the top and removes only it. |
| Stacks.Stack.Peek | Core.Library/DataStructures/Stack.cs:43-48 | Fails exactly on an empty stack. Otherwise it returns the top and changes nothing. |
| Stacks.Stack.GetEnumerator | Core.Library/DataStructures/Stack.cs:50-55 | Yields the elements top to bottom, the reverse of push order. |
| Stacks.PushThenPop | Core.Library/DataStructures/Stack.cs:22-38 | `Push(x)` then `Pop()` returns `x` and restores the previous contents. |
| Stacks.PushAllPopAll | Core.Library/DataStructures/Stack.cs:22-38 | Pushing `xs` and popping as many times returns `xs` reversed. |
| Queues.Queue.Count | Core.Library/DataStructures/Queue.cs:15 | `Count` is the number of stored elements: zero exactly when the queue is empty. |
| Queues.Queue.constructor | Core.Library/DataStructures/Queue.cs:12 | A new queue is empty. |
| Queues.Queue.Enqueue | Core.Library/DataStructures/Queue.cs:18-21 | The item joins at the back, and `Count` grows by one. |
| Queues.Queue.Dequeue | Core.Library/DataStructures/Queue.cs:24-31 | Fails with `EmptyContainer` on an empty queue. Otherwise it returns the front and keeps the rest in order. |
| Queues.Queue.Peek | Core.Library/DataStructures/Queue.cs:34-39 | Fails exactly on an empty queue. Otherwise it returns the front and changes nothing. |
| Queues.Queue.GetEnumerator | Core.Library/DataStructures/Queue.cs:41-45 | Yields the elements front to back. |
| Queues.EnqueueAllDequeueAll | Core.Library/DataStructures/Queue.cs:18-31 | Enqueueing `xs` into an empty queue and dequeuing as many times returns `xs` in the same order. |
| Services.CrudService.constructor | Core.Library/Services/ClienteService.cs:52 | The service starts with a fresh, empty table of `DefaultCapacity` (16) buckets. |
| Services.CrudService.AddInitial | Core.Library/Services/ClienteService.cs:53-56 | One turn of the constructor's loop: `Add` succeeds if and only if the entity's `Id` is new among those loaded so far, and on success the table holds exactly the loaded entities. |
| Services.LoadStep | Core.Library/Services/ClienteService.cs:53-56 | Adding an entity whose `Id` is new extends the loaded map by that entity and keeps the loaded `Id`s pairwise distinct. |
| Services.LoadDuplicate | Core.Library/Services/ClienteService.cs:53-56 | An entity whose `Id` is already loaded makes the initial sequence's `Id`s not distinct: the case where `Add` throws. |
| Services.NewService | Core.Library/Services/ClienteService.cs:50-57 | Construction succeeds if and only if the initial entities have pairwise distinct `Id`s; otherwise it fails with `DuplicateKey`. On success each entity is stored under its `Id`, nothing else is stored, and `Count` is the number of entities. |
| Services.NewClienteService | Core.Library/Services/ClienteService.cs:50-57 | `NewService` keyed by `Cliente.Id`. |
| Services.NewTarjetaService | Core.Library/Services/TarjetaService.cs:17-24 | `NewService` keyed by `Tarjeta.Id`. |
| Services.NewTransaccionService | Core.Library/Services/TransaccionService.cs:12-17 | `NewService` keyed by `Transaccion.Id`. |
| Services.CrudService.ObtenerTodos | Core.Library/Services/ClienteService.cs:59-64 | Yields one value per stored entry, in the table's bucket-then-chain enumeration order (`ObtenerTodas` in TarjetaService.cs:26-31 and TransaccionService.cs:19-23): as many values as entries, each stored under a distinct key, every key once. |
| Services.CrudService.ObtenerPorId | Core.Library/Services/ClienteService.cs:66-72 | Never fails. Returns the entity stored under `id`, or `None` when there is none. This is the same code as TarjetaService.cs:33-37 and TransaccionService.cs:25-26. |
| Services.CrudService.Crear | Core.Library/Services/ClienteService.cs:74-80 | A taken `Id` gives `Fail(DuplicateKey)` and changes nothing: map, count and buckets. Otherwise the entity is stored under its `Id` and the count grows by one. This is the same code as TarjetaService.cs:39-45 and TransaccionService.cs:28-35. |
| Services.CrudService.Actualizar | Core.Library/Services/ClienteService.cs:82-89 | Returns false and changes nothing for an absent `id`. Otherwise it stores the entity under `id`, without consulting the entity's own `Id`, and returns true; the entry moves to the end of its bucket's chain, so it comes later in `ObtenerTodos`. The count never changes. This is the same code as TarjetaService.cs:47-54 and TransaccionService.cs:38-43. |
| Services.CrudService.Eliminar | Core.Library/Services/ClienteService.cs:91-95 | Returns true if and only if `id` was present; afterwards `id` is absent and every other entry is kept. This is the same code as TarjetaService.cs:56-60 and TransaccionService.cs:45-46. |
| Services.CrearThenObtener | Core.Library/Services/ClienteService.cs:66-80 | An entity created under a fresh `Id` is then found under it. |
| Services.CrearThenEliminar | Core.Library/Services/ClienteService.cs:74-95 | Creating an entity under a fresh `Id` and then deleting that `Id` reports a removal and restores the stored entities. |

## Left out

- Hash function and key equality: `GetHashCode` is the constructor parameter `hash`, and the comparer's `Equals` is `==`. A custom `IEqualityComparer` is not modelled.
- HashTables.HashTable.constructor: requires `capacity > 0`. With capacity 0 the keyed operations (`Add`, `Remove`, `TryGetValue`, the indexer) divide by zero in `GetBucketIndex`, while `Count` and `GetEnumerator` still work. A negative capacity throws `OverflowException` when the bucket array is allocated (HashTable.cs:18). Neither exception is modelled.
- Hash table buckets: a `null` bucket and an empty `LinkedList` are both the empty chain. The lazy `??=` allocation is therefore not visible.
- Enumeration everywhere returns the whole sequence at once. C# `yield` laziness and mutation during iteration are not modelled.
- CompareTo: it is the parameter `cmp`, assumed to be a total order in which only equal values compare 0 (`TotalOrder`). A `CompareTo` that returns 0 for distinct values is not modelled.
- Trees as values: both search trees are datatypes, and insert and remove return the new root. In-place updates of `Left`, `Right`, `Value` and `Height` on shared node objects, and aliasing between them, are not modelled.
- AvlTrees.InsertRec: requires `Shape` (every cached height correct and every balance factor in [-1, 1]). Every tree the class builds has that shape. On a malformed tree, the C# `!` dereferences in the rotation cases could throw, and the model does not cover that.
- AvlTrees.AvlTree: it has no `Remove`, like the source.
- Integer widths: `Count` and heights are unbounded integers, so overflow of the 32-bit `int` counters is not modelled. The 31-bit hash mask is modelled exactly on `bv32`.
- Stack and queue `Count` are the length of the `seq`. The O(n) `RemoveAt(0)` of `Queue.Dequeue` is a performance detail and is not represented.
- Models: `DateTime` and `decimal` fields are opaque values (a tick count, and a coefficient with a scale), because nothing in the core computes with them. `Tarjeta.cs:7` declares the identifier as `id` in lower case while `TarjetaService.cs` reads `.Id`; the model names the field `Id`.
- Services.CrudService.ObtenerTodos: its `keys` out-parameter is ghost; it only names the entry each value comes from.
- Services: the three services are one generic class, because their code is the same up to the entity type. The duplicate declaration of `IClienteService` (ClienteService.cs:12-38 and IClienteService.cs) and the other interface files declare signatures only.
- Controllers, `Program.cs` (HTTP routing, dependency injection, singleton sharing across requests) and `JsonLoader.cs` (file and JSON input) are outside the core. Initial entities are the constructor's `initial` sequence.
