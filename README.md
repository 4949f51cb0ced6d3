# go-collection trie and array list, modelled in Dafny

This project models the core of the Go library `go-collection`, which has two parts.

The first part is the trie package. A `trie` stores strings in a tree of nodes. `stringDigitizer` maps each string to its digits: one 1-based, case-insensitive letter index per character, then the digit 0. The 0 marks the end of the string, so no digit sequence is a prefix of another. Each stored string sits at a leaf. The leaves are also threaded on a doubly linked list between a head sentinel and a tail sentinel, in sorted order. Iterators walk that list. `searchContext` is the cursor that descends, ascends and retraces through the tree. The queries covered are:

- membership;
- positional access;
- minimum and maximum;
- predecessor and successor;
- completions of a prefix;
- the strings sharing the longest common prefix with a string.

A removed leaf stays on the list as a tombstone. Its `previous` is nil and its `next` still leads on. An iterator standing on it skips forward with `skipRemovedElements`, which rewrites the `next` links along the chain of tombstones. The radix tree's own `find` and `checkMatchFromLeaf` are modelled too.

The second part is `arrayList`, a list backed by a Go slice.

The model is organised by module:

- `Digitizer` (digitizer.dfy) is the string digitizer, with ASCII lower-casing and the 8-bit wrap of `lower(c) - 'a' + 1`.
- `Nodes` (node.dfy) holds the nodes. Trie nodes live in an arena: `class Arena` has a `seq<Node>` field, node ids are indices, and `Nil` (-1) stands for a nil pointer. A `Node` is internal or a leaf. A leaf has `next`, `previous` and head/tail flags. The node operations are `Arena` methods that update `nodes`.
- `TrieShape`, `ShapeEdits` and `LeafList` state the invariants:
  - the node at each digit path;
  - the sorted leaf list;
  - the tombstones, with their removal times, which make the skipping recursion terminate.
- `Search` (search.dfy) is `class SearchContext`, with the fields of `searchContext` plus a ghost `path`.
- `Tries` holds `class Trie` and `class Iterator` (trie.dfy). The trie's ghost state is:
  - the set of stored strings;
  - the list order;
  - the node at each path.

  `Trie.Valid()` ties the ghost state to the arena.
- `IteratorFacts`, `QueryFacts`, `TrieFacts` and `RemovalFacts` hold the lemmas behind those methods.
- `Radix` (radix.dfy) is the radix tree's descent and leaf comparison.
- `Lists` (array_list.dfy) is `class ArrayList<T>`, whose `elements: seq<T>` stands for the slice.
- `Wrappers` holds `Option` and `Result`.

Go's `error` results become `Option<Error>` or `Result` values. A nil dereference or an index panic in Go becomes an explicit result in the members marked "as written".

## Model

| member | source | states |
|---|---|---|
| Digitizer.NewStringDigitizer | trie/digitizer.go:29-36 | the base is the alphabet size plus one, the extra digit being the end-of-string digit |
| Digitizer.LetterDigitInRange | trie/digitizer.go:49-55 | a letter of the alphabet, in either case, gets a digit between 1 and the alphabet size |
| Digitizer.DigitOfIgnoresCase | trie/digitizer.go:49-55 | strings equal up to ASCII case have the same digit at every place |
| Digitizer.DigitsEqualIffSameLower | trie/digitizer.go:44-55 | two strings over the alphabet have the same digit sequence exactly when their lower-cased forms are equal |
| Digitizer.PrefixFree | trie/digitizer.go:39-55 | for strings over the alphabet, a digit sequence that is a prefix of another equals it, so `IsPrefixFree` is rightly true |
| Digitizer.FormatDigitMarksEnd | trie/digitizer.go:59-65 | the display digit is "#" exactly at or past the end, and otherwise the lower-cased letter whose index is the numeric digit |
| Digitizer.BeforeIsStringOrder | trie/digitizer.go:49-55 | digit-sequence order is lexicographic order of the lower-cased strings |
| Digitizer.BeforeTotal | trie/digitizer.go:49-55 | two strings with different digit sequences are ordered one way or the other |
| Nodes.EmptyNode | trie/node.go:31-37 | a new internal node has `capacity` empty child slots, no children and no parent |
| Nodes.Arena.NewNode | trie/node.go:31-37 | appends a fresh empty internal node and returns its id |
| Nodes.Arena.NewRootNode | trie/node.go:39-44 | appends a fresh empty node marked as root |
| Nodes.Arena.NewLeafNode | trie/node.go:163-179 | appends a fresh leaf with nil links and the given head and tail flags |
| Nodes.Arena.AddChildWithIndexOf | trie/node.go:57-74 | the out-of-bounds error and the occupied-slot error each leave the arena unchanged; otherwise it fills the slot, adds one to the child count and sets the child's parent |
| Nodes.AddChildKeepsWellFormed | trie/node.go:57-74 | filling an empty slot keeps every node's child count equal to its occupied slots |
| Nodes.Arena.ChildWithIndexOf | trie/node.go:77-83 | the corrected bounds check: the slot's content for an index inside the slots, else the out-of-bounds error |
| Nodes.Arena.ChildWithIndexOfAsWritten | trie/node.go:77-83 | as written: the index equal to the slot count passes the check and panics on the slice access; other indices behave as in the corrected version |
| Nodes.Arena.ChildWithIndexOfAsWrittenPanicsAtEnd | trie/node.go:131-137 | at the index equal to the slot count, the as-written lookup panics and the corrected one reports the error |
| Nodes.Arena.RemoveChildWithIndexOf | trie/node.go:86-99 | true exactly when an in-bounds slot held a child; then the slot is emptied and the count drops by one, else the arena is unchanged |
| Nodes.Arena.RemoveChildWithIndexOfAsWritten | trie/node.go:86-99 | as written: a panic (None) exactly at the index equal to the slot count; otherwise the same as the corrected removal |
| Nodes.HasChildrenIffOccupied | trie/node.go:102-104 | in a well-formed arena, a positive child count means some slot is occupied |
| Nodes.CheckBoundsAsWritten | trie/node.go:131-137 | the as-written check admits `0 <= index <= len` |
| Nodes.CheckBounds | trie/node.go:131-137 | the corrected check admits exactly `0 <= index < len` |
| Nodes.CheckBoundsAsWrittenAdmitsEnd | trie/node.go:131-137 | `index == len` passes the as-written check and fails the corrected one |
| Nodes.Arena.SetValue | trie/node.go:107-109 | only the node's element changes |
| Nodes.Arena.SetNext | trie/node.go:195-197 | only the leaf's `next` changes |
| Nodes.Arena.SetPrevious | trie/node.go:205-207 | only the leaf's `previous` changes |
| Nodes.Arena.AddAfter | trie/node.go:187-192 | the four link writes in source order; for distinct nodes, the leaf sits between `other` and its old successor |
| Nodes.Arena.Remove | trie/node.go:215-224 | unlinks the leaf: its neighbours point at each other, and its `previous` is nil (the mark that `IsDeleted` tests) while its `next` still leads on |
| Search.SearchContext.constructor | trie/search.go:23-40 | a new context stands nowhere, at branch position 0 with no matches |
| Search.SearchContext.DescendToIndex | trie/search.go:81-91 | moves to the child at `index` and extends the path when that child exists; else reports `childNotFound` and stays |
| Search.SearchContext.DescendTo | trie/search.go:71-79 | the same, for the digit of `element` at the current branch position |
| Search.SearchContext.Ascend | trie/search.go:93-98 | moves to the parent, dropping the last digit of the path and returning the lowered branch position |
| Search.SearchContext.MoveToMaxDescendant | trie/search.go:54-61 | reaches the leaf of the greatest stored string in the current subtree |
| Search.SearchContext.RetraceToLastLeftFork | trie/search.go:115-132 | climbs to the nearest node on the search path with an occupied slot below the digit of `x` and steps into the highest such slot; the subtree reached is non-empty, holds only strings below `x`, and every other string below `x` precedes it; it stops at the root exactly when no stored string is below `x` |
| Search.SearchContext.ElementsInSubtree | trie/search.go:134-145 | appends to the collection, in sorted order and without repetition, exactly the stored strings of the current subtree, leaving the context where it was |
| Search.ProcessedEndOfStringIffLeafPath | trie/search.go:107-113 | away from the root, `processedEndOfString` holds exactly when the path ends with the end-of-string digit |
| Search.SearchContext.ProcessedEndOfStringAsWritten | trie/search.go:107-113 | as written: it reads the parent's slots, a nil dereference (None) exactly when the node has no parent |
| Search.ProcessedEndOfStringAsWrittenAtRoot | trie/search.go:107-113 | at the root the as-written test fails; elsewhere it agrees with the corrected one |
| Tries.Trie.constructor | trie/trie.go:35-53 | a new trie over an alphabet of `alphabetSize` letters is valid and empty |
| Tries.Trie.WithDigitizer | trie/trie.go:39-53 | a new trie over a given digitizer is valid and empty with capacity equal to the base |
| Tries.Trie.Size | trie/trie.go:223-225 | the number of stored strings, which is the length of the iteration order |
| Tries.Trie.IsEmpty | trie/trie.go:228-230 | true exactly when no string is stored |
| Tries.Trie.CheckBounds | trie/trie.go:279-285 | no error exactly for `0 <= index < size`, else the out-of-bounds error for that index |
| Tries.Trie.PrepareSearch | trie/trie.go:312-316 | the context stands at the root at branch position 0 with the trie's digitizer |
| Tries.Trie.Find | trie/trie.go:287-310 | Matched exactly when a stored string equals `x` up to case, and then the context is at its leaf; otherwise the context is at the deepest node on the digits of `x` whose next digit has no child |
| Tries.Trie.FollowDigits | trie/trie.go:296-309 | the descent loop of `find`, with the same outcome over any tree view |
| Tries.Trie.MoveToPredecessor | trie/trie.go:383-399 | true exactly when some stored string is below `x`, and then the context is at the leaf of the greatest such string |
| Tries.Trie.Insert | trie/trie.go:318-341 | a string equal up to case to a stored one is refused with the prefix-free error and nothing changes; otherwise it is stored, its new leaf is on the sorted list, and the trie stays valid |
| Tries.Trie.AddNode | trie/trie.go:343-363 | creates the root if needed, builds the missing internal nodes along the digits of `x` and hangs the leaf at its full path, keeping every existing path |
| Tries.Trie.Add | trie/trie.go:69-73 | the outcome of `Insert`, without its leaf |
| Tries.Trie.AddAll | trie/trie.go:77-87 | adds the values up to the first one that is already stored (counting those added before it), and returns that value's error, or none when all are added |
| TrieFacts.AddablePrefixFirstRepeat | trie/trie.go:77-87 | every value before the stopping point is new when reached, and the value at the stopping point is not |
| Tries.Trie.Remove | trie/trie.go:106-121 | true exactly when a string equal to `x` up to case is stored; it is then removed and the size drops by one, else nothing changes |
| Tries.Trie.RemoveNode | trie/trie.go:365-381 | the leaf leaves the sorted list and becomes a tombstone whose `next` is its old successor; nodes left childless are pruned up to the root |
| Tries.Trie.Contains | trie/trie.go:242-251 | true exactly when a string equal to `x` up to case is stored |
| Tries.Trie.Min | trie/trie.go:125-131 | None exactly when the trie is empty, else the least stored string |
| Tries.Trie.Max | trie/trie.go:135-141 | None exactly when the trie is empty, else the greatest stored string |
| Tries.Trie.Predecessor | trie/trie.go:145-156 | None exactly when no stored string is below `x`, else the greatest one below it |
| Tries.Trie.Successor | trie/trie.go:160-179 | the corrected successor: None exactly when no stored string is above `x`, else the least one above it |
| Tries.Trie.SuccessorAsWritten | trie/trie.go:160-179 | as written: also None when `x` is absent and below every stored string; otherwise the least stored string above `x` |
| QueryFacts.SuccessorAsWrittenMissesFirst | trie/trie.go:160-179 | on {"b"}, "b" is above "a", yet "a" is neither stored nor preceded, the case where the as-written successor answers nil |
| Tries.Trie.Completions | trie/trie.go:183-203 | the corrected version: appends exactly the stored strings starting with `prefix` (up to case), sorted, to the collection |
| Tries.Trie.CompletionsAsWritten | trie/trie.go:183-203 | as written: panics exactly when the trie is non-empty and no stored string starts with the first letter of `prefix` (the empty prefix included), appending nothing; otherwise the same as the corrected version |
| Tries.Trie.LongestCommonPrefix | trie/trie.go:207-220 | the corrected version: appends, sorted, exactly the stored strings sharing the longest prefix with `x` that any stored string shares |
| Tries.Trie.LongestCommonPrefixAsWritten | trie/trie.go:207-220 | as written: panics under the same condition as `CompletionsAsWritten`; otherwise the same as the corrected version |
| QueryFacts.PrefixQueriesAsWrittenMissRoot | trie/search.go:107-113 | on {"ab"}, the search stops at the root for `Completions("")` and for `LongestCommonPrefix("b")`, where the as-written queries panic, though the intended answer of both is {"ab"} (every stored string has the empty prefix, and "b" shares only the empty prefix with "ab") |
| QueryFacts.StopsAtRootOn | trie/trie.go:188-196 | a search stops at the root exactly when no stored string has the first digit of the query |
| QueryFacts.SubIsWithPrefix | trie/search.go:134-145 | the subtree at the first k digits of `x` holds exactly the stored strings that start with the first k characters of `x` |
| QueryFacts.SharedPrefixLengthIs | trie/trie.go:207-220 | the longest shared prefix has length n when n characters are shared and no longer prefix is |
| Tries.Trie.Values | trie/trie.go:254-262 | the stored strings in iteration order, the arena unchanged |
| Tries.Trie.ValueWithIndex | trie/trie.go:91-102 | the bounds error for an index outside the stored strings, else the string at that position of the iteration order |
| Tries.Trie.Clear | trie/trie.go:233-238 | afterwards no string is stored and the trie is valid |
| Tries.Iterator.constructor | trie/trie.go:406-408 | an iterator on the given trie at the given list node |
| Tries.Iterator.InCollection | trie/trie.go:410-416 | true exactly when the iterator stands on a stored string, not on a sentinel or a tombstone |
| Tries.Iterator.Get | trie/trie.go:418-424 | the string at the iterator when it stands on a stored one, else None |
| Tries.Iterator.SkipRemovedElements | trie/trie.go:426-434 | returns the live leaf or the tail that the chain of tombstones from `l` leads to, pointing every tombstone on it there |
| IteratorFacts.CompressedKeeps | trie/trie.go:426-434 | that rewrite keeps the list linked and the tombstones resolving, and every node resolves as before |
| Tries.Iterator.Advance | trie/trie.go:436-448 | from the head or a stored string, moves to the next position of the iteration order (or the tail); from a tombstone, to the node it resolves to; stays at the tail; true exactly when it lands on a stored string |
| Tries.Iterator.Retreat | trie/trie.go:450-458 | after resolving a tombstone, moves to the previous position of the iteration order (or the head), true unless that is the head; a nil `previous` (at the head, or at the tail of a trie that never held a string) is a nil dereference, reported as None |
| IteratorFacts.BackStep | trie/trie.go:450-458 | the `previous` link of the head is nil, that of a stored string leads to its predecessor in the iteration order, and that of the tail to the last stored string |
| Tries.Iterator.HasNext | trie/trie.go:460-466 | true exactly when an advance would land on a stored string, the iterator staying put and the strings unchanged |
| Tries.Iterator.NextIsStored | trie/trie.go:465 | once compressed, the node after the iterator's is the tail exactly when no stored string follows |
| Tries.Iterator.Remove | trie/trie.go:468-472 | removes the string the iterator stands on, if any; its leaf then resolves to the string that followed it, so iteration goes on unharmed |
| IteratorFacts.RemovedResolves | trie/trie.go:365-381 | a removed leaf's tombstone resolves to the stored string after it, or the tail |
| Radix.RadixTree.constructor | trie/radix_tree.go:13-16 | a new radix tree is empty, with no root |
| Radix.RadixTree.PrepareSearch | trie/trie.go:312-316 | the context stands at the root at branch position 0 |
| Radix.RadixTree.DescendTo | trie/search.go:75-79 | moves to the child for the next digit when there is one, else reports `childNotFound` and stays |
| Radix.RadixTree.Find | trie/radix_tree.go:22-47 | Unmatched on an empty tree or at an internal node with no child for the next digit; Matched at a leaf and Prefix at an internal node when the digits run out; at an earlier leaf, the result of comparing with it |
| Radix.RadixTree.CheckMatchFromLeaf | trie/radix_tree.go:77-108 | compares the digits of `x` with those of the leaf's string from the shared count on: Less or Greater at the first differing digit, Matched when all digits agree, with the count of shared digits recorded |
| Radix.ComparedOrders | trie/radix_tree.go:77-108 | for letter strings the comparison result is their order: Matched exactly when they are equal up to case, Prefix exactly for a proper prefix, Less or Greater by lexicographic order, and never Extension |
| Radix.Min | trie/radix_tree.go:79 | the smaller of the two digit counts |
| Lists.ArrayList.constructor | list/array_list.go:42-45 | a new list is empty |
| Lists.ArrayList.Of | list/array_list.go:47-57 | a new list holding the given values in their order, built by adding them one at a time |
| Lists.ArrayList.From | list/array_list.go:59-66 | a new list holding the other list's values in their order, and an empty list for a nil list |
| Lists.ArrayList.Size | list/array_list.go:220-222 | the number of elements |
| Lists.ArrayList.Add | list/array_list.go:69-73 | appends the element, with no error |
| Lists.ArrayList.AddAll | list/array_list.go:76-82 | appends the other list's elements in order, a nil list adding nothing |
| Lists.ArrayList.AddFirst | list/array_list.go:86-90 | prepends the element, shifting the others up by one |
| Lists.ArrayList.AddLast | list/array_list.go:93-95 | appends the element |
| Lists.ArrayList.AddWithIndex | list/array_list.go:100-110 | inserts at `index` for `0 <= index <= size`, else reports the bounds error and changes nothing |
| Lists.CheckBounds | list/array_list.go:266-272 | admits `0 <= index <= size`, the bound that insertion needs |
| Lists.ArrayList.ValueWithIndex | list/array_list.go:115-121 | the corrected version: the element at an index inside the list, else the bounds error |
| Lists.ValueWithIndexAsWritten | list/array_list.go:115-121 | as written: the index equal to the size passes the check and panics; other indices behave as in the corrected version |
| Lists.ValueWithIndexAsWrittenPanicsAtSize | list/array_list.go:266-272 | the as-written access at the size panics |
| Lists.ArrayList.ValueWithIndexAsWrittenAgrees | list/array_list.go:115-121 | away from the size, the as-written and the corrected access agree |
| Lists.ArrayList.RemoveWithIndex | list/array_list.go:177-187 | the corrected version: removes and returns the element at an index inside the list, else reports the error and changes nothing |
| Lists.ArrayList.RemoveWithIndexAsWritten | list/array_list.go:177-187 | as written: panics at the index equal to the size, leaving the list as it was |
| Lists.FirstIndexOf | list/array_list.go:274-282 | the first position holding the element, or -1 exactly when it is absent |
| Lists.ArrayList.IndexOf | list/array_list.go:126-133 | the first index of the element, or -1 with the not-found error exactly when it is absent |
| Lists.ArrayList.Contains | list/array_list.go:236-242 | true exactly when the element is in the list |
| Lists.ArrayList.Remove | list/array_list.go:137-148 | true exactly when the element was present, and then its first occurrence alone is removed |
| Lists.RemoveOnceThenAbsent | list/array_list.go:137-148 | removing the first occurrence of an element that occurs once leaves none |
| Lists.ArrayList.RemoveFirst | list/array_list.go:152-160 | None on an empty list, else the first element, which is removed |
| Lists.ArrayList.RemoveLast | list/array_list.go:164-172 | None on an empty list, else the last element, which is removed |
| Lists.ArrayList.Clear | list/array_list.go:230-232 | the list becomes empty |
| Lists.ArrayList.Filter | list/array_list.go:190-200 | a new list holding, in order, the elements that satisfy the predicate |
| Lists.FilterSeqAppend | list/array_list.go:190-200 | filtering distributes over concatenation, so the kept elements stay in their original order |
| Lists.FilterSeqMembers | list/array_list.go:190-200 | a value is in the filtered list exactly when it is in the list and satisfies the predicate |
| Lists.FilterSeqLength | list/array_list.go:190-200 | the filtered list is no longer than the list, with equal length exactly when every element passes |
| Lists.ArrayList.Map | list/array_list.go:204-210 | a new list of the same length whose i-th element is the mapped i-th element |

`Digitizer.StringDigitizer` holds `Base`, `IsPrefixFree`, `NumDigitsOf`, `DigitOf` and `FormatDigit` (trie/digitizer.go:34-65). `SearchContext` holds `AtLeaf`, `AtRoot`, `ChildBranchPosition`, `ParentBranchPosition`, `ChildIndexOf` and `ProcessedEndOfString` (trie/search.go:42-73, 107-113). `Arena` holds `HasChildren` and `IsDeleted` (trie/node.go:102-104, 215-217). `ArrayList` holds `IsEmpty` and `Values` (list/array_list.go:225-250). All of these are plain definitions with no contract: the lemmas and methods in the rows above state what they mean.

## Left out

- The digitizer works on characters, not bytes. Go lower-cases with Unicode `strings.ToLower` and then indexes the bytes of the UTF-8 result. The model uses ASCII `Digitizer.Lower` and one digit per character, wrapping `lower(c) - 'a' + 1` modulo 256, which is exact for ASCII.
- Tries.Trie.Insert, Tries.Trie.Find, Tries.Trie.Remove, Tries.Trie.Contains and the other trie queries require every character of the argument to be a letter of the alphabet, in either case (`InAlphabet`). Go accepts any string. For a non-letter the 8-bit digit falls outside the child slots: `Insert("a1")` computes digit 209. `AddChildWithIndexOf` then returns an error that `addNode` ignores, yet `insert` still splices the leaf into the list and increments `size`. The model leaves that input, and the inconsistent trie it produces, out.
- Lists.ArrayList.IndexOf, Lists.ArrayList.Contains and Lists.ArrayList.Remove compare with Dafny's `==` where Go uses `reflect.DeepEqual` (list/array_list.go:274-282). Equality of values of the element type stands for deep equality.
- Search.SearchContext.ProcessedEndOfString compares node indices where Go compares `childNode` and `s.pointer` with `reflect.DeepEqual` (trie/search.go:107-113). The two agree here. Below a prefix-free digitizer a leaf hangs only in slot 0, so a leaf at the pointer is itself its parent's slot-0 child. An internal node at the pointer has a different dynamic type from the leaf or nil in that slot. Deep equality therefore holds exactly when the two are the same node.
- Lists.ArrayList.AddAll takes an `ArrayList?`, where Go takes any `collection.Collection` and reads its `Values()`.
- Lists.ArrayList.From takes an `ArrayList?` for the same reason. Go accepts any `collection.Collection`. A nil slice and an empty slice are both `[]` here, so the `elements != nil` test of `NewArrayListOf` has no counterpart.
- Tries.Trie.AddAll takes a `seq<string>`, where Go takes any `collection.Collection` and reads its `Values()` (trie/trie.go:77-87). A nil collection, which Go lets add nothing, is the empty sequence here.
- Tries.Trie.Completions takes an `ArrayList<string>` as the output, where Go takes any `collection.Collection` (trie/trie.go:183-203).
- Tries.Trie.LongestCommonPrefix takes an `ArrayList<string>` as the output, where Go takes any `collection.Collection` (trie/trie.go:207-220).
- Search.SearchContext.ElementsInSubtree appends to an `ArrayList<string>`, where Go calls `Add` on any `collection.Collection` and ignores the error it returns (trie/search.go:133-145). An `ArrayList`'s `Add` never fails, so there is no error to ignore.
- Search.SearchContext.DescendToIndex, Search.SearchContext.DescendTo, Radix.RadixTree.DescendTo and Radix.RadixTree.Find look children up through the corrected Nodes.Arena.ChildWithIndexOf. For a digit equal to the node's slot count they report "not found" (ChildNotFound, and Unmatched from Find), where Go's `checkBounds` (trie/node.go:131-137) lets the digit through and `children[len]` panics. In the trie, `InAlphabet` rules this digit out. Radix.RadixTree.Find has no such precondition, so a key like "d" in a radix tree over three letters reaches it. The panic itself is shown by Nodes.Arena.ChildWithIndexOfAsWritten in "## Findings".
- `ForEach` (list/array_list.go:213-217) is not modelled. It only calls a consumer for its side effects, which the model has no way to observe.
- The `String()` renderings (trie/trie.go:265-277, trie/node.go:127-129, list/array_list.go:253-264) are left out. They are formatting only.
- The `sync.Pool` that recycles search contexts (trie/search.go:27-33) is left out. In the model each search makes a fresh `SearchContext`.
- Only the prefix-free string digitizer exists, so `IsPrefixFree` is the constant true. The `Prefix` and `Extension` branches that `find` and `moveToPredecessor` take under a non-prefix-free digitizer are closed with `assert false` in Tries.Trie.FollowDigits and Tries.Trie.MoveToPredecessor. Tries.Trie.Insert keeps `insert`'s test `r == Matched || (!IsPrefixFree() && (r == Prefix || r == Extension))` as written; its second half is dead, because `IsPrefixFree()` is true and `find` then answers only Matched or Unmatched.
- `NewTrie`, `NewTrieWithDigitizer`, `NewRadixTree` and `NewRadixTreeWithDigitizer` (trie/trie.go:58-66, trie/radix_tree.go:13-20) are the constructors listed in the table. The `Trie` interface boxing around them is not modelled.
- The radix tree is a class of its own, `Radix.RadixTree`, holding the two members its file defines, `find` and `checkMatchFromLeaf`. In Go, `radixTree` embeds `*trie`, so its public methods run the trie's own `find`, `insert` and `remove`, and nothing calls these two. Its `addNode`, `remove` and `childIndexOf` (trie/radix_tree.go:49-75, 110-119) are empty or unused and are not modelled.
- Radix.RadixTree.Find and Radix.RadixTree.CheckMatchFromLeaf are proved over a radix tree invariant, `LeavesOnPaths`: every leaf reached along a digit path holds a string whose digits extend that path. The radix tree is only ever built by the trie's own `insert`, which `radixTree` inherits by embedding `*trie`; that insert puts every leaf at its string's full digit path, so its trees satisfy `LeavesOnPaths`. The model has no insert on `Radix.RadixTree` and takes the invariant as part of `Valid`.
- Radix.Min is an integer minimum, where Go converts to `float64` for `math.Min`. For digit counts the two agree.
- Go's interface values and type assertions (`node.(LeafNode)`) become the `Internal` and `Leaf` variants of `Node`. A type assertion that would fail is excluded by the trie's invariant.
- The iterator's `retreat` and `hasNext` have no caller in the source. They are modelled as written all the same, as Tries.Iterator.Retreat and Tries.Iterator.HasNext.
- Concurrency is left out. Nothing in the source is synchronised.

## Findings

| source | as written | input that shows it | evidently intended | confidence | as-written member | corrected member |
|---|---|---|---|---|---|---|
| trie/node.go:131-137 | `checkBounds` rejects only `index > len(children)`, so `ChildWithIndexOf` and `RemoveChildWithIndexOf` index the slice at `len` and panic | `NewTrie(3)` holding "a", then `Contains("d")`: the digit 4 equals the slot count 4 | an index equal to the slot count is out of bounds and gets the error | not executed | Nodes.Arena.ChildWithIndexOfAsWritten, Nodes.Arena.RemoveChildWithIndexOfAsWritten, shown by Nodes.Arena.ChildWithIndexOfAsWrittenPanicsAtEnd and Nodes.CheckBoundsAsWrittenAdmitsEnd | Nodes.Arena.ChildWithIndexOf, Nodes.Arena.RemoveChildWithIndexOf, over Nodes.CheckBounds |
| list/array_list.go:266-272 | `checkBounds` admits `index == size`, which is right for `AddWithIndex`, but `ValueWithIndex` and `RemoveWithIndex` then index the slice at `size` and panic | a list holding one element, then `ValueWithIndex(1)` or `RemoveWithIndex(1)` | reading or removing at the size is an out-of-bounds error | not executed | Lists.ValueWithIndexAsWritten, Lists.ArrayList.RemoveWithIndexAsWritten, shown by Lists.ValueWithIndexAsWrittenPanicsAtSize | Lists.ArrayList.ValueWithIndex, Lists.ArrayList.RemoveWithIndex |
| trie/search.go:107-113 | `processedEndOfString` reads `s.pointer.Parent()`'s slots; when the search stops at the root the parent is nil and `Completions` and `LongestCommonPrefix` panic | a trie holding "ab", then `Completions("b")`, `Completions("")` or `LongestCommonPrefix("b")` | at the root nothing has been processed: the queries answer {"ab"} for the empty prefix (and for the shared prefix of "b") and nothing for `Completions("b")` | not executed | Tries.Trie.CompletionsAsWritten, Tries.Trie.LongestCommonPrefixAsWritten, shown by QueryFacts.PrefixQueriesAsWrittenMissRoot and Search.ProcessedEndOfStringAsWrittenAtRoot | Tries.Trie.Completions, Tries.Trie.LongestCommonPrefix |
| trie/trie.go:160-179 | for an absent `x`, `Successor` starts from `moveToPredecessor`; when no stored string lies below `x` that returns false, `successor` stays the tail and the answer is nil | a trie holding "b", then `Successor("a")`: nil, though "b" is above "a" | the successor of a string below every stored one is the minimum | not executed | Tries.Trie.SuccessorAsWritten, shown by QueryFacts.SuccessorAsWrittenMissesFirst | Tries.Trie.Successor |
