# Lightship core, modelled in Dafny

Lightship is a small C game engine built from plugins. Three parts of it are
modelled here:

- **The event-signature scanner** (`scripts/check-event-signatures.py`). It
  collects the engine's C sources, walks them line by line, skips comments and
  preprocessor lines, and recognises the event markers `EVENT_H`, `EVENT_C`,
  `event_create` and `EVENT_FIRE`. It resolves the plugin that owns each file
  and merges what it finds into a registry of event records keyed by
  identifier.
- **The utility library the engine rests on.** This covers the ordered and
  unordered vectors, the doubly linked list, the sorted map keyed by 32-bit
  hashes, the hashed vector with collision chains, and the dotted-path property
  tree. It also covers the string helpers, the type-string classifier of the
  dynamic call module and the command-line switch parser.
- **The plugin layer.** This covers plugin version parsing and matching, the
  plugin manager's lookup and duplicate check, and the namespaced registry of
  events and listeners.

Each source file is one module. Where the C code changes a structure in place,
the module is a class:

- Vectors keep their buffer as an `array`.
- The linked list is made of heap nodes.
- The map, the hashed vector and the event registry keep a `seq` field that
  their methods reassign.
- The property tree keeps a store of nodes indexed by identifiers that stand
  for the C pointers.

Every method is proved against a specification function, and the properties the
code and its tests promise are lemmas about those functions. Hash functions,
`malloc` outcomes, the directory walk, file contents and directory listings are
parameters. An allocation outcome is a boolean the caller chooses.

Shared pieces:

- `wrappers.dfy`: `Option`.
- `ctypes.dfy`: 32-bit unsigned arithmetic.
- `seq_ops.dfy`: insertion into and erasure from a sequence.
- `buffers.dfy`: the element-copy loop both vectors use.
- `libc.dfy`: `strstr`, `strtok`, `atoi` and `%d`. The property tree's `strtok_r_portable` is defined nowhere in the sources and is taken to behave as `strtok` (see "## Left out").
- `python_strings.dfy`: `find`, `split`, `join`, `strip`, `startswith` and
  `endswith`, as the scanner uses them.

In these places the script behaves differently from what its structure
suggests at first reading, and the model follows the code:

- The `comments` and `macro` flags are set once, before the loop over files. A
  comment or a macro continuation left open at the end of one file therefore
  carries into the next file.
- The four marker tests are independent `if`s. A single line can update a
  declaration, a definition and a creation at once.
- A line holding both a comment opener and a comment closer ends with the
  comment flag cleared, so that line is scanned.
- The creation key is the text left of `=`. A creation call whose result is not
  assigned (no `=`) records nothing.
- A creation line with `=` but no `,` raises `IndexError`, as does a fire line
  whose first `,`-piece has no `(`. Both are modelled as a scan that fails.

## Model

| member | source | states |
|---|---|---|
| EventScanner.FileCollection.constructor | scripts/check-event-signatures.py:7-9 | a new collection holds no file and keeps the wanted extensions |
| EventScanner.FileCollection.CollectFiles | scripts/check-event-signatures.py:11-18 | the collected list is the walk of every directory in order, keeping the files whose name ends with a wanted extension, joined to their directory |
| EventScanner.FileCollection.CollectWalk | scripts/check-event-signatures.py:14-17 | the steps of one walk append exactly their matching files, step after step |
| EventScanner.FileCollection.CollectStep | scripts/check-event-signatures.py:15-17 | one walk step appends exactly its files with a wanted extension, joined to the step's directory |
| EventScanner.MatchingMembers | scripts/check-event-signatures.py:15-17 | a path comes from a walk step exactly when it is the join of the step's directory and one of its files with a wanted extension |
| EventScanner.WalkedMembers | scripts/check-event-signatures.py:14-17 | a path comes from a walk exactly when one of its steps contributes it |
| EventScanner.CollectedMembers | scripts/check-event-signatures.py:11-18 | collect_files returns exactly the paths found by walking one of the directories |
| EventScanner.FileCollection.ExcludeDirectories | scripts/check-event-signatures.py:20-22 | the list after exclusion is the old list filtered directory after directory by `find(directory) == -1` |
| EventScanner.ExcludedIsOnePass | scripts/check-event-signatures.py:20-22 | excluding directory after directory equals one order-keeping pass over the paths that keeps those containing none of the directories |
| EventScanner.KeptMembers | scripts/check-event-signatures.py:20-22 | a path remains exactly when it was there and contains none of the excluded directories |
| EventScanner.WithoutKept | scripts/check-event-signatures.py:21-22 | filtering out one more directory after a pass is the pass with that directory added |
| EventScanner.NoDirectoryKeepsAll | scripts/check-event-signatures.py:20-22 | excluding no directory keeps every path |
| EventScanner.ClassifyExtracts | scripts/check-event-signatures.py:57-71 | a line is scanned exactly when it is not a directive, does not end in a backslash, does not follow a macro line and leaves no comment open |
| EventScanner.DirectiveSkipped | scripts/check-event-signatures.py:62-71 | a line starting with '#' after blanks, or ending in a backslash, is never scanned and sets the macro flag |
| EventScanner.MacroTailSkipped | scripts/check-event-signatures.py:66-69 | the first line after a macro line that is neither a directive nor continued is skipped and clears the macro flag |
| EventScanner.CommentFlag | scripts/check-event-signatures.py:58-71 | a comment closer clears the comment flag, an opener without a closer sets it, and nothing is scanned while it is set |
| EventScanner.OneLineCommentExtracted | scripts/check-event-signatures.py:58-71 | from clear flags, a line holding a comment closer that is neither a directive nor continued is scanned, even when it also opens a comment |
| EventScanner.DeclareRecords | scripts/check-event-signatures.py:74-80 | an `EVENT_H` line with '(' records its file and the identifier after the first '(' (without ')' and newlines) and changes no other record; a line without '(' adds no record |
| EventScanner.DefineRecords | scripts/check-event-signatures.py:84-90 | an `EVENT_C` line with '(' records its file and identifier as the definition and changes no other record; a line without '(' adds no record |
| EventScanner.CreateRecords | scripts/check-event-signatures.py:93-102 | an `event_create` line with '=' and ',' records the creating file and the global name plugin + "." + the second ','-piece stripped of ` ");\n`, under the identifier left of '='; declaration and definition are left as they were |
| EventScanner.SkippedLineKeepsEvents | scripts/check-event-signatures.py:67-71 | a line the flags exclude changes no record, only the flags |
| EventScanner.ScanLineKeeps | scripts/check-event-signatures.py:73-108 | scanning a line never drops a record and changes no global name unless the line holds `event_create` |
| EventScanner.ScanLinesKeeps | scripts/check-event-signatures.py:55-108 | over a whole file, records are never dropped and global names change only if some line holds `event_create` |
| EventScanner.ScanLinesFailure | scripts/check-event-signatures.py:55-108 | once a line raises, the scan of the file fails whatever follows |
| EventScanner.ScanFilesFailure | scripts/check-event-signatures.py:53-108 | once a file raises, the whole extraction fails whatever follows |
| EventScanner.EventChecker.constructor | scripts/check-event-signatures.py:41-42 | a new checker holds no event |
| EventScanner.EventChecker.ExtractData | scripts/check-event-signatures.py:49-108 | starting from an empty registry and clear flags, the extraction succeeds exactly when no line raises, and then leaves the registry the line-by-line scan of all files produces |
| EventScanner.EventChecker.ScanFile | scripts/check-event-signatures.py:55-108 | the line loop over one file succeeds exactly when no line raises and leaves the registry and flags of the scan of its lines |
| EventScanner.EventChecker.ScanOneLine | scripts/check-event-signatures.py:57-108 | the flag updates followed by the four independent marker branches give the result of scanning the line; it fails exactly where the script raises IndexError |
| EventScanner.EventChecker.DeterminePluginName | scripts/check-event-signatures.py:122-135 | the loop over the ancestors returns the resolver's plugin name |
| EventScanner.AncestorPluginNearest | scripts/check-event-signatures.py:128-134 | when ancestor j lists CMakeLists.txt and no nearer one does, the plugin is the name of directory j |
| EventScanner.AncestorPluginNone | scripts/check-event-signatures.py:128-135 | when no ancestor lists CMakeLists.txt, the file is "builtin" |
| EventScanner.OutsidePluginsIsBuiltin | scripts/check-event-signatures.py:123-124 | a path that does not contain "plugins/" belongs to "builtin" |
| PythonStrings.Find | scripts/check-event-signatures.py:22 | `find` returns -1 exactly when the substring does not occur, and otherwise the first offset at which it occurs |
| PythonStrings.Split | scripts/check-event-signatures.py:75 | `split` on one character gives at least one piece, more than one exactly when the separator occurs, and no piece holds the separator |
| PythonStrings.JoinSplit | scripts/check-event-signatures.py:128-130 | joining the pieces of a split with the separator gives back the string |
| PythonStrings.SplitJoin | scripts/check-event-signatures.py:128-130 | splitting the join of separator-free pieces gives back the pieces |
| PythonStrings.SplitNoSeparator | scripts/check-event-signatures.py:75-77 | a string without the separator splits into itself alone |
| PythonStrings.LStrip | scripts/check-event-signatures.py:62 | left stripping removes a prefix made only of stripped characters and leaves a string that starts outside them |
| PythonStrings.RStrip | scripts/check-event-signatures.py:64 | right stripping removes a suffix made only of stripped characters and leaves a string that ends outside them |
| PythonStrings.StripBounds | scripts/check-event-signatures.py:77 | `strip` returns a piece of the string flanked only by stripped characters, which begins and ends outside them |
| PythonStrings.StripIdempotent | scripts/check-event-signatures.py:77 | stripping twice is stripping once |
| OrderedVector.OrderedVector.Init | util/src/ordered_vector.c:28-32 | after init count and capacity are 0, data is null and the vector is empty |
| OrderedVector.OrderedVector.Clear | util/src/ordered_vector.c:42-49 | clear empties the vector and keeps capacity and buffer |
| OrderedVector.OrderedVector.ClearFree | util/src/ordered_vector.c:52-59 | clear_free empties the vector and zeroes capacity and data |
| OrderedVector.OrderedVector.Expand | util/src/ordered_vector.c:162-209 | expand grows capacity 0 to 2 and then doubles it, and copies the elements into a fresh buffer, leaving a gap at the insertion index when one is given |
| OrderedVector.OrderedVector.PushEmplace | util/src/ordered_vector.c:62-70 | push_emplace returns the slot at the old count, keeps the earlier elements and grows a full buffer 0 to 2, then twofold |
| OrderedVector.OrderedVector.Push | util/src/ordered_vector.c:73-76 | push appends the element |
| OrderedVector.OrderedVector.Pop | util/src/ordered_vector.c:79-86 | pop on an empty vector returns null and changes nothing; otherwise it returns the last element and removes it |
| OrderedVector.OrderedVector.Insert | util/src/ordered_vector.c:88-117 | insert at index ≤ count puts the element at index and shifts the later ones up; an index past count changes nothing |
| OrderedVector.OrderedVector.MakeRoom | util/src/ordered_vector.c:109-113 | the memmove shifts the elements from index on up by one and keeps those before |
| OrderedVector.OrderedVector.EraseIndex | util/src/ordered_vector.c:120-138 | erase_index past count changes nothing; otherwise the element goes and the others keep their order |
| OrderedVector.OrderedVector.ShiftDown | util/src/ordered_vector.c:131-135 | the memmove moves the elements after index down by one |
| OrderedVector.OrderedVector.EraseElementAsWritten | util/src/ordered_vector.c:141-151 | erase_element as written leaves the contents its one-element-short memmove produces |
| OrderedVector.OrderedVector.EraseElement | util/src/ordered_vector.c:141-151 | erase_element with the intended length removes the element and keeps the others in order |
| OrderedVector.OrderedVector.GetElement | util/src/ordered_vector.c:154-159 | get_element returns null exactly for an index ≥ count, and otherwise the element at the index |
| OrderedVector.AsWrittenEraseLosesLast | util/src/ordered_vector.c:141-151 | erasing index 1 of [53,24,73,43,65] as written gives [53,73,43,43]; the intended erase gives [53,73,43,65] |
| OrderedVector.AsWrittenEraseAgreement | util/src/ordered_vector.c:141-151 | the erase as written agrees with the intended one exactly when the last element is erased or the last two elements are equal |
| SeqOps.Inserted | util/src/ordered_vector.c:104-116 | insertion puts the element at the index and shifts the later ones up by one |
| SeqOps.Erased | util/src/ordered_vector.c:128-137 | erasure removes the element at the index and shifts the later ones down by one |
| SeqOps.EraseUndoesInsert | util/src/ordered_vector.c:88-138 | erasing at the index of an insertion gives back the original sequence |
| SeqOps.InsertUndoesErase | util/src/ordered_vector.c:88-138 | reinserting an erased element at its index gives back the original sequence |
| SeqOps.ErasedMultiset | util/src/ordered_vector.c:120-138 | erasure removes exactly one occurrence of the erased element |
| SeqOps.ErasedDistinct | util/src/util/linked_list.c:97-116 | erasure keeps distinct elements distinct |
| SeqOps.FirstIndex | util/src/util/linked_list.c:120-133 | the first index holding the element |
| Buffers.CopyElements | util/src/ordered_vector.c:186-206 | the copy loop of expand moves exactly n elements and touches nothing else of the target |
| UnorderedVector.UnorderedVector.Init | util/src/util/unordered_vector.c:40-47 | after init the vector is empty with the given element size, capacity 0 and no data |
| UnorderedVector.UnorderedVector.Clear | util/src/util/unordered_vector.c:61-69 | clear empties the vector and keeps capacity and buffer |
| UnorderedVector.UnorderedVector.ClearFree | util/src/util/unordered_vector.c:73-82 | clear_free empties the vector and zeroes capacity and data |
| UnorderedVector.UnorderedVector.Expand | util/src/util/unordered_vector.c:209-260 | on allocation failure nothing changes; otherwise capacity goes 0 to 2 and then doubles, and the elements move to a fresh buffer with a gap at the insertion index |
| UnorderedVector.CopyWithGap | util/src/util/unordered_vector.c:229-251 | the copies of expand reproduce the old elements, around the gap when one is requested |
| UnorderedVector.UnorderedVector.PushEmplace | util/src/util/unordered_vector.c:86-108 | push_emplace fails exactly when the vector is full and allocation fails, and then changes nothing; otherwise it returns the slot at the old count and keeps the earlier elements |
| UnorderedVector.UnorderedVector.Push | util/src/util/unordered_vector.c:112-125 | push appends the element unless growing fails, in which case nothing changes |
| UnorderedVector.UnorderedVector.Pop | util/src/util/unordered_vector.c:129-138 | pop returns null exactly on an empty vector; otherwise it returns and removes the last element |
| UnorderedVector.UnorderedVector.Back | util/src/util/unordered_vector.c:142-148 | back returns null exactly on an empty vector, and otherwise the last element |
| UnorderedVector.UnorderedVector.EraseIndex | util/src/util/unordered_vector.c:152-170 | an index past count changes nothing; otherwise the last element moves into the gap |
| UnorderedVector.UnorderedVector.EraseElement | util/src/util/unordered_vector.c:174-192 | erase_element moves the last element into the erased slot |
| UnorderedVector.UnorderedVector.GetElement | util/src/util/unordered_vector.c:196-203 | get_element returns null exactly for an index ≥ count, and otherwise the element at the index |
| UnorderedVector.SwapRemoved | util/src/util/unordered_vector.c:160-169 | swap-with-last erase keeps the elements before the index, puts the last one at the index and keeps the rest |
| UnorderedVector.SwapRemovedMultiset | util/src/util/unordered_vector.c:174-192 | swap-with-last erase removes exactly one occurrence of the erased element |
| UnorderedVector.SwapRemoveLastIsPop | util/src/util/unordered_vector.c:152-170 | erasing the last element is popping it |
| UnorderedVector.EraseUndoesPush | util/src/util/unordered_vector.c:112-170 | erasing the element just pushed gives back the vector |
| LinkedList.List.Init | util/src/util/linked_list.c:18-21 | after init count is 0 and head and tail are null |
| LinkedList.List.Clear | util/src/util/linked_list.c:33-43 | clear leaves the list empty |
| LinkedList.List.Push | util/src/util/linked_list.c:47-70 | push appends at the head, so the tail-to-head order is the push order, and count grows by one; on allocation failure nothing changes |
| LinkedList.List.Pop | util/src/util/linked_list.c:74-93 | pop returns null exactly on an empty list; otherwise it removes and returns the head's data |
| LinkedList.List.EraseNode | util/src/util/linked_list.c:97-116 | erase_node removes exactly that node, relinks its neighbours and decrements count |
| LinkedList.List.Unlink | util/src/util/linked_list.c:101-113 | the relinking leaves the remaining nodes chained, with head and tail fixed |
| LinkedList.List.EraseElement | util/src/util/linked_list.c:120-133 | erase_element reports whether the data occurs and removes the first occurrence from the tail; otherwise nothing changes |
| LinkedList.Payloads | util/src/util/linked_list.c:120-133 | the data of the nodes, tail to head |
| LinkedList.PayloadsErased | util/src/util/linked_list.c:97-116 | removing a node removes its data at the same position |
| LinkedList.UnlinkKeepsChain | util/src/util/linked_list.c:101-113 | relinking the neighbours of a node chains the remaining nodes |
| SortedMap.Get | util/src/map.c:68-74 | the reference lookup finds nothing exactly when no entry has the hash |
| SortedMap.LowerBound | util/src/map.c:32-64 | the lower bound is the first position whose hash is ≥ the target |
| SortedMap.LowerBoundUnique | util/src/map.c:32-64 | a position with smaller hashes before it and a hash ≥ the target at it is the lower bound |
| SortedMap.GetFound | util/src/map.c:68-74 | in a sorted map every stored entry is found under its hash |
| SortedMap.LowerBoundDecides | util/src/map.c:68-74 | find returns the entry at the lower bound when it has the hash, and null otherwise |
| SortedMap.FindLowerBound | util/src/map.c:32-64 | the binary search returns the lower bound, or null when every hash is smaller |
| SortedMap.InsertKeepsSorted | util/src/map.c:115-141 | inserting a new hash at its lower bound keeps the hashes strictly ascending |
| SortedMap.GetAfterInsert | util/src/map.c:115-141 | after insert the new hash maps to the new value and every other hash to what it mapped to |
| SortedMap.InsertedKeepsEntry | util/src/map.c:115-141 | insertion keeps every stored entry findable |
| SortedMap.InsertedStillMissing | util/src/map.c:115-141 | insertion of another hash keeps an absent hash absent |
| SortedMap.EraseKeepsSorted | util/src/map.c:154-164 | erasure keeps the hashes strictly ascending |
| SortedMap.GetAfterErase | util/src/map.c:154-164 | after erase the erased hash is absent and every other hash maps to what it mapped to |
| SortedMap.GetAfterSet | util/src/map.c:145-150 | set keeps the map sorted and changes the value of that hash only |
| SortedMap.FirstGap | util/src/map.c:100-111 | the first position whose hash differs from the position |
| SortedMap.FirstGapUnused | util/src/map.c:100-111 | the first gap is a 32-bit key not present in the map |
| SortedMap.Map.Init | util/src/map.c:17-20 | a new map is empty |
| SortedMap.Map.Find | util/src/map.c:68-74 | find returns the value stored under the hash, or null |
| SortedMap.Map.FindElement | util/src/map.c:78-86 | find_element returns the invalid key exactly when no entry holds the value, and otherwise the key of the first entry, in hash order, holding it |
| SortedMap.Map.KeyExists | util/src/map.c:90-96 | key_exists holds exactly when the hash is stored |
| SortedMap.Map.FindUnusedKey | util/src/map.c:100-111 | find_unused_key returns the first gap, a key not present |
| SortedMap.Map.Insert | util/src/map.c:115-141 | insert succeeds exactly for a valid, absent key, and then inserts at the lower bound; otherwise the map is unchanged |
| SortedMap.Map.Set | util/src/map.c:145-150 | set replaces the value of an existing key and changes nothing otherwise |
| SortedMap.Map.Erase | util/src/map.c:154-164 | erase returns the removed value and removes its entry; it returns null and changes nothing when the key is absent |
| SortedMap.Map.EraseElement | util/src/map.c:168-179 | erase_element returns null exactly when no entry holds the value; otherwise the first entry, in hash order, holding it is removed |
| SortedMap.Map.EraseCurrent | util/include/util/map.h:200-202 | erasing the current entry inside a for-each removes it and keeps the map sorted |
| SortedMap.Map.Clear | util/src/map.c:183-186 | clear empties the map |
| HashedVector.ChainGet | util/src/util/bst_hashed_vector.c:256-265 | a chain lookup finds nothing exactly when no binding has the key |
| HashedVector.ChainGetFound | util/src/util/bst_hashed_vector.c:256-265 | in a chain with distinct keys every binding is found under its key |
| HashedVector.ChainGetAppend | util/src/util/bst_hashed_vector.c:112-151 | appending a new key to a chain binds it and keeps the other bindings |
| HashedVector.ChainGetUpdate | util/src/util/bst_hashed_vector.c:180-223 | replacing a binding's value changes that key only |
| HashedVector.ChainGetErase | util/src/util/bst_hashed_vector.c:359-412 | erasing a binding unbinds that key only |
| HashedVector.GetBySlot | util/src/util/bst_hashed_vector.c:227-266 | the lookup by lower bound and chain walk agrees with the reference lookup over all chains |
| HashedVector.GetWithoutSlot | util/src/util/bst_hashed_vector.c:227-266 | a key whose hash has no slot is absent |
| HashedVector.ReplaceSlot | util/src/util/bst_hashed_vector.c:112-223 | replacing one slot's chain changes only the keys of that hash |
| HashedVector.InsertSlot | util/src/util/bst_hashed_vector.c:154-164 | a new slot at its lower bound keeps the slots sorted with one slot per hash and adds only its keys |
| HashedVector.EraseSlotWellFormed | util/src/util/bst_hashed_vector.c:398-408 | erasing a slot keeps the slots sorted with one slot per hash |
| HashedVector.EraseSlotLowerBound | util/src/util/bst_hashed_vector.c:64-99 | after a slot is erased the lower bound of a hash moves down by one exactly when it lay past the erased slot |
| HashedVector.EraseSlot | util/src/util/bst_hashed_vector.c:398-408 | erasing a slot unbinds exactly the keys of its hash |
| HashedVector.GetAfterPut | util/src/util/bst_hashed_vector.c:103-176 | insert of an absent key binds it and keeps every other key, even under hash collision |
| HashedVector.KeyCountAfterPut | util/src/util/bst_hashed_vector.c:103-176 | insert adds one key |
| HashedVector.KeyCountUpdate | util/src/util/bst_hashed_vector.c:180-223 | the key count after replacing a slot |
| HashedVector.KeyCountInsert | util/src/util/bst_hashed_vector.c:154-164 | the key count after inserting a slot |
| HashedVector.KeyCountErase | util/src/util/bst_hashed_vector.c:398-408 | the key count after erasing a slot |
| HashedVector.ChainIndex | util/src/util/bst_hashed_vector.c:256-265 | the position of the first binding with the key |
| HashedVector.GetAfterAssign | util/src/util/bst_hashed_vector.c:180-223 | set changes only an existing key's value and leaves an absent key absent |
| HashedVector.GetAfterRemove | util/src/util/bst_hashed_vector.c:335-412 | after erase the key is absent and every other key keeps its value |
| HashedVector.KeyCountAfterRemove | util/src/util/bst_hashed_vector.c:335-412 | erase of a present key removes one key |
| HashedVector.AsWrittenAgreesOnPresentKeys | util/src/util/bst_hashed_vector.c:180-266 | for a present key the one-binding shortcut agrees with the intended lookup, set and erase |
| HashedVector.LoneChainCounterexample | util/src/util/bst_hashed_vector.c:199-253 | with "a" and "b" sharing a hash and only "a" stored, the code as written finds "b", set("b") overwrites "a" and erase("b") removes "a" |
| HashedVector.SlotCountWithoutCollisions | util/include/util/bst_hashed_vector.h:195 | the vector count equals the key count when no hashes collide |
| HashedVector.CollidingCountCounterexample | util/include/util/bst_hashed_vector.h:195 | three keys sharing a hash give a vector count of 1 |
| HashedVector.HashedVector.Init | util/src/util/bst_hashed_vector.c:45-49 | a new hashed vector holds no slot |
| HashedVector.HashedVector.Find | util/src/util/bst_hashed_vector.c:227-266 | find returns the value bound to the exact key string, or null, even when hashes collide |
| HashedVector.HashedVector.KeyExists | util/src/util/bst_hashed_vector.c:301-331 | key_exists holds exactly when the key is bound |
| HashedVector.HashedVector.FindElement | util/src/util/bst_hashed_vector.c:270-285 | find_element returns null exactly when no binding holds the value, and otherwise the key of the first binding holding it, walking the slots in order and each chain from its start |
| HashedVector.HashedVector.AnyElement | util/src/util/bst_hashed_vector.c:289-297 | get_any_element returns null exactly on an empty vector, and otherwise a stored value |
| HashedVector.HashedVector.Insert | util/src/util/bst_hashed_vector.c:103-176 | insert succeeds exactly for an absent key when allocation succeeds, and keeps the old value of a present key |
| HashedVector.HashedVector.Set | util/src/util/bst_hashed_vector.c:180-223 | set updates only an existing key and otherwise does nothing |
| HashedVector.HashedVector.Erase | util/src/util/bst_hashed_vector.c:335-412 | erase returns the key's value and unbinds it, or returns null when it is absent |
| HashedVector.HashedVector.EraseElement | util/src/util/bst_hashed_vector.c:416-428 | erase_element returns null, changing nothing, exactly when no binding holds the value; otherwise it unbinds the key of the first binding holding it, as find_element finds it |
| HashedVector.HashedVector.Clear | util/src/util/bst_hashed_vector.c:452-457 | clear empties the vector |
| PropertyTree.PTree.Create | util/src/util/ptree.c:28-35 | ptree_create fails exactly when allocation fails and then changes nothing; otherwise it adds a fresh parentless, childless node holding the value |
| PropertyTree.PTree.AddNode | util/src/util/ptree.c:129-143 | add_node fails when the key is taken or allocation fails; otherwise it adds a fresh childless child under the key |
| PropertyTree.PTree.SetRecurse | util/src/util/ptree.c:146-175 | set_recurse creates the missing nodes on the path and the leaf, returns null when the leaf exists, and changes no node off the path |
| PropertyTree.PTree.Set | util/src/util/ptree.c:182-227 | ptree_set returns the new leaf, which the dotted key then reaches, holding the value and no children; it returns null and changes nothing when the key exists; it succeeds when enough allocations succeed; on failure root's children are as before, and no existing node loses its parent, value or children (new valueless nodes may remain under existing ones) |
| PropertyTree.PTree.Destroy | util/src/util/ptree.c:56-125 | ptree_destroy removes exactly the node and its descendants, and its parent no longer lists it |
| PropertyTree.PTree.GetRoot | util/src/util/ptree.c:306-314 | get_root returns a parentless ancestor of the node |
| PropertyTree.RootUnique | util/src/util/ptree.c:306-314 | a node has only one parentless ancestor |
| PropertyTree.GetNode | util/src/util/ptree.c:492-510 | get_node returns null or a node of the tree |
| PropertyTree.GetNodeWalksSegments | util/src/util/ptree.c:492-510 | the dummy first segment makes get_node walk exactly the segments of the key |
| PropertyTree.GetNodeConcat | util/src/util/ptree.c:474-489 | walking two paths one after the other is walking their concatenation |
| PropertyTree.GetNodeMissingSegment | util/src/util/ptree.c:474-489 | a missing segment makes the walk return null whatever follows |
| PropertyTree.GetNodeBelow | util/src/util/ptree.c:474-489 | the node a walk reaches lies below where it started |
| PropertyTree.NodeIsChildOfIsAbove | util/src/util/ptree.c:514-525 | node_is_child_of holds exactly when the tree is a proper ancestor of the node |
| PropertyTree.SetRollback | util/src/util/ptree.c:199-221 | removing the child set added under root restores root's children |
| PropertyTree.PTree.SetParent | util/src/util/ptree.c:234-263 | set_parent refuses, changing nothing, a parent that is the node or lies below it, a key the parent already uses, and a failed allocation; otherwise it moves the node under the parent with the key |
| PropertyTree.PTree.Reparent | util/src/util/ptree.c:255-262 | the relinking moves the node's entry from its old parent's children to the new parent's under the key |
| PropertyTree.MovedKeepsSubtree | util/src/util/ptree.c:234-263 | a move keeps the subtree under the moved node |
| PropertyTree.MovedKeepsOthers | util/src/util/ptree.c:234-263 | a move keeps the ancestors of every node outside the moved subtree |
| PropertyTree.MovedBelowParent | util/src/util/ptree.c:234-263 | after a move the moved subtree lies below the new parent and its ancestors |
| PropertyTree.PTree.Clean | util/src/util/ptree.c:283-302 | ptree_clean drops only valueless descendants, leaves no descendant that has neither children nor a value, and returns how many nodes it removed |
| PropertyTree.PTree.CleanChild | util/src/util/ptree.c:289-300 | one pass of clean's loop cleans a child's subtree and drops the child when it is left empty |
| PropertyTree.PTree.DropLeaf | util/src/util/ptree.c:293-297 | freeing an empty child removes it from the store and from its parent's children |
| UtilString.SafeStrlen | util/src/util/string.c:13-18 | safe_strlen is the length of the string, and 0 for null |
| UtilString.CatStrings | util/src/util/string.c:91-120 | cat_strings returns the in-order concatenation with null arguments as empty, or null when allocation fails |
| UtilString.ConcatLength | util/src/util/string.c:91-120 | the concatenation's length is the sum of safe_strlen over the arguments |
| UtilString.ConcatAppend | util/src/util/string.c:91-120 | concatenation distributes over appending argument lists |
| UtilString.ConcatSkipsEmpty | util/src/util/string.c:91-120 | a null or empty argument contributes nothing |
| UtilString.MallocString | util/src/util/string.c:124-138 | malloc_string returns an equal copy, or null when allocation fails |
| UtilString.StrToWcs | util/src/util/string.c:193-214 | strtowcs widens character for character and keeps the length |
| UtilString.WcsToStr | util/src/util/string.c:218-239 | wcstostr narrows character for character by truncation and keeps the length |
| UtilString.NarrowAfterWiden | util/src/util/string.c:193-239 | narrowing a widened character gives it back |
| UtilString.WidenAfterNarrow | util/src/util/string.c:193-239 | narrowing keeps a wide character exactly when it lies in -128..127 |
| UtilString.RoundTrip | util/src/util/string.c:193-239 | converting to wide and back gives the string back |
| UtilString.RemoveCR | util/src/util/string.c:243-260 | the intended crlf2lf result holds no '\r' and is no longer than the input |
| UtilString.Crlf2lf | util/src/util/string.c:243-260 | the corrected in-place loop leaves the input without its '\r' characters, terminated |
| UtilString.RemoveCRIdempotent | util/src/util/string.c:243-260 | removing '\r' twice is removing it once |
| UtilString.NoCRUnchanged | util/src/util/string.c:243-260 | a string without '\r' is left as it is |
| UtilString.RemoveCRDistributes | util/src/util/string.c:243-260 | removal distributes over concatenation |
| UtilString.AsWrittenReadsPastTrailingCR | util/src/util/string.c:250-257 | on "a\r" the loop as written reads past the terminator |
| UtilString.AsWrittenNotIdempotent | util/src/util/string.c:250-257 | as written, "\r\r\n" becomes "\r\n", which becomes "\n": the function is not idempotent |
| UtilString.AsWrittenAgreesWhenPaired | util/src/util/string.c:243-260 | when every '\r' is followed by a character other than '\r' and the terminator, the loop as written gives the intended result |
| DynamicCall.CountStars | util/src/util/dynamic_call.c:674-678 | the one-line loop counts the '*' characters of the type string |
| DynamicCall.GetTypeFromString | util/src/util/dynamic_call.c:631-737 | the branches of get_type_from_string compute the classification |
| DynamicCall.IntegerClassification | util/src/util/dynamic_call.c:634-666 | a type string containing "int" is UNKNOWN with a '*', and otherwise an integer type whose unsigned variant is chosen exactly when it contains 'u' |
| DynamicCall.UnsignedPrefixAddsOne | util/src/util/dynamic_call.c:634-666 | prefixing 'u' to a signed integer type string gives the next type, its unsigned variant |
| DynamicCall.WideCharClassification | util/src/util/dynamic_call.c:671-683 | "wchar_t" with exactly one '*' is WSTRING, anything else with "wchar_t" is UNKNOWN |
| DynamicCall.CharClassifications | util/src/util/dynamic_call.c:686-705 | "char" is INT8, "char*" STRING and "char**" UNKNOWN |
| DynamicCall.CharBranch | util/src/util/dynamic_call.c:686-705 | a star-free "char" type string containing 'u' is UINT8 |
| DynamicCall.UnsignedCharClassification | util/src/util/dynamic_call.c:686-705 | "unsigned char" is UINT8 |
| DynamicCall.WideCharExamples | util/src/util/dynamic_call.c:671-683 | "wchar_t*" is WSTRING and "wchar_t**" UNKNOWN |
| DynamicCall.PlainIntExamples | util/src/util/dynamic_call.c:634-666 | "int" is INT32 and "int*" UNKNOWN |
| DynamicCall.Int64Example | util/src/util/dynamic_call.c:634-666 | "int64_t" is INT64 |
| DynamicCall.UInt16Example | util/src/util/dynamic_call.c:634-666 | "uint16_t" is UINT16 |
| DynamicCall.FloatExample | util/src/util/dynamic_call.c:709-736 | "float" is FLOAT |
| DynamicCall.DoublePointerExample | util/src/util/dynamic_call.c:709-736 | "double*" is UNKNOWN |
| DynamicCall.VoidExample | util/src/util/dynamic_call.c:709-736 | "void" is NONE |
| DynamicCall.ShortExample | util/src/util/dynamic_call.c:709-736 | an unmatched type string such as "short" is UNKNOWN |
| DynamicCall.StarCountAppend | util/src/util/dynamic_call.c:674-678 | the star count of a concatenation is the sum of the counts |
| DynamicCall.NoStarsCountZero | util/src/util/dynamic_call.c:674-678 | a string without '*' has no star |
| DynamicCall.CreateTypeInfo | util/src/util/dynamic_call.c:63-118 | create_type_info fails exactly when an allocation fails; otherwise argc is the number of arguments, every type is classified, and has_unknown_types holds exactly when the return type or an argument type is UNKNOWN |
| DynamicCall.DoTypecheck | util/src/util/dynamic_call.c:593-625 | do_typecheck returns 1 exactly when argc, the return type and every argument type match the type info |
| DynamicCall.TypecheckAgainstCreated | util/src/util/dynamic_call.c:593-625 | against a created type info, a call checks exactly when it has as many arguments and every type classifies the same |
| DynamicCall.TypecheckAcceptsOwnSignature | util/src/util/dynamic_call.c:593-625 | a type info accepts the very signature it was created from |
| FrameworkPlugin.Plugin.SetVersion | framework/src/plugin.c:111-119 | set_version writes exactly major, minor and patch |
| FrameworkPlugin.FirstWithDigit | framework/src/plugin.c:140-147 | the first '.'-token holding a digit; every earlier one holds none |
| FrameworkPlugin.ExtractVersionFromString | framework/src/plugin.c:123-164 | the tokenizing loop reads major, minor and patch from the first '.'-token holding a digit and the two tokens after it, and succeeds exactly when none of the three is the missing marker 0xFFFFFFFF |
| FrameworkPlugin.SkipsWordWithoutDigits | framework/src/plugin.c:140-147 | a leading token without digits is skipped |
| FrameworkPlugin.MissingFieldFails | framework/src/plugin.c:159-163 | extraction fails when fewer than three tokens remain from the first token holding a digit |
| FrameworkPlugin.VersionRoundTrip | framework/src/plugin.c:122-174 | extracting from get_version_string(v) gives v back, and succeeds exactly when no field is 0xFFFFFFFF |
| FrameworkPlugin.FieldRoundTrip | framework/src/plugin.c:168-174 | atoi of the `%d` of a field gives the field back |
| FrameworkPlugin.SignedRoundTrip | framework/src/plugin.c:168-174 | reading an unsigned field as signed and back gives it back |
| FrameworkPlugin.TokensOfThreeWords | framework/src/plugin.c:140-154 | three dot-free words joined by '.' tokenize into those words |
| FrameworkPlugin.VersionTokens | framework/src/plugin.c:168-174 | the version string tokenizes into its three decimal fields, the first holding a digit |
| PluginManager.VersionAcceptable | plugins/plugin_manager/src/plugin_manager.c:333-365 | no parseable version is refused; EXACT accepts exactly an equal version; MINIMUM accepts exactly a version lexicographically at least the wanted one |
| PluginManager.ExactIsMinimumAndAtMost | plugins/plugin_manager/src/plugin_manager.c:344-359 | EXACT accepts exactly what MINIMUM accepts and is at most the wanted version |
| PluginManager.KeyInjective | plugins/plugin_manager/src/plugin_manager.c:351-359 | the lexicographic key determines the version |
| PluginManager.OwnVersionStringAcceptable | plugins/plugin_manager/src/plugin_manager.c:333-365 | a plugin's own version string is acceptable under EXACT exactly when no field is 0xFFFFFFFF |
| PluginManager.Game.GetByName | plugins/plugin_manager/src/plugin_manager.c:321-329 | get_by_name returns the first loaded plugin with the name, or null |
| PluginManager.Game.Load | plugins/plugin_manager/src/plugin_manager.c:64-191 | plugin_load refuses a loaded name, and otherwise returns the plugin exactly when a file matches, the module loads and the plugin's version passes EXACT; the plugin joins the list only when list_push succeeds, and a failed push still returns it |
| PluginManager.FirstMatch | plugins/plugin_manager/src/plugin_manager.c:369-421 | find_plugin finds nothing exactly when no file of the listing is a candidate |
| PluginManager.FindPlugin | plugins/plugin_manager/src/plugin_manager.c:369-421 | the loop over the listing returns the first candidate file |
| PluginManager.FirstMatchIsFirstCandidate | plugins/plugin_manager/src/plugin_manager.c:369-421 | the first candidate of the listing is the file found |
| Events.FindListener | plugins/plugin_manager/src/events.c:217-224 | the search returns the first listener of the namespace, or null exactly when none listens |
| Events.FirstListener | plugins/plugin_manager/src/events.c:244-256 | the first listener whose namespace is the given one |
| Events.AsWrittenRegistersTwice | plugins/plugin_manager/src/events.c:217-233 | as written, registering plugin "foo" twice is accepted both times, since "foo." is compared against "foo" |
| Events.RegisterTwiceRefused | plugins/plugin_manager/src/events.c:217-233 | with the intended comparison a second registration of the same plugin is refused |
| Events.RegisterKeepsPluginsOnce | plugins/plugin_manager/src/events.c:217-233 | registration keeps every plugin namespace listening at most once |
| Events.UnregisterRemovesOne | plugins/plugin_manager/src/events.c:237-260 | unregistering removes exactly one listener of the namespace |
| Events.UnregisterUndoesRegister | plugins/plugin_manager/src/events.c:193-260 | unregistering the plugin just registered gives back the listeners |
| Events.OutsideCount | plugins/plugin_manager/src/events.c:318-333 | removing a namespace keeps exactly the listeners whose namespace lacks that prefix, with their multiplicity |
| Events.DropNameSpace | plugins/plugin_manager/src/events.c:318-333 | the erase-in-loop leaves no listener of the namespace and the same multiset as the filter |
| Events.OutsideMembers | plugins/plugin_manager/src/events.c:157-177 | the events left are exactly those whose name does not start with "plugin." |
| Events.OutsideKeepsSorted | plugins/plugin_manager/src/events.c:157-177 | removing events keeps the map sorted |
| Events.OutsideGet | plugins/plugin_manager/src/events.c:157-177 | after destroy_all_plugin_events the plugin's events are absent and every other event is found as before |
| Events.Game.EventGet | plugins/plugin_manager/src/events.c:181-190 | event_get returns the event stored under the hash of the full name, or null exactly when none is |
| Events.Game.EventCreate | plugins/plugin_manager/src/events.c:108-120 | event_create returns null when "plugin.name" exists or allocation fails; otherwise a new listener-free event with that name is registered under its hash, except that a hash equal to the invalid key is returned unregistered |
| Events.Game.RegisterListener | plugins/plugin_manager/src/events.c:194-234 | register_listener fails for a missing event or a namespace already listening, and otherwise appends one listener with namespace "plugin."; no other event changes |
| Events.Game.UnregisterListener | plugins/plugin_manager/src/events.c:238-260 | unregister_listener returns 1 exactly when it finds a listener of the namespace, removes it, and changes no other event |
| Events.Game.UnregisterAllListenersOfPlugin | plugins/plugin_manager/src/events.c:275-292 | every event keeps its name and hash and loses exactly the plugin's listeners |
| Events.Game.DestroyAllPluginEvents | plugins/plugin_manager/src/events.c:158-177 | the map left is the old one without the events whose name starts with "plugin.", in order |
| ArgvParser.ArgvParse | lightship/src/argv.c:23-89 | argv_parse fails only on allocation failure; show_help holds exactly when an argument asks for help, and run_game is its negation |
| ArgvParser.SingleDashWithHRequestsHelp | lightship/src/argv.c:62-70 | a single-dash argument containing 'h' asks for help |
| ArgvParser.DoubleDashOnlyHelp | lightship/src/argv.c:73-77 | of the double-dash words only "--help" asks for help |
| ArgvParser.PlainWordsIgnored | lightship/src/argv.c:56-80 | a word without a dash changes nothing |
| LibC.DecimalRoundTrip | framework/src/plugin.c:168-174 | the decimal digits of a number read back as the number |
| LibC.AtoiOfDecimal | framework/src/plugin.c:150-154 | atoi of the `%d` of an integer gives it back |
| LibC.Tokens | framework/src/plugin.c:140-154 | strtok yields non-empty tokens without the delimiter |
| LibC.TokensOfWord | framework/src/plugin.c:140-154 | a word followed by the delimiter is the first token |
| LibC.DigitRun | framework/src/plugin.c:150-154 | the leading digits atoi reads stop at the first non-digit |
| CTypes.ToU32 | framework/src/plugin.c:150-154 | the conversion to a 32-bit unsigned value keeps values in range and wraps the others modulo 2^32 |

## Left out

- Printing: `__list_events`, `check` and the script's entry point print or exit. Their constants, the extensions ".c" and ".h" and the scanned and excluded directories, are not modelled.
- `get_file_list` and the `collected_fire_args` list of `Event` are not modelled. The list is never filled, and the arguments of a fire line are computed (`EventScanner.FireArgs`) but discarded, as in the script.
- `os.walk`, `os.listdir` and `open` are parameters of the scanner. Only their results matter.
- When the script raises part way through a file, the model reports failure. It does not keep the partially updated registry.
- The unused `event_register_listener` and `EVENT_LISTENER` branches of the scanner do nothing and are not modelled.
- `create`/`destroy` wrappers that only allocate or free a structure are not modelled. This covers `ordered_vector_create`/`destroy`, `unordered_vector_create`/`destroy`, `list_create`/`destroy`, `map_create`/`destroy`, `bsthv_create`/`destroy`, `map_clear_free`, `bsthv_clear_free` and the print functions. Memory is not modelled, so `clear_free` and `clear` of the map coincide.
- Capacity and element-size arithmetic: vector counts and capacities are unbounded naturals, and the byte offsets computed from `element_size` are modelled as element positions.
- OrderedVector.OrderedVector.Expand: a `malloc` failure is not modelled, because ordered_vector_expand does not check it.
- The property tree: the value's duplicate and free functions, `ptree_remove`, `ptree_duplicate_*`, `ptree_get_node_no_depth`, `ptree_destroy_keep_root` and `ptree_print` are not modelled. Children containers are modelled as maps from key to node, with the hashed vector assumed correct.
- PropertyTree.PTree.Set: the number of nodes it may allocate is a budget parameter standing for successive allocation outcomes.
- PropertyTree.PTree.Set: requires a key with at least one segment. For a key with none, ptree_set hands a null key to ptree_add_node, which does not guard against it.
- `ptree_init_ptree` initialises a node the caller owns and is not modelled. Nodes come into being only through `PropertyTree.PTree.Create` and `PropertyTree.PTree.AddNode`.
- PropertyTree.PTree.SetParent: which binding is erased first when the new and the old parent coincide depends on hash order, so it is a boolean parameter.
- PropertyTree.PTree.GetRoot: the result is a parentless ancestor of the node. Its uniqueness is stated separately by `PropertyTree.RootUnique`.
- PropertyTree.PTree.Clean: the count is an unbounded natural rather than a `uint32_t`.
- HashedVector.HashedVector.Init: the `count` field of `struct bsthv_t` is neither initialised by `bsthv_init_bsthv` nor used, and is not modelled.
- `bsthv_set_string_hash_func`, `bsthv_restore_default_hash_func` and `hash_jenkins_oaat` are not modelled. The hash function is a parameter of every hashed-vector operation.
- `cat_wstrings`, `malloc_wstring`, `safe_strcat`, `safe_wcslen`, `safe_wcscat`, `stdout_strings` and `stderr_strings` are not modelled. They are wide-character or printing copies of the modelled helpers.
- DynamicCall.CreateTypeInfo: the `argv` strings are taken as a sequence, without `argc` as a separate count.
- The argument-vector filling of dynamic_call (varargs, `memcpy`, floats) is not modelled.
- `plugin_create`, `plugin_init_plugin`, `plugin_set_info`, `plugin_set_programming_language` and `plugin_free_info` only allocate or copy strings and are not modelled.
- PluginManager.Game.Load: module loading, the YAML-driven loading and `plugin_unload` are not modelled. Whether the module loads, what its init function returns and whether `list_push` succeeds are parameters.
- SortedMap.Map.Erase, SortedMap.Map.EraseElement, SortedMap.Map.EraseCurrent, HashedVector.HashedVector.Insert (its rollback), HashedVector.HashedVector.Erase, HashedVector.HashedVector.EraseElement and Events.Game.DestroyAllPluginEvents assume an `ordered_vector_erase_element` that moves every later element down. The only body in the sources (util/src/ordered_vector.c:141-151) moves one element too few, as the first finding shows. The same callers use `ordered_vector_insert_emplace` and `ordered_vector_back`, which that file does not define, so they are written against another version of the ordered vector. Under the body in the sources, erasing hash 1 from a map holding hashes [1, 2, 3] would leave [2, 2].
- HashedVector.HashedVector.Insert: a failed `malloc_string` of the key on the collision path (util/src/util/bst_hashed_vector.c:137-141) frees the new chain node but leaves the previous node's `next` pointing at it, so the chain ends in a dangling link that later walks read. The model has no freed memory and treats this path as a clean failure that leaves the vector unchanged.
- PropertyTree.GetNode, PropertyTree.GetNodeWalksSegments, PropertyTree.PTree.Set and PropertyTree.PTree.SetRecurse assume that `strtok_r_portable`, which is defined nowhere in the sources, behaves as `strtok_r`. Runs of delimiters are then skipped, so "a..b" walks the segments "a" and "b", and a key is split by `LibC.Tokens`. An implementation that kept empty segments would walk differently.
- Events: the map stores event values, not pointers, so `event_free`, `event_destroy`, `event_destroy_plugin_event` and `events_deinit` have nothing of their own to model.
- `events_init` registers three built-in log events through `event_malloc_and_register`. It is not modelled; the registry starts empty, and `Events.Game.EventCreate` covers how an event is registered.
- Events.DropNameSpace: `UNORDERED_VECTOR_ERASE_IN_FOR_LOOP` is defined nowhere in the sources. It is modelled as swap-with-last erase that re-examines the slot, so the contract fixes the listeners left as a multiset, not their order.
- Events.Game.RegisterListener: a failure of `unordered_vector_push_emplace` is not modelled.
- `BUILTIN_NAMESPACE_NAME` comes from a configuration header that is not part of this model. The built-in namespace is a parameter of the registry.

## Findings

| source | as written | input that shows it | evidently intended | confidence | as-written member | corrected member |
|---|---|---|---|---|---|---|
| util/src/ordered_vector.c:141-151 | the memmove of erase_element moves one element too few | [53,24,73,43,65], erase index 1, gives [53,73,43,43] | [53,73,43,65], as the repository's own unit test expects | high, not executed | OrderedVector.AsWrittenEraseLosesLast | OrderedVector.OrderedVector.EraseElement |
| util/src/util/bst_hashed_vector.c:199-253 | find, set and erase_key_value_object take a one-binding chain without comparing its key | "a" stored, "b" with the same hash: find("b") returns a's value, set("b") overwrites "a", erase("b") removes "a" | compare the key in every chain | high, not executed | HashedVector.LoneChainCounterexample | HashedVector.GetAfterAssign |
| util/include/util/bst_hashed_vector.h:195 | bsthv_count is the number of hash slots | three keys with the same hash give a count of 1 | the number of keys (3), as the collision test expects | high, not executed | HashedVector.CollidingCountCounterexample | HashedVector.KeyCountAfterPut |
| util/src/util/string.c:250-257 | crlf2lf skips a '\r' and copies the next character unchecked | "a\r" reads past the terminator; "\r\r\n" becomes "\r\n", not "\n" | drop every '\r', idempotently | high, not executed | UtilString.AsWrittenNotIdempotent | UtilString.Crlf2lf |
| plugins/plugin_manager/src/events.c:217-233 | register_listener compares the stored namespace "foo." against the plugin name "foo" | registering plugin "foo" twice is accepted both times | refuse a second registration of the same plugin | high, not executed | Events.AsWrittenRegistersTwice | Events.RegisterTwiceRefused |
