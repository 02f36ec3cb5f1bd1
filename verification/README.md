# Verified models of pgvictoria's library

This project models the data structures and the standards-driven parts of pgvictoria's C library in
Dafny and proves what they promise. Each module follows one source file, or one layer of it; code that
works in place is modelled by classes, arrays and loops that are proved against functions on values,
and the main results are lemmas about those functions and contracts about every run.

- **Adaptive radix tree** (`Art*`): an index over zero-terminated byte strings with four node layouts
  that grow and shrink in place, lazy leaves, compressed paths and only ten stored path bytes. `ArtTree`,
  `ArtOps` and `ArtOrder` say what a tree means and what the operations do to it; `ArtLayout` and
  `ArtNode` are the four layouts; `ArtHeap`, `ArtInsert`, `ArtDelete` and `ArtVisit` are the algorithms
  on the heap; `Art` is the interface and the iterator. The tree agrees with a plain map after every
  operation.
- **JSON** (`Json*`): the printer, the parser with its cursor, and the round trips that cloning
  depends on; in `JsonLayout`, what the printed text looks like, in `JsonGrammar`, the
  texts that others write, and in `JsonTree`, the radix tree as the members of an object.
- **Deque** (`Deque*`): a doubly linked list with two sentinels, iterators that remove, a merge sort
  that splices pointers, and, in `DequeLock`, the lock discipline as a state machine, whose log
  `DequeReplay` ties to the operations.
- **CRC32C** (`Crc32c`, `CrcPolynomial`): the table loop and the instruction loop against the
  bit-by-bit register, and the register against division of polynomials (section 12.1 of RFC 3720).
- **SCRAM-SHA-256** (`Scram*`, `Base64`): key derivation, messages, both roles and an honest run
  (RFC 5802).
- **INI editor** (`Ini*`): get, set and delete over the lines of a file, and the laws between them.
- **UTF-8** (`Utf8`, section 3 of RFC 3629), **protocol messages** (`Wire`) and **argument
  reordering** (`Cmd`).

`Bytes`, `Values` and `Collections` hold what the modules share. A byte is a number below 256; a C
string is its bytes without the terminator, a radix-tree key its bytes with it.

Where a promise does not hold for every input, the code is kept as it is and the exact condition is
proved. `IniEdit.SetThenGet` says when get sees what set wrote, `IniFile.SetThenGetOnFile` says it for
the written file, `IniEdit.DelThenRead` and `IniEdit.DelSectionThenRead` say what get sees after del, and
`IniEdit.DelSectionChanges` says when deleting a section changes another one; `IniEdit.SetMayNotBeRead`,
`IniFile.SetMayJoin`, `IniEdit.DelMayLeaveKey`, `IniEdit.DelMayLeaveSection` and `IniEdit.DelMayReveal`
are concrete files on which the simple laws fail. `Art.Tree.MatchesAreKeys` says when all matches of a
prefix search are keys; `JsonPrinter.Clone` says which objects a copy is equal to;
`ScramMessages.ResponseIsInitialResponse` says for which nonces the first message is well formed.

`dafny verify dfyconfig.toml` checks the project.

## Model

| member | source | states |
|---|---|---|
| `Art.Tree.Insert` | src/libpgvictoria/art.c:511-560 | a key or a value type that is missing is refused and nothing changes; otherwise the map gets exactly this key with this value, whatever was there before |
| `Art.Tree.Delete` | src/libpgvictoria/art.c:582-599 | without a key nothing changes and the result is an error; otherwise the map loses exactly this key, and stays as it is if the key was not there |
| `Art.Tree.Clear` | src/libpgvictoria/art.c:601-612 | the map is empty afterwards |
| `Art.Tree.SearchValue` | src/libpgvictoria/art.c:1707-1746 | for every key the search gives what the plain map gives, although inner nodes hold at most ten bytes of their paths |
| `Art.Tree.Search` | src/libpgvictoria/art.c:331-380 | the data word of the map's value, 0 without one |
| `Art.Tree.ContainsKey` | src/libpgvictoria/art.c:399-408 | true exactly for the keys of the map |
| `Art.Tree.InOrderIsSorted` | src/libpgvictoria/art.c:1050-1135 | the traversal lists every key of the map once, with its value, in strictly increasing unsigned-byte order |
| `Art.Tree.PrefixSearch` | src/libpgvictoria/art.c:419-509 | copies of exactly the first `max` keys with the prefix, in order, also when the prefix ends inside bytes that no node stores |
| `Art.Tree.MatchesAreKeys` | src/libpgvictoria/art.c:421-434 | a match is its key, except that the empty key gives a null pointer; all matches are keys exactly if the prefix is not empty or the tree does not hold the empty key |
| `Art.EmptyKeyMatch` | src/libpgvictoria/art.c:421-434 | the tree with the empty key alone: one match is counted, and it is the null pointer |
| `Art.SearchNode` | src/libpgvictoria/art.c:1707-1746 | one turn of the search loop: what the map below the node gives for the key is what the map below the chosen child gives, and nothing if there is none |
| `Art.Iterator.Next` | src/libpgvictoria/art.c:1576-1658 | a removal-free run: true with one more entry of the tree until all have been returned, then false; at the end what was returned is the tree's entries, each exactly once |
| `Art.Iterator.HasNext` | src/libpgvictoria/art.c:1660-1668 | true exactly while fewer entries have been returned than the tree has |
| `Art.Iterator.Expand` | src/libpgvictoria/art.c:1604-1655 | a polled inner node is replaced by its children: the entries returned and the entries below the queued nodes always make up the whole tree, and what is left to do shrinks |
| `Art.InOrderSize` | src/libpgvictoria/art.c:511-599 | the size field is the number of keys |
| `ArtInsert.InsertPtr` | src/libpgvictoria/art.c:845-988 | inserting through a pointer: the tree keeps the path invariant, its map gets the key, and the result says whether the key is new |
| `ArtInsert.InsertNode` | src/libpgvictoria/art.c:925-988 | the inner-node case: split inside the path, or go on below, with the bytes past the stored ten taken from the leftmost leaf |
| `ArtInsert.InsertBelow` | src/libpgvictoria/art.c:966-988 | the last case: the child for the next byte is replaced by the child with the key, or a leaf is added |
| `ArtInsert.ExpandLeaf` | src/libpgvictoria/art.c:866-911 | lazy expansion: a leaf becomes a node of two leaves over their common bytes, of which the node stores the first ten |
| `ArtInsert.SplitNode` | src/libpgvictoria/art.c:927-965 | a node whose path differs from the key becomes the child of a new node over the common bytes; its own path loses those bytes and the edge byte, with its stored bytes filled again from the leftmost leaf when it has more than ten |
| `ArtInsert.ComparePaths` | src/libpgvictoria/art.c:889-901 | the loop of the leaf expansion: where the new key and the leaf's key part, with their first ten common bytes stored in the new node on the way |
| `ArtDelete.DeletePtr` | src/libpgvictoria/art.c:991-1048 | deleting through a pointer: the tree keeps the path invariant, its map loses the key, and the value of the leaf removed is the one the map had, none if it had none |
| `ArtDelete.RemoveAndMerge` | src/libpgvictoria/art.c:1409-1468 | a node left with one child gives way to it; the child's path becomes node path, edge byte, child path |
| `ArtDelete.MergeInto` | src/libpgvictoria/art.c:1429-1468 | the merged path's length, and its first ten bytes in place, from the two nodes' stored bytes alone |
| `ArtNode.FindIndex` | src/libpgvictoria/art.c:1262-1297 | in sorted keys, the greatest index whose key is at or below the byte, or -1 |
| `ArtNode.Node.GetChild` | src/libpgvictoria/art.c:801-843 | the slot of the child for a byte in any of the four layouts; none only if the byte has no child, and exactly then except in a Node256, whose slot for a byte may be empty |
| `ArtNode.Node.AddChild` | src/libpgvictoria/art.c:1157-1260 | in place or by growing 4 to 16 to 48 to 256: the byte-to-child map gets exactly this pair, the layout stays well formed, the path stays, and the kind fits the occupancy |
| `ArtNode.Node.RemoveChild` | src/libpgvictoria/art.c:1409-1556 | in place or by shrinking 256 to 48 to 16 to 4: the map loses exactly this byte, the layout stays well formed, the path stays, and the kind fits the occupancy again unless one child is left |
| `ArtHeap.NodeShape` | src/libpgvictoria/art.c:55-61 | every inner node at rest has 2 to 4, 4 to 16, 13 to 48 or 38 to 256 children by its kind, its count of children is theirs modulo 256, and it stores the first ten bytes of its path, or fewer |
| `ArtNode.Node.RemoveSorted` | src/libpgvictoria/art.c:1429-1490 | taking a byte out of a Node4 or Node16 in place: the keys stay strictly sorted and the map loses exactly this byte |
| `ArtNode.Node.ShrinkTo16` | src/libpgvictoria/art.c:1492-1518 | a Node48 becomes a Node16 with the same map and sorted keys |
| `ArtNode.Node.ShrinkTo48` | src/libpgvictoria/art.c:1520-1556 | a Node256 becomes a Node48 with the same map and a bijective index |
| `ArtNode.Node.GrowTo48` | src/libpgvictoria/art.c:1187-1217 | a full Node16 becomes a Node48 with the same map |
| `ArtNode.Node.GrowTo256` | src/libpgvictoria/art.c:1219-1253 | a full Node48 becomes a Node256 with the same map |
| `ArtNode.Node.CopySorted` | src/libpgvictoria/art.c:1157-1185 | a node of one sorted kind becomes one of the other with the same map and keys |
| `ArtNode.Node.FirstChild` | src/libpgvictoria/art.c:1355-1407 | the child for the least byte |
| `ArtNode.Node.KidAt` | src/libpgvictoria/art.c:1050-1135 | the slots in traversal order give the children in increasing byte order |
| `ArtHeap.MinLeaf` | src/libpgvictoria/art.c:1355-1407 | the leaf reached by least bytes holds the tree's leftmost key |
| `ArtOrder.MinKeyIsLeast` | src/libpgvictoria/art.c:1355-1407 | the leftmost key of a tree is the least key of its map |
| `ArtHeap.PartialMatch` | src/libpgvictoria/art.c:1307-1317 | how many of the stored bytes agree with the key |
| `ArtHeap.FullMatch` | src/libpgvictoria/art.c:1319-1343 | how many bytes of the whole logical path agree with the key |
| `ArtTree.KeysExtend` | src/libpgvictoria/art.c:50-61 | the path invariant: every key below a node begins with the node's path and the edge byte of its child |
| `ArtTree.PrefixFree` | src/libpgvictoria/art.c:511-560 | no key is a proper prefix of another, because each ends in its only zero byte |
| `ArtTree.KidKeys` | src/libpgvictoria/art.c:801-843 | the keys below a child are the keys of the map that go on with its byte |
| `ArtTree.CheckPrefixMeaning` | src/libpgvictoria/art.c:1319-1343 | comparing with the stored bytes and then the leftmost leaf compares with the node's whole path |
| `ArtTree.StoredBytes` | src/libpgvictoria/art.c:50-61 | the stored bytes are the first ten, or fewer, of the path |
| `ArtOps.SearchStep` | src/libpgvictoria/art.c:1707-1746 | when the stored bytes differ, or the key ends, the map below has no such key; otherwise only the child for the next byte can have it, although unstored bytes were skipped |
| `ArtOps.LeafExpands` | src/libpgvictoria/art.c:866-911 | the expanded leaf's tree: path invariant and map |
| `ArtOps.NodeSplits` | src/libpgvictoria/art.c:927-965 | the split node's tree: path invariant and map |
| `ArtOps.KidInserted` | src/libpgvictoria/art.c:966-988 | inserting below a child inserts into the whole tree |
| `ArtOps.LeafAdded` | src/libpgvictoria/art.c:980-988 | adding a leaf for a new byte inserts its key |
| `ArtOps.MergedWf` | src/libpgvictoria/art.c:1429-1468 | after a merge the child has the path of both and keeps its keys |
| `ArtOps.MergedStoredIs` | src/libpgvictoria/art.c:1429-1468 | the bytes the merge stores are the first ten of the merged path |
| `ArtOrder.TraversalInOrder` | src/libpgvictoria/art.c:1050-1135 | visiting the children in byte order lists the keys of the tree in strictly increasing order, each once |
| `ArtOrder.PrefixInsidePath` | src/libpgvictoria/art.c:436-509 | a prefix that ends inside a node's path: all keys below have it or none does, decided by the leftmost one |
| `ArtOrder.PrefixPastPath` | src/libpgvictoria/art.c:436-509 | a prefix that goes past a node's path: only the child for the next byte can hold keys with it |
| `ArtLayout.PairInserted` | src/libpgvictoria/art.c:1157-1217 | sorted keys with the new byte shifted in stand for the map with the new pair |
| `ArtLayout.PairRemoved` | src/libpgvictoria/art.c:1429-1490 | sorted keys with a byte shifted out stand for the map without it |
| `ArtLayout.IndexAdded` | src/libpgvictoria/art.c:1219-1253 | a Node48 with a free slot taken stands for the map with the new pair |
| `ArtLayout.IndexRemoved` | src/libpgvictoria/art.c:1492-1518 | a Node48 with a slot given back stands for the map without the byte |
| `ArtLayout.FreeSlot` | src/libpgvictoria/art.c:1219-1253 | a Node48 that is not full has a free slot, whatever was removed from it before |
| `ArtLayout.ShiftIn` | src/libpgvictoria/art.c:1157-1217 | the memmove that makes room, in place |
| `ArtLayout.ShiftOut` | src/libpgvictoria/art.c:1429-1490 | the memmove that closes a gap, in place |
| `ArtVisit.CollectKids` | src/libpgvictoria/art.c:419-509 | the callback over a node's children collects copies of the first keys up to the limit, in order, and stops there |
| `ArtVisit.EnqueueKids` | src/libpgvictoria/art.c:1604-1655 | the children of a polled node join the queue in slot order, none twice, none left out |
| `JsonParser.ParseString` | src/libpgvictoria/json.c:650-806 | the parser from a cursor on: it accepts exactly the texts the grammar functions accept, gives their value, and ends strictly past where it started and within the text |
| `JsonParser.ParseItem` | src/libpgvictoria/json.c:670-755 | an object in braces, member by member, filled in place |
| `JsonParser.ParseArray` | src/libpgvictoria/json.c:757-796 | an array in brackets, element by element, filled in place |
| `JsonParser.FillValue` | src/libpgvictoria/json.c:832-958 | one value is read and added; on an error nothing is added; the cursor moves strictly forward and never past the end |
| `JsonParser.ReadKey` | src/libpgvictoria/json.c:678-747 | a key between quotes, with its escapes, up to where its value begins |
| `JsonParser.Quoted` | src/libpgvictoria/json.c:710-730 | the characters up to the closing quote with the escapes replaced, or an error |
| `JsonParser.HandleEscape` | src/libpgvictoria/json.c:960-990 | the five escapes, and an error for any other or at the end of the text |
| `JsonParser.ReadNumber` | src/libpgvictoria/json.c:871-905 | a run of number characters as an integer, or as a double when it has a point |
| `JsonParser.ReadWord` | src/libpgvictoria/json.c:924-949 | null, true and false, and nothing else |
| `JsonParser.ParseText` | src/libpgvictoria/json.c:620-630 | texts shorter than two characters are refused; what follows the object is ignored |
| `JsonGrammar.TextRead` | src/libpgvictoria/json.c:620-806 | every object or array written by the grammar of RFC 8259, with any white space between the tokens, is read as what it means, whatever follows it |
| `JsonGrammar.ValueRead` | src/libpgvictoria/json.c:832-958 | so is every value, strings with the five escapes, numbers and words among them; the bytes that the parser passes over beyond the grammar are named |
| `JsonGrammar.NumberRead` | src/libpgvictoria/json.c:871-905 | an integer or a double of any digits, up to the first byte that is no digit, sign or point; an integer out of 64 bits is clamped |
| `JsonGrammar.LastWins` | src/libpgvictoria/json.c:356-371 | of several members with one key the last one counts |
| `JsonGrammar.WordsOnly` | src/libpgvictoria/json.c:924-949 | a run of lower-case letters is null, true, false or an error |
| `JsonGrammar.ValuesOnly` | src/libpgvictoria/json.c:832-958 | anything that no value begins with is an error |
| `JsonGrammar.ColonsOnly` | src/libpgvictoria/json.c:700-747 | a key without a colon behind it is an error |
| `JsonGrammar.CommasOnly` | src/libpgvictoria/json.c:678-796 | entries without a comma between them are an error |
| `JsonGrammar.EscapesOnly` | src/libpgvictoria/json.c:960-990 | any other escape is an error |
| `JsonParser.Object.Add` | src/libpgvictoria/json.c:339-371 | an element is appended, a member is put in its place; an object takes its type from its first entry; an entry of the other type, or with an empty key, is refused |
| `JsonPrinter.JsonToString` | src/libpgvictoria/json.c:461-479 | the printed text of an object, built by appending; the compact text and the lines of the pretty text, byte for byte |
| `JsonPrinter.ItemToString` | src/libpgvictoria/art.c:1845-1890 | the text of the members in traversal order, with separators, in both formats |
| `JsonPrinter.ArrayToString` | src/libpgvictoria/deque.c:662-733 | the text of the elements, with separators, in both formats |
| `JsonPrinter.ValueToString` | src/libpgvictoria/value.c:547-600 | indentation, tag and text of a value |
| `JsonPrinter.EscapeString` | src/libpgvictoria/utils.c:2804-2861 | the escaped text |
| `JsonLayout.CompactIs` | src/libpgvictoria/art.c:1748-1890 | the compact text: brackets, `"key":value` and values with single commas between them, and nothing else |
| `JsonLayout.CompactIsTight` | src/libpgvictoria/art.c:1748-1890 | the compact text has no white space outside of quoted strings |
| `JsonLayout.PrettyIs` | src/libpgvictoria/art.c:1748-1890 | the pretty text: every entry on lines of its own behind two spaces for each level, `": "` behind its key, a comma behind all but the last, and the closing bracket on a line at the level of its container |
| `JsonText.EscapeIs` | src/libpgvictoria/utils.c:2804-2861 | the five escapes, byte for byte; every other character stands for itself |
| `JsonText.EscapeConcat` | src/libpgvictoria/utils.c:2804-2861 | a text is escaped character by character |
| `JsonText.DecimalIs` | src/libpgvictoria/value.c:547-600 | an integer is printed as its sign and its digits without zeros in front |
| `JsonPrinter.Clone` | src/libpgvictoria/json.c:632-648 | the copy of an object is the object up to the type of empty containers and what "%f" does not print of doubles, and equal to it exactly if no container in it is empty and every double's text is kept |
| `JsonRoundTrip.PrintThenParse` | src/libpgvictoria/json.c:632-648 | parsing the pretty or the compact text of any tree of objects, arrays, strings, integers, doubles, booleans and nulls gives the tree back, up to empty containers and the texts that "%f" gives doubles; equality exactly where neither changes anything |
| `JsonRoundTrip.ValueRoundTrip` | src/libpgvictoria/json.c:832-958 | a printed value is read back whatever may follow it |
| `JsonRoundTrip.MembersRoundTrip` | src/libpgvictoria/json.c:670-755 | printed members are read back in order, behind the members read before |
| `JsonRoundTrip.ElementsRoundTrip` | src/libpgvictoria/json.c:757-796 | printed elements are read back in order |
| `JsonRoundTrip.ParseThenPrint` | src/libpgvictoria/json.c:632-648 | whatever the parser accepts is given back by printing in either format and parsing again, with each double as its "%f" text; unchanged exactly if these are the texts that were read |
| `JsonRoundTrip.ParsedCopies` | src/libpgvictoria/json.c:650-806 | what the parser accepts can be copied if its doubles print as numbers, and exactly if they print as they were read: its keys are in order and not empty, it has no empty string, no empty container and integers of 64 bits |
| `JsonRoundTrip.CollapseJsonIsIdentity` | src/libpgvictoria/json.c:461-479 | a copy keeps an object exactly if no container in it is empty and no double changes its text |
| `JsonText.UnquoteEscaped` | src/libpgvictoria/json.c:960-990 | the parser's escapes invert the printer's, for every string |
| `JsonText.ScanDecimal` | src/libpgvictoria/json.c:871-905 | every 64-bit integer is read back from its decimal text |
| `Json.PutGet` | src/libpgvictoria/json.c:356-371 | put sets one key and leaves every other lookup alone |
| `Json.PutSorted` | src/libpgvictoria/json.c:356-371 | put keeps the members in traversal order |
| `JsonTree.PutMember` | src/libpgvictoria/json.c:356-371 | inserting a member into the object's radix tree puts it among the members that the traversal lists |
| `JsonTree.InsertIsPut` | src/libpgvictoria/art.c:511-560 | the traversal after an insertion lists the members of the traversal before it with the new one put in its place |
| `JsonTree.GetIsLookup` | src/libpgvictoria/art.c:1707-1746 | a lookup among the members is a lookup in the tree |
| `Deque.Deque.constructor` | src/libpgvictoria/deque.c:88-105 | an empty list between two sentinels |
| `Deque.Deque.Offer` | src/libpgvictoria/deque.c:514-555 | the sequence gets one new node at its end; a value without a type is not added; an empty tag becomes no tag |
| `Deque.Deque.Poll` | src/libpgvictoria/deque.c:160-194 | the first node leaves the sequence and its value and tag are the result; nothing from an empty deque |
| `Deque.Deque.PollLast` | src/libpgvictoria/deque.c:196-230 | the last node leaves the sequence |
| `Deque.Deque.Remove` | src/libpgvictoria/deque.c:781-795 | exactly one node leaves, next and prev stay consistent over both sentinels, the size follows, the result is the node before |
| `Deque.Deque.Find` | src/libpgvictoria/deque.c:640-660 | the first node with the tag; no tag and the empty tag are never found |
| `Deque.Deque.Get` | src/libpgvictoria/deque.c:284-306 | the data of the first node with the tag, or 0 |
| `Deque.Deque.Exists` | src/libpgvictoria/deque.c:308-325 | true exactly if a node has the tag |
| `Deque.Deque.RemoveTag` | src/libpgvictoria/deque.c:114-134 | the nodes without the tag remain, in order, and the result is the number of the others |
| `Deque.Deque.Clear` | src/libpgvictoria/deque.c:136-151 | no node remains |
| `Deque.Deque.Sort` | src/libpgvictoria/deque.c:345-372 | the same nodes in increasing order of their tags as unsigned bytes, those without a tag last, equal tags in their old order; links, sentinels and size restored |
| `Deque.Iterator.Next` | src/libpgvictoria/deque.c:487-502 | one node further, or false at the end |
| `Deque.Iterator.Remove` | src/libpgvictoria/deque.c:457-475 | the current node leaves and the iterator steps back, with the tag and value of the node before, so the next node is the one that followed: none is skipped, none comes twice |
| `Deque.Iterator.HasNext` | src/libpgvictoria/deque.c:504-512 | true exactly if a node follows |
| `Deque.WithoutOthers` | src/libpgvictoria/deque.c:114-134 | taking out a tag leaves the nodes of every other tag as they were |
| `DequeSort.Sort` | src/libpgvictoria/deque.c:810-828 | the chain of nodes is relinked in the order of the merge sort on sequences, next and prev both ways |
| `DequeSort.Merge` | src/libpgvictoria/deque.c:830-904 | two chains become one in merged order by splicing alone; a node of the first goes before one of the second with the same tag |
| `DequeSort.GetMiddle` | src/libpgvictoria/deque.c:797-808 | the node in the middle, never the first of several |
| `DequeSort.Cut` | src/libpgvictoria/deque.c:822-825 | the chain falls apart into two chains before the middle |
| `DequeSort.Take` | src/libpgvictoria/deque.c:846-887 | one turn of the merge loop: the head of one chain goes behind the merged nodes, the rest of both chains untouched |
| `DequeSort.LinkRest` | src/libpgvictoria/deque.c:888-903 | the rest of one chain goes behind the merged nodes |
| `DequeSort.NextDistinct` | src/libpgvictoria/deque.c:624-638 | following next never comes back to a node |
| `DequeList.Splice` | src/libpgvictoria/deque.c:781-795 | the two assignments that take a node out keep the list linked both ways |
| `DequeList.Insert` | src/libpgvictoria/deque.c:546-553 | the four assignments that put a node in keep the list linked both ways |
| `DequeNode.TagOrder` | src/libpgvictoria/deque.c:905-917 | the comparison of tags is a total order |
| `DequeNode.SortingOrders` | src/libpgvictoria/deque.c:810-828 | the sort puts the nodes in tag order |
| `DequeNode.SortingAscends` | src/libpgvictoria/deque.c:905-917 | in the sorted list a node without a tag has only such nodes behind it, and of two tagged nodes the first has the same tag or the smaller one as unsigned bytes |
| `DequeNode.SortingPermutes` | src/libpgvictoria/deque.c:810-828 | the sort keeps the nodes |
| `DequeNode.SortingStable` | src/libpgvictoria/deque.c:810-904 | the sort keeps the order of nodes with equal tags |
| `DequeLock.EveryRun` | src/libpgvictoria/deque.c:160-230 | every run of any number of adding and polling threads: the operations take effect in one order, as on a sequential deque; in it every thread's calls stand in its program order, each once with the value it asked to add, up to the call it is in; every thread's polls return what that order gives them; no value added is lost or delivered more often than added; the size is the list's length whenever no thread holds the write lock |
| `DequeLock.StepKeeps` | src/libpgvictoria/deque.c:426-438 | each step of each thread keeps the lock, size and log invariants |
| `DequeLock.RunAsks` | src/libpgvictoria/deque.c:160-230 | for every thread, the calls that have taken effect followed by the one it is in are the calls it has made, in its program order |
| `DequeLock.StepKeepsSize` | src/libpgvictoria/deque.c:514-555 | between counting and linking, or unlinking and counting, the size is one ahead, and only then |
| `DequeLock.ReplayConserves` | src/libpgvictoria/deque.c:160-230 | what was added is what is in the list and what was taken |
| `DequeReplay.Add` | src/libpgvictoria/deque.c:514-535 | adding to a deque changes the values of its list as replaying the event of a log does |
| `DequeReplay.Poll` | src/libpgvictoria/deque.c:160-230 | so does polling from either end, and the event gives the value polled |
| `Crc32c.Software` | src/libpgvictoria/security.c:2644-2722 | the table loop computes the reference for every buffer and start value |
| `Crc32c.Sse42` | src/libpgvictoria/security.c:2609-2640 | groups of eight, four and one byte compute the reference for every buffer and start value |
| `Crc32c.CreateFile` | src/libpgvictoria/security.c:2762-2783 | chunks of 16384 bytes give the code of the whole file |
| `Crc32c.CreateBuffer` | src/libpgvictoria/security.c:2741-2760 | both implementations give the reference |
| `Crc32c.CrcAppend` | src/libpgvictoria/security.c:2762-2783 | the code of a concatenation continues the code of its first part |
| `Crc32c.TableEntry` | src/libpgvictoria/security.c:2649-2713 | each of the 256 entries is eight shifts of its index |
| `Crc32c.TableStep` | src/libpgvictoria/security.c:2715-2718 | one turn of the table loop is eight turns of the bit-by-bit register |
| `Crc32c.InstructionIsReference` | src/libpgvictoria/security.c:2615-2635 | an instruction on a little-endian word is the reference on its bytes |
| `CrcPolynomial.CrcIsRemainder` | src/libpgvictoria/security.c:2644-2722 | the register holds the remainder of the message polynomial divided by the generator over GF(2), and it is the only polynomial of degree below 32 that is one |
| `CrcPolynomial.Division` | src/libpgvictoria/security.c:2715-2718 | dividend equals quotient times generator plus register, after every message |
| `CrcPolynomial.BurstDetected` | src/libpgvictoria/security.c:2644-2722 | two messages that differ within four consecutive bytes, and nowhere else, have different codes |
| `Scram.SaltedPassword` | src/libpgvictoria/security.c:1799-1899 | Hi of section 2.2 of RFC 5802 for every iteration count, one round for a count below one: a bit of the result is set exactly if it is set in an odd number of rounds |
| `Scram.HiBits` | src/libpgvictoria/security.c:1850-1890 | every bit of Hi is the exclusive or of that bit over the rounds |
| `Scram.XorBitsAt` | src/libpgvictoria/security.c:1876 | a bit of the exclusive or is set exactly if the two bits differ |
| `Scram.KeyNames` | src/libpgvictoria/security.c:1687-1730 | the names that the client key and the server key are made with, byte for byte |
| `Scram.MakeProof` | src/libpgvictoria/security.c:1687-1797 | ClientProof of section 3 of RFC 5802 over the AuthMessage of the three messages, bit by bit |
| `Scram.MakeSignature` | src/libpgvictoria/security.c:2036-2147 | ServerSignature of section 3 of RFC 5802, from the password or from a server key that is given |
| `Scram.Sign` | src/libpgvictoria/security.c:1732-1757 | the five updates feed in the AuthMessage |
| `Scram.ComparingProofs` | src/libpgvictoria/security.c:763-776 | comparing proofs accepts only what the check of RFC 5802 accepts, and all of it unless the hash collides on the client key |
| `ScramMessages.CreateResponse` | src/libpgvictoria/message.c:460-481 | the bytes at their offsets |
| `ScramMessages.CreateContinue` | src/libpgvictoria/message.c:483-508 | the bytes at their offsets |
| `ScramMessages.CreateContinueResponse` | src/libpgvictoria/message.c:510-531 | the bytes at their offsets |
| `ScramMessages.CreateFinal` | src/libpgvictoria/message.c:533-554 | the bytes at their offsets |
| `ScramMessages.ResponseIsInitialResponse` | src/libpgvictoria/message.c:460-481 | the first message is a well-formed SASLInitialResponse exactly for nonces of 24 characters, when the space in the text is its length field |
| `ScramMessages.GetAttribute` | src/libpgvictoria/security.c:1634-1685 | the value of the first attribute with the name among the pieces between commas |
| `ScramMessages.AttributeOfJoined` | src/libpgvictoria/security.c:1634-1685 | from a message of fields every attribute is read back |
| `ScramExchange.SaslPrep` | src/libpgvictoria/security.c:1577-1602 | a password passes unchanged exactly if it is ASCII |
| `ScramExchange.AtoiReads` | src/libpgvictoria/security.c:1321 | the iteration count: digits behind white space are read as their number |
| `ScramExchange.ErrorRead` | src/libpgvictoria/security.c:1311-1317 | the attribute by which a server reports an error is found |
| `ScramExchange.Client.Start` | src/libpgvictoria/security.c:1266-1288 | the first message, kept for the AuthMessage; a password that is not ASCII stops the client |
| `ScramExchange.Client.Respond` | src/libpgvictoria/security.c:1290-1357 | an error message stops the client; otherwise its answer carries the proof for the salt, the count and the nonces of the server's message |
| `ScramExchange.Client.Finish` | src/libpgvictoria/security.c:1359-1396 | success exactly if the server's signature is the one the client computes |
| `ScramExchange.Server.Continue` | src/libpgvictoria/security.c:706-745 | the answer continues the client's nonce; what is kept is what was sent |
| `ScramExchange.Server.Final` | src/libpgvictoria/security.c:748-800 | success exactly if the proof is the one the server computes, and then the signature is the answer |
| `ScramRun.Run` | src/libpgvictoria/security.c:636-867 | both roles sign the same AuthMessage; with one ASCII password both succeed; in general the server accepts exactly if the passwords give the same proof and then the client exactly if they give the same signature |
| `Base64.DecodeEncode` | src/libpgvictoria/utils.c:607-704 | decoding gives back what was encoded |
| `Base64.EncodeIs` | src/libpgvictoria/utils.c:607-655 | the encoding of section 4 of RFC 4648: groups of 24 bits in four digits of six bits, with the padding of the last group |
| `Base64.DigitIsInTable` | src/libpgvictoria/utils.c:607-655 | the digits are those of table 1 of RFC 4648 |
| `IniFile.ConfigGet` | src/config.c:661-755 | the loop over the lines reads what the line semantics says |
| `IniFile.ConfigGetReads` | src/config.c:661-755 | on a file with the line `[section]`, with no header of it before, and then `key = value` before any other header and any other line for the key, with any white space and comments, get gives the value |
| `IniFile.ConfigSet` | src/config.c:766-962 | the lines, scanned, shifted and overwritten in an array, are written as the line semantics says |
| `IniFile.SetAbsentBytes` | src/config.c:891-918 | what set writes when the section is missing, byte for byte |
| `IniEdit.SetPlaceIs` | src/config.c:862-890 | a new line goes behind the last line of its section that has text, in front of the blank lines after it, or behind all of them if none has |
| `IniFile.ConfigDel` | src/config.c:971-1112 | the lines to be deleted, and only they, are not written |
| `IniFile.ScanSection` | src/config.c:795-846 | the scan's variables after all lines |
| `IniFile.Parse` | src/config.c:683-734 | header, entry or neither, with the comment and the white space cut off |
| `IniFile.SplitConcat` | src/config.c:784-793 | lines that are written are the lines that are read, if each but the last is complete |
| `IniFile.SplitIsLines` | src/config.c:784-793 | whatever is in a file, each of its lines but the last ends in a newline |
| `IniFile.DelOnFile` | src/config.c:1065-1081 | what del writes is read as the lines it kept, for every file |
| `IniFile.SetOnFile` | src/config.c:925-930 | what set writes is read as the lines it made, exactly if it does not write behind a last line without a newline; for every file |
| `IniFile.SetThenGetOnFile` | src/config.c:661-962 | config_get of what config_set has written gives the value exactly if the section is missing or a reader is still inside it where set writes, and set does not write behind a last line that has no newline and is not blank; nothing otherwise; for every file |
| `IniFile.SetThenGetUniqueFile` | src/config.c:661-962 | with at most one header of the section, the value exactly if set does not write behind such a last line |
| `IniFile.SetMayJoin` | src/config.c:661-962 | a file whose last line has no newline, on which what set writes is not read |
| `IniLine.TrimText` | src/config.c:629-652 | white space off both ends |
| `IniLine.EntryRead` | src/config.c:683-734 | `key = value` with any white space around the key and the value is read as that key and value |
| `IniLine.EntryCommentRead` | src/config.c:683-734 | so it is with a hash or a semicolon and any comment behind the value |
| `IniLine.HeaderRead` | src/config.c:687-700 | `[section]` behind any white space, and whatever follows the bracket, is read as the header |
| `IniLine.BlankIs` | src/config.c:629-652 | a line is blank exactly if it holds nothing but the six white-space characters |
| `IniLine.CommentRead` | src/config.c:682-686 | a line whose first text is a hash or a semicolon is none of these |
| `IniLine.TextRead` | src/config.c:683-734 | nor is a line of text without an equals sign |
| `IniLine.JoinedEntry` | src/config.c:848-861 | a line for a key behind a text without a newline is not read as one for that key, unless the text was or is blank |
| `IniLine.JoinedHeader` | src/config.c:808-822 | likewise a header behind a text without a newline |
| `IniLine.EntryMeaning` | src/config.c:848-861 | a written line is read as its key and value, with or without a comment |
| `IniEdit.ScanIs` | src/config.c:795-846 | the scan finds the section's last header, where that section ends, and the first line for the key under any of its headers |
| `IniEdit.SetThenGet` | src/config.c:661-962 | get after set gives the value exactly if the section is missing or a reader is still inside it where set writes, and nothing otherwise; for every file |
| `IniEdit.SetThenGetUnique` | src/config.c:661-962 | with at most one header of the section, get after set gives the value |
| `IniEdit.SetKeepsOthers` | src/config.c:766-962 | set leaves every other lookup unchanged, in every file |
| `IniEdit.SetTwice` | src/config.c:766-962 | two sets are the last one, line for line, in every file |
| `IniEdit.DelKeyKeepsOthers` | src/config.c:971-1112 | deleting a key leaves every other lookup unchanged, in every file |
| `IniEdit.DelThenRead` | src/config.c:971-1112 | what get gives for a deleted key, in every file: if a reader is inside the section where the deleted line was, what it finds behind that line, and otherwise nothing |
| `IniEdit.DelThenGet` | src/config.c:971-1112 | with one header of the section, a deleted key is gone exactly if one line was for it |
| `IniEdit.DelSectionThenRead` | src/config.c:971-1112 | what get gives for a key of a deleted section, in every file: what the lines before the section's last header give |
| `IniEdit.DelSectionThenGet` | src/config.c:971-1112 | with one header of the section, a deleted section is gone with all its keys |
| `IniEdit.DelSectionChanges` | src/config.c:971-1112 | deleting a section changes a lookup in another section exactly if a reader is inside that one before the deleted header without having found the key, and what follows the deleted lines goes on with a header of that section and has the key; then the key is found where nothing was; for every file |
| `IniEdit.DelSectionKeepsOthers` | src/config.c:971-1112 | in particular, deleting a section leaves lookups in another section unchanged unless that one has headers on both sides |
| `IniEdit.DelKeyFinds` | src/config.c:1046-1055 | deleting a key fails exactly if no line under the section is for it |
| `IniEdit.DelSectionFinds` | src/config.c:1046-1055 | deleting a section fails exactly if it has no header |
| `IniEdit.SetMayNotBeRead` | src/config.c:661-962 | with two headers of a section and another section between them, what set writes is not read |
| `IniEdit.DelMayReveal` | src/config.c:971-1112 | deleting a section between two headers of another one can bring a key of that one to light |
| `IniEdit.DelMayLeaveKey` | src/config.c:971-1112 | two lines for a key: with the first one deleted, get gives the second one's value |
| `IniEdit.DelMayLeaveSection` | src/config.c:971-1112 | two headers of a section: with the last one deleted, get still finds a key under the first |
| `Utf8.Valid` | src/libpgvictoria/utf8.c:149-177 | the loop accepts exactly the buffers that decode to scalar values |
| `Utf8.CharLength` | src/libpgvictoria/utf8.c:179-209 | the number of scalar values, or the error value |
| `Utf8.IsAscii` | src/libpgvictoria/utf8.c:211-222 | true exactly if every byte is below 128 |
| `Utf8.ValidIsEncoding` | src/libpgvictoria/utf8.c:149-177 | a buffer is valid exactly if it is the UTF-8 encoding of some sequence of Unicode scalar values |
| `Utf8.EncodingIsInjective` | src/libpgvictoria/utf8.c:149-209 | that sequence is the only one |
| `Utf8.AcceptedIsEncoding` | src/libpgvictoria/utf8.c:39-147 | an accepted sequence of bytes is the encoding of its value: no overlong form, no surrogate, nothing above U+10FFFF |
| `Utf8.EncodingIsAccepted` | src/libpgvictoria/utf8.c:39-147 | every encoding is accepted, whatever follows it |
| `Utf8.Concatenation` | src/libpgvictoria/utf8.c:149-209 | after a valid buffer, validity and count of what follows decide: counts add up |
| `Utf8.AsciiCounts` | src/libpgvictoria/utf8.c:179-222 | an ASCII buffer is valid and has a character per byte |
| `Wire.HasMessage` | src/libpgvictoria/message.c:1009-1040 | on any concatenation of well-formed messages, true exactly if one has the type; no byte outside the data is read |
| `Wire.Extract` | src/libpgvictoria/utils.c:3683-3723 | the first message of the type |
| `Wire.CreateTuple` | src/libpgvictoria/message.c:1144-1180 | the byte strings of a DataRow, NULL and empty both as NULL |
| `Wire.ColumnName` | src/libpgvictoria/message.c:1223-1265 | the name of the column in a RowDescription, an error for an index past the columns and for other messages |
| `Wire.NumberOfColumns` | src/libpgvictoria/message.c:1212-1221 | the number of columns of a RowDescription, 0 for other messages |
| `Wire.FieldCountReads` | src/libpgvictoria/utils.c:168-174 | the number of fields is read in network order |
| `Wire.ReadWritten` | src/libpgvictoria/utils.c:184-190 | an integer in network order is read as it was written |
| `Cmd.OrderArranges` | src/libpgvictoria/cmd.c:82-172 | the order that the texts of the arguments ask for: every one once, the program's name, then flags, then options with their arguments, then positional arguments, each block in the old order |
| `Cmd.TakesNextIs` | src/libpgvictoria/cmd.c:82-145 | an argument takes the next one exactly if it has no equals sign and is two dashes and a long name, or one dash and a short name, of which the first option needs one |
| `Cmd.KindIs` | src/libpgvictoria/cmd.c:82-172 | the block that an argument goes to, by its text and the one before it |
| `Cmd.Reorder` | src/libpgvictoria/cmd.c:82-172 | argv becomes, place by place, the arguments in the order: program name, flags, options with their arguments, positional arguments |
| `Cmd.OrderIsPermutation` | src/libpgvictoria/cmd.c:82-172 | every old place occurs exactly once in that order, and no other does |
| `Cmd.PlacesAre` | src/libpgvictoria/cmd.c:82-172 | each block holds the places of its arguments in their old order |
| `Cmd.OrderAt` | src/libpgvictoria/cmd.c:82-172 | the blocks stand one behind the other: flags, options with arguments, positional arguments |
| `Cmd.ArgumentFollows` | src/libpgvictoria/cmd.c:110-145 | an argument of an option stands right behind its option |
| `Cmd.OptionRequiresArg` | src/libpgvictoria/cmd.c:33-56 | the first option with the name decides |

## Left out

- Art.Tree.Search: null pointers for the tree are not modelled; memory, freeing and failing allocation are not modelled anywhere.
- Art.Tree.Insert: the 32-bit and 64-bit widths of sizes, counts and path lengths are not modelled, except for the count of a full Node256, which is kept modulo 256 as in the code.
- Art.Iterator.Next: pgvictoria_art_iterator_remove is not modelled; it sets the count back so that a later call can start over (art.c:1590-1593, 1681).
- Art.Iterator.Expand: the queue is a sequence here; the deque that the code uses is modelled by itself in Deque.
- art.c: the text format of the printers, insertion with a configuration and the destruction callbacks are not modelled.
- JsonRoundTrip.PrintThenParse: a double is given by the text it was read from, and what "%f" prints of it is any function of that text; that two texts can stand for the same double is not modelled, so a copy counts as exact only if the texts are the same. Doubles that print as "inf" or "nan" are outside the round trip: such a text is no number. Other number types than 64-bit integers, and base64 values, are not modelled.
- JsonParser.ReadNumber: an integer out of range is clamped, which is what glibc's sscanf does.
- JsonParser.ParseItem: nested objects are held by value; sharing of one object by two parents is not modelled. An object whose text ends after a value, without its closing brace, is accepted, as in the code.
- JsonPrinter.ItemToString: the members are the sequence that the traversal of the object's tree gives; JsonTree proves that insertion into the tree is what Json.Put says.
- json.c: the streaming reader (json.c:119-337, 1054-1387) works on file reads and is not modelled.
- Deque.Deque.Offer: value ownership and reference counting are not modelled; a node's data is a type and a word.
- Deque.Deque.Poll: the thread-safe paths are modelled in DequeLock on values, one step per lock operation or access to size and list; the four pointer assignments under the write lock are one step there, because no other thread can see between them.
- deque.c: peeking at the ends, listing to the log, destruction and the text format are not modelled.
- DequeLock.EveryRun: iterators, sorting and peeking by several threads at once are not modelled; iterators take no lock in the code.
- Crc32c.Sse42: the three instructions are specified as the reference on the bits of their operand; the processor test and the 32-bit build are not modelled.
- Crc32c.CreateFile: reading is modelled as full chunks and a last shorter one; the eight hexadecimal digits of the result string are not modelled.
- Crc32c.TableEntry: the table is kept in sixteen rows of sixteen instead of one row of 256.
- ScramExchange.Client.Respond: the code uses the attributes r, s and i without asking whether they were found; messages without them are outside the model, and so are iteration counts that do not fit into an int.
- ScramExchange.Server.Final: a password that is not ASCII is outside the model of this role, because the code does not look at the result of sasl_prep there.
- ScramRun.Run: sockets, TLS, timeouts, random numbers and shared memory are not modelled; random bytes are parameters. HMAC and the hash are arbitrary functions with results of 32 bytes.
- Base64.DecodeEncode: what OpenSSL does with text that is not base64 is modelled only as far as stopping at the first group that is none.
- IniFile.ConfigSet: the sizes of the fixed buffers (4096 characters a line, 8192 lines, 128 characters a header), the temporary file, renaming and permissions are not modelled.
- IniLine.EntryMeaning: keys with an equals sign, values with a hash or a semicolon, and section names with a closing bracket are outside the laws.
- IniFile.SetThenGetOnFile: section names, keys, values and comments that contain a newline are outside the law.
- Wire.HasMessage: data that is no concatenation of whole messages is outside the model; the code trusts the length fields.
- Wire.ColumnName: a negative index, and a RowDescription with fewer columns than it announces, are outside the model.
- Cmd.Reorder: the loop that matches the reordered arguments and fills the results is not modelled; no claim is made about matching options with an equals sign.
- value.c: accessors and conversions, and the printers of types that the JSON parser does not make, are not modelled.
- guc.c, report.c, configuration.c, admin.c, stream.c, memory.c, logging.c: the tables and classification of settings, the parsing of configuration values, user files, streams, buffers and log output are not modelled.
