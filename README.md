# Compact trie, modelled and verified in Dafny

This project models the compact (radix) trie of `src/trie/Trie.java` and proves what its operations do.

A `TrieNode` holds three things:
- a label of several characters (`content`);
- a map from the branching character to a son (`sons`);
- a terminal flag (`endNode`).

`Trie` wraps a root node that is never replaced. The trie has four recursive operations, all opened by the same loop that matches a node's label against the rest of the word:
- `insert`: bootstrap of an empty leaf node, label split, new son, or flag set;
- `remove`: leaf detach, fusion with a sole son, or flag clear;
- `search`;
- `startsWith`.

The model has two layers.

- **Values** (`TrieSemantics.dfy`, `TrieProperties.dfy`).
  - A node value is `Node(content, sons, endNode)`.
  - `Words(n)` is the set of stored words: the words spelled along paths down to a terminal node, where each step is a label, a key, then the son's words.
  - `Reach(n)` is every prefix of every string spelled along a path from `n` downwards, whether or not the path ends at a terminal node. So it can hold more than the prefixes of stored words.
  - `Inserted`, `Removed`, `Found` and `Readable` follow the Java methods branch by branch.
  - Module `TrieProperties` proves what they mean for `Words` and `Reach`.
- **Heap** (`TrieImpl.dfy`, `Labels.dfy`).
  - Classes `TrieNode` and `Trie` hold the same fields as the Java classes. Their methods make the same assignments, in the source's order up to two harmless differences. `SplitAt` installs the new map with its one son in a single assignment, made before the label is shortened (lines 150-152). The bootstrap's new son (lines 134-135) goes through the same lookup-or-create step as lines 157-161.
  - `n.Valid(m)` says that node `n`, and the nodes it exclusively owns (`Repr`), spell the value `m`.
  - Each method is proved to leave the node spelling the value the functions of the value layer compute.
  - `search` and `startsWith` are proved to answer `Found` and `Readable`.
  - `Trie` states the new value its root spells after insert and remove. It also restates the effect as changes to the set of stored words (`Contents`) and the set of visible prefixes (`Visible`).
  - The label-matching loop, the fused-label loop and the map copy of `remove` are methods with loop invariants in module `Labels`.

`remove` is modelled as written, including three behaviours the natural specification would not have (`TrieQuirks.dfy`):
- A root leaf (a root with no sons) has no parent, so removing its word only clears its flag (line 199), and its label stays visible to `startsWith`.
- A leaf detach (line 200) leaves its parent uncompacted.
- The descent of line 218 is taken even when the match stopped inside the label. Removing an absent word can therefore delete another word.

The source's own comments promise more than the code does:
- The class comment (lines 8-10) and the comment on `content` (lines 78-79) say that the trie minimises its nodes by merging characters into one node. A leaf detach does not restore that (`TrieQuirks.DetachLeavesSingleSon`).
- The doc comments of `startsWith` (lines 56-62, 268-273 and 282-289) say it answers whether some stored word starts with the prefix. The root label left behind by a removal stays visible with no word stored (`TrieQuirks.RootLabelOutlivesItsWord`).

One would also expect removing an absent word to change nothing, but it can delete another word (`TrieQuirks.AbsentRemovalDeletesAnother`).

The model follows the code: `Trie.Visible` is the set of prefixes `startsWith` accepts.

`TrieScenario.dfy` replays the hand-written session of `test/trie/TrieTest.java` on values and states the answer of every search and prefix check in it.

## Model

| member | source | states |
|---|---|---|
| Labels.CommonPrefixLength | src/trie/Trie.java:139-143 | The common prefix length is at most both lengths. Both strings agree up to it, and when both go on, the next characters differ. |
| Labels.CommonPrefixLengthUnique | src/trie/Trie.java:139-143 | Those three facts determine the common prefix length: any length with them is it. |
| Labels.MatchLength | src/trie/Trie.java:139-143 | The matching loop (also at lines 192-196, 251-255 and 292-296) stops within the label and the word. The label's first `i` characters equal the word's from `idx`. When both go on, the next characters differ, so `i` is their common prefix length. |
| Labels.FuseLabel | src/trie/Trie.java:204-207 | The fused label is the node's label, the key, then the son's label, of length `|content| + 1 + |son.content|`. |
| Labels.PutAll | src/trie/Trie.java:210-212 | Copying the son's entries gives a map with the keys of both. The son's entries win, and every other entry is kept. |
| TrieSemantics.Removed | src/trie/Trie.java:191-224 | A node asks to leave its parent's map only when it has a parent, no sons and is terminal. |
| TrieSemantics.Descended | src/trie/Trie.java:218-222 | The node that descends is never detached itself; only a son can be. |
| TrieProperties.EmptyNode | src/trie/Trie.java:99-103 | A new node stores no word and spells only the empty string. |
| TrieProperties.EmptyWords | src/trie/Trie.java:99-103 | A new node stores nothing and shows only the empty prefix. |
| TrieProperties.StoresStep | src/trie/Trie.java:250-266 | Membership, read one level at a time, is decided as search decides it: mismatch inside the label, the flag at the end of the word, or the son keyed by the next character. |
| TrieProperties.SpellsStep | src/trie/Trie.java:291-305 | Visibility is decided as startsWith decides it: an exhausted prefix is accepted, and a prefix past the whole label goes to the son. |
| TrieProperties.FoundStored | src/trie/Trie.java:250-266 | The walk of search accepts exactly the stored words. |
| TrieProperties.FoundWords | src/trie/Trie.java:250-266 | search answers true exactly on the words in `Words`. |
| TrieProperties.ReadableSpelled | src/trie/Trie.java:291-305 | The walk of startsWith accepts exactly the spelled prefixes. |
| TrieProperties.ReadableReach | src/trie/Trie.java:291-305 | startsWith answers true exactly on the prefixes in `Reach`. |
| TrieProperties.BootstrapOnce | src/trie/Trie.java:129-138 | The bootstrap case never applies twice. The general case after it inserts as the whole of insert does, which covers the second descent into the new son. |
| TrieProperties.BootstrappedStores | src/trie/Trie.java:129-138 | The bootstrap adds exactly the word, and only when it applies. |
| TrieProperties.BootstrappedSpells | src/trie/Trie.java:129-138 | The bootstrap makes visible exactly the prefixes of the word, and only when it applies. |
| TrieProperties.SplitStores | src/trie/Trie.java:144-154 | The split keeps every stored word. It adds the word ending at the split point exactly when the split node is made terminal. |
| TrieProperties.SplitSpells | src/trie/Trie.java:144-154 | The split changes no visible prefix. |
| TrieProperties.IntoSonStores | src/trie/Trie.java:155-163 | Inserting the rest below a key adds exactly label + key + rest. |
| TrieProperties.IntoSonSpells | src/trie/Trie.java:155-163 | Inserting the rest below a key adds exactly the prefixes of label + key + rest. |
| TrieProperties.MarkedStores | src/trie/Trie.java:164-166 | Setting the flag adds exactly the node's label. |
| TrieProperties.FlagSpells | src/trie/Trie.java:164-166 | The flag does not change what is visible. |
| TrieProperties.InsertedStores | src/trie/Trie.java:128-167 | After insertion a word is stored iff it was stored before or is the inserted word. |
| TrieProperties.InsertedSpells | src/trie/Trie.java:128-167 | After insertion a prefix is visible iff it was visible before or is a prefix of the inserted word. |
| TrieProperties.InsertWords | src/trie/Trie.java:128-167 | Insertion adds exactly one word to `Words`. |
| TrieProperties.InsertReach | src/trie/Trie.java:128-167 | Insertion adds exactly the prefixes of the word to `Reach`. |
| TrieProperties.InsertTwice | src/trie/Trie.java:128-167 | Inserting a word twice stores and shows what inserting it once does. |
| TrieProperties.FusedAt | src/trie/Trie.java:201-213 | With sole key `k`, the fused node has label + `k` + the son's label, and the son's sons and flag. |
| TrieProperties.FusedStores | src/trie/Trie.java:201-213 | Fusion loses exactly the node's own word. |
| TrieProperties.FusedSpells | src/trie/Trie.java:201-213 | Fusion changes no visible prefix. |
| TrieProperties.SplitUndoesFused | src/trie/Trie.java:201-213 | Splitting a fused node at the old label's end, with the old flag, gives back the node. |
| TrieProperties.FusedUndoesSplit | src/trie/Trie.java:144-154 | A split node has one son, and fusing it gives back the node. |
| TrieProperties.ClearedStores | src/trie/Trie.java:214-216 | Clearing the flag loses exactly the node's own word. |
| TrieProperties.RemovedHere | src/trie/Trie.java:197-217 | At a terminal node where the word ends, each of detach, fusion and flag clear leaves exactly the other words. |
| TrieProperties.SonReplacedStores | src/trie/Trie.java:218-222 | Replacing the son under a key changes only the words through that key, which become those of the new son. |
| TrieProperties.SonDroppedStores | src/trie/Trie.java:199-200 | Dropping the son under a key loses exactly the words through that key. |
| TrieProperties.RemovedShrinks | src/trie/Trie.java:191-224 | For any word, stored or not, removal makes no word stored and no prefix visible that was not before. |
| TrieProperties.RemovedStored | src/trie/Trie.java:191-224 | Removal of a stored word leaves exactly the other stored words. |
| TrieProperties.RemoveShrinks | src/trie/Trie.java:191-224 | From the root, `Words` and `Reach` only shrink. |
| TrieProperties.RemoveWords | src/trie/Trie.java:191-224 | From the root, removing a stored word deletes exactly that word from `Words`. |
| TrieProperties.InsertThenRemove | src/trie/Trie.java:191-224 | Inserting an absent word and removing it again restores `Words`. |
| TrieProperties.StoredPrefixSpelled | src/trie/Trie.java:291-305 | Every prefix of a stored word is spelled. |
| TrieProperties.EmptySpelled | src/trie/Trie.java:297-298 | The empty prefix is spelled by every node. |
| TrieProperties.WordsReached | src/trie/Trie.java:291-305 | Every prefix of a stored word is accepted by startsWith. |
| TrieQuirks.AbcTree | src/trie/Trie.java:128-167 | Inserting "abc" then "abcxy" builds a node "abc" with one terminal son "y" under 'x'. |
| TrieQuirks.AbcAfterAbsentRemoval | src/trie/Trie.java:218-222 | Removing "abxy" from that tree detaches the son under 'x'. |
| TrieQuirks.AbsentRemovalDeletesAnother | src/trie/Trie.java:218-222 | With {"abc", "abcxy"} stored, removing the absent "abxy" leaves only {"abc"}. |
| TrieQuirks.RootLabelOutlivesItsWord | src/trie/Trie.java:199 | Removing the only word of a one-node trie stores nothing, yet every prefix of the word stays visible. |
| TrieQuirks.DetachLeavesSingleSon | src/trie/Trie.java:199-200 | With "ax" and "ay" stored, removing "ax" leaves a non-terminal node with a single son. |
| TrieScenario.Built | test/trie/TrieTest.java:47-63 | The eight insertions store {"", "hola", "hi", "bu", "bubu", "ho"} and show the prefixes of "hola", "hi" and "bubu". |
| TrieScenario.Session | test/trie/TrieTest.java:64-96 | The answers of all 31 queries, as the session prints them. Line 82 checks the empty prefix with search. |
| TrieImpl.TrieNode.constructor | src/trie/Trie.java:99-103 | A new node has an empty label, no sons, is not terminal, and is fresh. |
| TrieImpl.TrieNode.Insert | src/trie/Trie.java:128-167 | The node comes to spell `Inserted` of the value it spelled. Every node it gains is fresh. |
| TrieImpl.TrieNode.Bootstrap | src/trie/Trie.java:129-138 | The node comes to spell `Bootstrapped` of its value. |
| TrieImpl.TrieNode.Relabel | src/trie/Trie.java:130-132 | The node takes the rest of the word as a terminal label and keeps its sons. |
| TrieImpl.TrieNode.InsertMatched | src/trie/Trie.java:139-166 | After the bootstrap, the match, split and descent leave the node spelling `Inserted`. |
| TrieImpl.TrieNode.InsertRest | src/trie/Trie.java:155-166 | The rest of the word goes below the next key, or the node becomes terminal. |
| TrieImpl.TrieNode.SplitAt | src/trie/Trie.java:144-154 | The node comes to spell `Split` of its value; the one new node is fresh. |
| TrieImpl.TrieNode.Tail | src/trie/Trie.java:146-149 | The fresh son holds the rest of the label and the node's sons, flag and footprint. |
| TrieImpl.TrieNode.InsertIntoSon | src/trie/Trie.java:155-163 | The son under the next key, created if missing, receives the rest of the word. |
| TrieImpl.TrieNode.IntoSon | src/trie/Trie.java:162 | Only the son under the key changes, to `Inserted` of its value. |
| TrieImpl.TrieNode.Remove | src/trie/Trie.java:191-224 | The node's footprint is kept. The node either leaves its parent's map under its key, changing nothing else, or spells the value `Removed` keeps, with the parent's map unchanged. |
| TrieImpl.TrieNode.RemoveHere | src/trie/Trie.java:197-217 | At a terminal node, there are three outcomes. A leaf with a parent is removed from the parent's map. A node with one son spells `Fused`. Any other node clears its flag. |
| TrieImpl.TrieNode.RemoveBelow | src/trie/Trie.java:218-222 | The son under the next key removes the rest, and is dropped from the map or replaced by what it keeps. Without such a son nothing changes. |
| TrieImpl.TrieNode.Fuse | src/trie/Trie.java:201-213 | The node comes to spell `Fused` of its value, within the same footprint. |
| TrieImpl.TrieNode.Search | src/trie/Trie.java:250-266 | A node is returned iff `Found` holds, and it is a terminal node the trie owns. |
| TrieImpl.TrieNode.SearchBelow | src/trie/Trie.java:260-262 | A node is returned iff the son under the next character exists and finds the rest. |
| TrieImpl.TrieNode.StartsWith | src/trie/Trie.java:291-305 | The answer is `Readable` of the rest of the prefix. |
| TrieImpl.TrieNode.StartsWithBelow | src/trie/Trie.java:299-301 | The answer is whether the son under the next character exists and reads the rest. |
| TrieImpl.FoundAfterMatch | src/trie/Trie.java:256-265 | Once the label is matched, `Found` is false on a mismatch inside the label, is the flag at the end of the word, and is otherwise decided by the son. |
| TrieImpl.ReadableAfterMatch | src/trie/Trie.java:297-304 | Once the label is matched, `Readable` is true at the end of the prefix. Past the whole label it is decided by the son; otherwise it is false. |
| TrieImpl.InsertedAfterMatch | src/trie/Trie.java:143-166 | After the bootstrap, `Inserted` is split-then-descend or split-then-mark, at the matched length. |
| TrieImpl.WithSon | src/trie/Trie.java:157-161 | After the lookup the key has a son: the old one, or a new empty node. |
| TrieImpl.IntoSonAttached | src/trie/Trie.java:157-162 | Inserting into the looked-up son is inserting below the key. |
| TrieImpl.RemovedAtEnd | src/trie/Trie.java:197-217 | A word that ends during the match is the label when the whole label matched. Otherwise, or when the node is not terminal, removal keeps the node unchanged. |
| TrieImpl.RemovedDescends | src/trie/Trie.java:218-222 | A word with characters left is removed by the son under the next one, if any. Its answer is applied to the map. |
| TrieImpl.Relabeled | src/trie/Trie.java:130-132 | A node whose label and flag change, with sons and footprint kept, spells the new label and flag. |
| TrieImpl.SplitValid | src/trie/Trie.java:144-154 | After the split's assignments the node spells `Split` of its value. |
| TrieImpl.SonAdded | src/trie/Trie.java:158-161 | A fresh empty son under a new key leaves the node spelling its value with an empty son there. |
| TrieImpl.SonReplaced | src/trie/Trie.java:162 | A son that changed in place leaves the node spelling its value with that son's new value. |
| TrieImpl.SonDropped | src/trie/Trie.java:200 | Removing a key from the map leaves the node spelling its value without that son. |
| TrieImpl.FusedValid | src/trie/Trie.java:208-213 | After the fusion's assignments the node spells `Fused` of its value. |
| TrieImpl.Trie.constructor | src/trie/Trie.java:24-26 | The root spells the empty node. A new trie stores no word and shows only the empty prefix. |
| TrieImpl.Trie.Insert | src/trie/Trie.java:33-35 | The trie comes to spell `Inserted` of its old value. Exactly the word is added to `Contents`, and exactly its prefixes to `Visible`. |
| TrieImpl.Trie.Remove | src/trie/Trie.java:42-44 | The trie comes to spell `RemovedFromRoot`. `Contents` and `Visible` only shrink, and a stored word is the one word that goes. |
| TrieImpl.Trie.Search | src/trie/Trie.java:52-54 | The answer is true iff the word is in `Contents`. |
| TrieImpl.Trie.StartsWith | src/trie/Trie.java:64-66 | The answer is true iff the prefix is in `Visible`. |

## Left out

- The null guards of the public node methods (lines 112, 176, 234 and 276) are not modelled, because a `seq<char>` is never null. The public `TrieNode` methods (lines 111-115, 175-179, 233-238 and 275-280) are folded into the `Trie` methods, which call the node from index 0 with no parent.
- A Java `char` is a UTF-16 code unit, and a Dafny `char` is a Unicode scalar value, which is never a surrogate. A Java `char` is modelled as a Dafny `char`, so words with characters outside the Basic Multilingual Plane are not modelled unit by unit. Java may split a label between the two surrogates of such a character; the model has no such position. No proof depends on the alphabet.
- The `insertionEndNode` parameter is fixed to `true`, the only value line 113 passes.
- `HashMap` is modelled as an immutable `map<char, TrieNode>` that the methods reassign; hashing and iteration order are not modelled. The key picked by `toArray` at line 202 is a choice among keys, and there is exactly one.
- Labels are `seq<char>` rather than `char[]`, because installed label arrays are only ever replaced, never written. The aliasing of `content = word` at line 131 is not modelled. The fused label at lines 204-207 is built in a fresh array.
- The final `else` of search (lines 263-264) cannot be reached and has no branch in the model.
- The parent's map edit of line 200 is modelled by write access to the parent's `sons` field only.
- The heap methods take the value their node spells as a ghost argument; it has no run-time effect.
- `idx` and `i` are Java `int`s; the model uses unbounded `nat`, so words longer than 2^31 - 1 characters are not modelled.
- TrieImpl.TrieNode.Search states that the returned node is a terminal node the trie owns, not which node it is.
- The rest of `test/trie/TrieTest.java` is not modelled: the file I/O, console output, command parsing and floating-point summaries. The hand-written session is replayed on the values the heap methods are proved to compute, not by chaining the heap calls.
