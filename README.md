# A tiny key-value store on a skip list, in Dafny

The store keeps string keys and string values in a skip list. Level 0 is a singly
linked list of nodes in increasing key order, starting at a head node. A node drawn
with level `k` is also threaded into levels 1 to `k`, and each higher level skips
more nodes. The list supports:

- insertion, which never overwrites: an existing key is reported with result 1;
- deletion;
- search;
- size;
- a printout of every level;
- a dump of the base level as `key:value` lines;
- loading those lines back.

The model follows `skiplist.hpp` and `Node.hpp` with `K = V = std::string`, the
instantiation the repository's driver uses.

- `Nodes.Node` is a class. Its successor slots are an `array<Node?>` of length
  `level + 1`, updated in place.
- `SkipLists.SkipList` is a class with the head node, the maximum level, the
  current level and the element count, as the C++ object has. It carries two ghost
  fields:
  - `Elems`: the nodes of level 0, in order;
  - `Repr`: the object and the forward arrays.
- The class invariant `Valid()` says all of the following:
  - level 0 is sorted strictly by key;
  - level `l` threads exactly the nodes of level at least `l`, in order, and ends in
    null (`Chain`);
  - no node reaches above the current level;
  - the current level is in use unless it is 0;
  - the count equals the number of nodes.
- `Contents()` is the key-to-value mapping the list stands for.
- Insertion and deletion are proved to keep `Valid()`. They are also proved to put
  the node in, or take it out, at the key's sorted position on every level it
  reaches, and to change `Contents()` as `InsertIfAbsent` and `- {key}` say.
- Search is proved to answer exactly whether the key is in `Contents()`, and size
  to return the number of keys.
- Dumping yields the file text: one `key:value` record and a line break per pair, in
  key order. Loading that text into an empty list gives back the mapping when three
  conditions hold: no key holds `:`, no key or value holds a line break, and no key
  or value is empty. A line break inside a value splits its record in two on
  reading; `LineCodec.LineBreakSplitsRecord` shows this.

Modules:

| module | file | contents |
|---|---|---|
| `KeyOrder` | keyorder.dfy | the `std::string` `operator<` |
| `KeyValueMap` | contents.dfy | the mapping and its updates |
| `LineCodec` | codec.dfy | the record format, the file text and how `getline` reads it, and the load loop on mappings |
| `Nodes` | node.dfy | `Node` |
| `Levels` | levels.dfy | level lists and search positions on the ghost node sequence |
| `SkipLists` | skiplist.dfy | `skiplist` |

## Model

| member | source | states |
|---|---|---|
| `Nodes.Node.constructor` | Node.hpp:38-46 | key, value and level are stored; `forward` is a fresh array of `level + 1` slots, all null |
| `Nodes.Node.GetKey` | Node.hpp:53-56 | returns the key the node was built with |
| `Nodes.Node.GetValue` | Node.hpp:58-61 | returns the value currently stored |
| `Nodes.Node.SetValue` | Node.hpp:63-66 | the value becomes `v`; the successor slots are untouched |
| `KeyOrder.LessIrreflexive` | skiplist.hpp:99 | no key is below itself under the `std::string` `<` the search uses |
| `KeyOrder.LessTransitive` | skiplist.hpp:99 | that `<` is transitive |
| `KeyOrder.LessTotal` | skiplist.hpp:99 | two different keys are ordered one way or the other, so the search stops at a unique place |
| `SkipLists.SkipList.constructor` | skiplist.hpp:316-325 | an empty, valid list with current level 0, count 0, the given maximum level and the empty mapping |
| `SkipLists.RandomLevel` | skiplist.hpp:342-349 | the drawn level is at most the maximum; it is at least 1 when the maximum is; whenever one plus the number of leading heads is below the maximum, the level is exactly that, and otherwise it is the maximum |
| `SkipLists.LeadingHeads` | skiplist.hpp:344-346 | counts the non-zero draws before the first zero: those flips are all heads, and the next one, if any, is tails |
| `SkipLists.SkipList.GetRandomLevel` | skiplist.hpp:342-349 | the loop returns exactly `RandomLevel` of the flips |
| `SkipLists.SkipList.StepAlong` | skiplist.hpp:99-101 | stepping along level `i` while the next key is below `key` stops at `Pred(i, key)`, the last node of the level below `key` |
| `SkipLists.SkipList.FindStep` | skiplist.hpp:98-103 | one round of the search loop: stops at `Pred(i, key)` and records it in `update[i]`, leaving the other slots alone |
| `SkipLists.SkipList.FindUpdate` | skiplist.hpp:94-103 | `update[l]` is `Pred(l, key)` on every level in use |
| `SkipLists.SkipList.Descend` | skiplist.hpp:292-299 | the descent of `search_element` ends at `Pred(0, key)` |
| `SkipLists.SkipList.FoundAfterPred` | skiplist.hpp:106-109 | the successor of `Pred(0, key)` carries `key` exactly when the key is stored, and is then the node at the key's position |
| `SkipLists.SkipList.ContentsKeys` | skiplist.hpp:290-312 | a key is in the mapping exactly when some node carries it |
| `SkipLists.SkipList.Search` | skiplist.hpp:290-312 | returns true exactly when the key is in `Contents()` |
| `SkipLists.SkipList.RaiseLevel` | skiplist.hpp:123-128 | a drawn level above the current one becomes the current level, and `update` holds the head on the new levels; list and mapping unchanged |
| `SkipLists.SkipList.LinkLevel` | skiplist.hpp:135-136 | one level: after the two pointer writes, level `i` threads its old list with the new node put in after `u`; all other slots keep their values |
| `SkipLists.SkipList.SpliceStep` | skiplist.hpp:134-137 | one round of the splice loop: level `i` gains the node, and the levels above are still intact |
| `SkipLists.SkipList.Splice` | skiplist.hpp:134-137 | after the loop every level up to the node's level threads its old list with the node at the key's position; higher levels are unchanged |
| `SkipLists.SkipList.InsertPlan` | skiplist.hpp:131-139 | the new node put in at the key's position keeps level 0 sorted and the forward arrays apart, and each level list becomes the old one with the node at its search position |
| `SkipLists.SkipList.InsertShape` | skiplist.hpp:134-137 | on sequences: inserting the node at `Before(E, key)` inserts it at the search position of every level it reaches, and leaves higher levels alone |
| `SkipLists.SkipList.InsertSeparate` | Node.hpp:43 | a node with a freshly allocated forward array shares it with no other node |
| `SkipLists.SkipList.Link` | skiplist.hpp:130-139 | the fresh node ends up in `Elems` exactly at the key's sorted position, the invariant holds and the count goes up by one |
| `SkipLists.SkipList.LinkNew` | skiplist.hpp:131-139 | a fresh node with the key, value and drawn level is linked in, and the mapping gains exactly `key := value` |
| `SkipLists.SkipList.Grow` | skiplist.hpp:123-139 | raise the level if need be, then link a fresh node in; the current level becomes the larger of the old one and the drawn one |
| `SkipLists.SkipList.AddNode` | skiplist.hpp:117-139 | the node's level is `RandomLevel` of the flips; the new state is as for `Grow` |
| `SkipLists.SkipList.InsertedContents` | skiplist.hpp:131-139 | putting a node with an absent key at its position adds exactly its entry to the mapping |
| `SkipLists.SkipList.Insert` | skiplist.hpp:88-143 | returns 1 exactly when the key was present, and then changes nothing; otherwise returns 0, links a fresh node at the key's position with `RandomLevel(coins)` as its level, raises the current level to it and counts one more. Either way `Contents()` becomes `InsertIfAbsent(old Contents(), key, value)` and `Valid()` holds |
| `SkipLists.SkipList.UnlinkLevel` | skiplist.hpp:252 | one level: after the write, level `i` threads its old list without `x`; all other slots keep their values |
| `SkipLists.SkipList.UnlinkStep` | skiplist.hpp:245-253 | one round of the unlink loop: level `i` loses `x`, and the levels above are still intact |
| `SkipLists.SkipList.Unlink` | skiplist.hpp:245-253 | the loop, with its `break` at the first level whose predecessor does not point to `x`, leaves every level threading its old list without `x` |
| `SkipLists.SkipList.RemovePlan` | skiplist.hpp:241-253 | taking the found node out keeps level 0 sorted and the arrays apart; it stands at the search position of every level it reaches and on no level above |
| `SkipLists.SkipList.RemoveLevels` | skiplist.hpp:245-253 | the same on sequences, for the first `n` levels |
| `SkipLists.SkipList.RemoveShape` | skiplist.hpp:245-253 | on sequences: taking out the node with `k` removes it from the search position of every level it reaches, and `k` from the keys |
| `SkipLists.SkipList.Remove` | skiplist.hpp:241-261 | `x` leaves `Elems` at its position, its key is gone and the count goes down by one |
| `SkipLists.SkipList.HeadAboveNull` | skiplist.hpp:123-128 | in a valid list the head points to nothing on every level above the current one, which is why the new levels of an insertion start from the head |
| `SkipLists.SkipList.EmptyLevelAbove` | skiplist.hpp:256 | when a level is empty, no node reaches it |
| `SkipLists.SkipList.Shrink` | skiplist.hpp:256-258 | the current level only goes down, every level given up is empty, and `Valid()` is restored: the new current level is in use or is 0 |
| `SkipLists.SkipList.DeleteNode` | skiplist.hpp:241-262 | unlinking, shrinking and counting down remove exactly the key from the mapping and keep `Valid()` |
| `SkipLists.SkipList.Delete` | skiplist.hpp:227-268 | a stored key is taken out at its position, empty top levels are given up and the count goes down; an absent key changes nothing (lines 263-265). Either way `Contents()` becomes `old Contents() - {key}` |
| `SkipLists.SkipList.Unmoved` | skiplist.hpp:94-103 | a search that writes only its own `update` array keeps the invariant and the mapping |
| `SkipLists.SkipList.Size` | skiplist.hpp:200-202 | the count equals both the number of nodes and the number of keys in the mapping |
| `SkipLists.SkipList.WalkLevel` | skiplist.hpp:150-155 | the walk along level `i` yields `PairsOf` of exactly the nodes on that level: the key and value of each, in order. `dump_file` makes the same walk on level 0 (lines 165-171) |
| `SkipLists.SkipList.Dump` | skiplist.hpp:162-176 | the text is the `key:value` record and a line break of every node, in key order; reading it back and loading it into an empty list gives `Contents()` back when every pair is `Dumpable`: no `:` in the key, no line break in key or value, neither empty |
| `SkipLists.SkipList.ShowLevels` | skiplist.hpp:149-157 | for each level from 0 to the current one, walked by `WalkLevel`, the records of exactly the nodes on that level, in order |
| `SkipLists.SkipList.Display` | skiplist.hpp:147-158 | the same for a valid list |
| `SkipLists.SkipList.Load` | skiplist.hpp:180-196 | `Contents()` becomes `LineCodec.Load` of the old mapping over the lines `getline` reads from the text, with the running key and value starting empty; `Valid()` holds |
| `SkipLists.SkipList.LoadLines` | skiplist.hpp:186-193 | the same over a sequence of lines |
| `LineCodec.Find` | skiplist.hpp:218 | the first position of the character, or -1 (`npos`) exactly when it is absent |
| `LineCodec.IsValidString` | skiplist.hpp:214-222 | true exactly when the line is non-empty and holds `:` |
| `LineCodec.GetKeyValue` | skiplist.hpp:205-211 | an invalid line leaves key and value as they were; a valid line splits at its first `:` into a key without `:` and the rest |
| `LineCodec.Format` | skiplist.hpp:168 | the record is the key, then `:`, then the value; when the key has no `:`, the first `:` of the record ends the key |
| `LineCodec.DumpLines` | skiplist.hpp:167-168 | one `key:value` record per pair, in order |
| `LineCodec.FileText` | skiplist.hpp:167-168 | every record is followed by a line break, in order: the text is at least as long as the number of records, and a text with a record ends in a line break |
| `LineCodec.ReadLines` | skiplist.hpp:186 | the lines `getline` reads up to the end of the text, none of which holds a line break |
| `LineCodec.ReadThenWrite` | skiplist.hpp:186 | writing back the lines read from any text gives that text, with a line break added when its last line had none: a final piece without a line break is still read as a line |
| `LineCodec.ReadWrittenLines` | skiplist.hpp:168 | reading back a text written as lines, each followed by a line break (`FileText`), gives those lines when none holds a line break |
| `LineCodec.Load` | skiplist.hpp:186-193 | the line loop: a key already present keeps its value, and every key added has a non-empty key and a non-empty value |
| `LineCodec.ValidOnly` | skiplist.hpp:214-222 | the lines `is_valid_string` accepts, in order: no more lines than given, each of them valid and one of the given lines, and every valid given line among them |
| `LineCodec.LoadSkipsInvalid` | skiplist.hpp:186-191 | empty lines and lines without `:` are ignored: loading all lines gives the same mapping as loading only the valid ones, whenever the running pair has an empty half or a key already present (as at the start, where both are empty) |
| `LineCodec.FindAfterPrefix` | skiplist.hpp:209 | in `k + ":" + v` with no `:` in `k`, the first `:` is at `|k|` |
| `LineCodec.ParseFormat` | skiplist.hpp:205-211 | parsing a written record gives back its pair when the key has no `:` |
| `LineCodec.LoadDumpRoundTrip` | skiplist.hpp:162-196 | loading the records of `ps` into `m` gives `MapOf(ps) + m`: the pairs whose keys `m` lacks are added |
| `LineCodec.DumpThenLoadIntoEmpty` | skiplist.hpp:162-196 | writing the file of `ps` and loading it into an empty mapping reproduces `MapOf(ps)` when no key holds `:`, nothing holds a line break and nothing is empty |
| `LineCodec.LineBreakSplitsRecord` | skiplist.hpp:168 | a value `v`, line break, `k2:w` under key `k` is read back as the two records `k:v` and `k2:w`, and loads as `k` to `v` and `k2` to `w` |
| `LineCodec.LoadTwoRecords` | skiplist.hpp:186-193 | loading the records `k:v` and `k2:w` into an empty mapping gives `k` to `v` and `k2` to `w`, the first winning on equal keys |
| `KeyValueMap.InsertIfAbsent` | skiplist.hpp:109-113 | adds the key; a present key keeps its value, an absent key gets `v`, and other keys are unchanged |
| `KeyValueMap.MapOf` | skiplist.hpp:165-171 | its keys are exactly the keys of the pairs |
| `KeyValueMap.MapOfInsert` | skiplist.hpp:131-139 | a pair with a fresh key put anywhere in the list adds exactly its entry |
| `KeyValueMap.MapOfSize` | skiplist.hpp:200-202 | with distinct keys, the mapping has as many keys as there are pairs |
| `Levels.PairsOf` | skiplist.hpp:168 | one `(key, value)` per node, in order |
| `Levels.Before` | skiplist.hpp:99 | the search position: every earlier node is below the key, and the node there, if any, is not |
| `Levels.Level` | Node.hpp:30 | level `l` lists at most the nodes of level 0 |
| `Levels.LevelNested` | skiplist.hpp:131-137 | each level is a subsequence of the one below: filtering level `l` for level `l + 1` gives level `l + 1` |
| `Levels.LevelZero` | skiplist.hpp:165-171 | level 0 lists every node |
| `Levels.LevelMembers` | skiplist.hpp:134 | a node is on level `l` exactly when its level is at least `l` |
| `Levels.LevelSorted` | skiplist.hpp:99 | every level of a sorted list is sorted |
| `Levels.SplitPoint` | skiplist.hpp:98-103 | the search position on level `l` counts the level-`l` nodes before the base search position |
| `Levels.PresentAtSearchPosition` | skiplist.hpp:106-109 | a key is stored exactly when the node at its search position carries it |
| `Levels.SortedInsert` | skiplist.hpp:131-137 | putting a node with an absent key at its search position keeps the list sorted |
| `Levels.BelowTheRest` | skiplist.hpp:131-137 | an absent key is below every node from its search position on |
| `Levels.SortedRemove` | skiplist.hpp:245-253 | taking a node out keeps the list sorted |
| `SkipLists.SortedDistinct` | skiplist.hpp:109-113 | a sorted list has no duplicate keys |
| `SkipLists.PairsInsert` | skiplist.hpp:131-139 | inserting a node with an absent key adds exactly its entry to the mapping |
| `SkipLists.PairsRemove` | skiplist.hpp:245-261 | removing a node removes exactly its key from the mapping |

## Left out

- The global mutex (skiplist.hpp:16, taken in insertion and deletion): concurrency is
  not modelled. Every operation is a single sequential call.
- Console output in `display_list`, `dump_file`, `load_file` and `delete_element`,
  and the messages they print. `Display` returns the `key:value` records of each
  level, without the "Level i:" prefix and the `;` separators. `Dump` returns the
  lines written to the file.
- The store file `store/dumpFile`: `Dump` returns the text to be written and `Load`
  takes the text read. Opening, flushing and closing the file are not modelled.
- `rand()`: `GetRandomLevel` and `Insert` take the successive `rand() % 2` outcomes
  as a sequence of booleans. `Load` takes one sequence per line. When the sequence
  runs out, the draw stops as if the next outcome were 0.
- `create_node` (skiplist.hpp:57-61) is the `Node` constructor call itself.
- The destructors of `skiplist` and `Node` (skiplist.hpp:327-339,
  Node.hpp:48-51): memory is not freed in Dafny. The skiplist destructor
  frees only the head anyway.
- The default `Node()` constructor (Node.hpp:16) is never called by the list.
- `Insert`: `int` overflow of `element_count` and of the level is not modelled.
  The count is a `nat`.
- `SkipLists.SkipList.constructor`: the maximum level is a `nat`, so negative maxima
  are excluded; so are negative levels in `Nodes.Node.constructor`, whose level is a
  `nat` too. The C++ takes an `int` in both; the list itself only passes the maximum
  level and drawn levels, neither of them negative.
- `Delete`: the count goes down before the top levels are given up, not after.
  Nothing can observe the difference.
- The key type is fixed to `std::string`, ordered by the lexicographic
  `operator<` (`KeyOrder.Less`). The templates over other key and value types are
  not modelled.
- Keys and values are `seq<char>`, sequences of Unicode scalar values, while
  `std::string` holds bytes. Byte strings that are not valid UTF-8 are outside the
  model. On UTF-8 text, the `<` of `KeyOrder.Less` and the searches for `:` and the
  line break agree with the same operations on the bytes.
- The header node's key and value, default-constructed in C++, are empty strings.
- main.cpp and the stress test are not part of this model.
