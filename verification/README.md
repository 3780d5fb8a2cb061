# JES in Dafny

JES keeps a JSON document in a fixed pool of nodes that are linked by index: parent, sibling, first
child, last child. It parses, edits, searches and prints that pool without recursion and without a
stack of its own. This project models the pool, the key index, the parser, the two serializers, the
tokenizer and the editing calls, and proves what holds between them.

A node pool is an array of cells (`Tree.Context`), and its meaning is a `Forest`: an ordered tree in
first-child / next-sibling form whose nodes carry the slot they live in. `Pool.Rep` ties the two
together, `Tree.TreeRep` adds the list heads, the counter and the free list, `KeyIndex.IndexRep` adds the
hash table, `Shapes.Nested` says how nodes nest in JSON, and `Shapes.Shaped` adds that names are distinct. A
context is *sane* (`Context.Sane()`) when its cells hold a nested tree, its slots are conserved and its table
lists keys of the tree and nothing else; every operation keeps that, whatever failed before. It is *valid*
(`Context.Valid()`) when in addition names are distinct and the table lists every key; every operation keeps
that until a key finds the table full.

## Main results

1. **Round trip.** The printed text of a complete tree, compact or pretty, is accepted character by
   character and rebuilds the tree; rendering again gives the same bytes (`RoundTrip.PrintThenParse`,
   `LoadRender.Reload`, `LoadRender.RenderLoadRender`).
2. **Grammar.** A text is accepted with matching brackets if and only if its tokens, clipped to the 16-bit
   length, are a sentence of the JSON grammar without repeated names that fits the pool, and the tree left
   behind is the parse (`Grammar.GrammarTheorem`, `Texts.TextTheorem`, `LoadRender.LoadText`). Without the
   condition on brackets this is false, with `[1}` and `{"a":]` as witnesses (`Grammar.MismatchAccepted`).
3. **RFC 8259.** A JSON text, whatever its white space, is accepted if and only if its surrogates are paired,
   its clipped names are distinct and there are enough nodes, and the tree is its value
   (`RfcTexts.JsonAcceptedAsText`); an accepted text is a JSON text if and only if its brackets match and it
   makes no use of what the tokenizer takes beyond the standard (`StrictTexts.AcceptedJson`).
4. **Refused texts.** Of every text it is said with which status `jes_load` ends and what it leaves in the pool,
   in terms of the values whose sentences the tokens begin: "unexpected end" where a value is not finished, but
   "unexpected token" directly behind a name; "unexpected token" at a token with which no value goes on;
   "duplicate key" and "out of memory" at a name or node that has no place; and the fault of a token that cannot
   be read (`RefusedTexts.TextAnswered`, `RefusedTexts.EveryText`, `RefusedTexts.LoadAnswered`, `Faults.WordRefused`).
   What is left is the part of the value that was read. The one exception, closers of the wrong kind that the
   parser takes, is stated exactly (`Refusals.WrongToken`).
5. **Every reachable state.** After any sequence of loads, edits, deletions and lookups, also behind calls
   that fail, slots are conserved, nodes nest as JSON allows, and no table entry leads to a node that is
   gone (`Runs.ApplyKept`, `Runs.RunKept`, `Runs.Execute`). Names stay distinct until a key finds the table
   full; behind that, exactly as long as no key is put beside one of its name that the table does not list
   (`FullIndex.NamesStayDistinct`, with a run in `FullIndex.NameTwice`).
6. **Search modes.** The same calls give the same trees and the same answers in hashed and in linear mode,
   up to the first "out of memory" (`Runs.SameAnswers`, `Runs.BothModes`). This rests on an arithmetic fact
   about FNV-1a (`Fnv.HashDeterminesParent`), because a table entry does not record its parent.
7. **Serializer.** On every tree the stackless machine emits what a fold over the document order emits, with
   two upward walks that agree and an indentation that never underflows, and the measuring pass predicts the
   writing pass to the byte (`Serializer.StateMachine`, `Serializer.Render`). A pass ends without an error if
   and only if no key without a value is last or followed by a key (`Passes.PassEnds`), and then its text is
   that of a recursive printer if and only if every key has a value (`Passes.PassPrints`).
8. **Deletion and insertion.** The iterative deletion frees exactly the branch and cuts it out of one
   sequence of children; an insertion splices one sequence and changes no other node (`Tree.Context.DeleteNode`,
   `Children.DeleteTakesBranch`, `Children.NodePut`). When the editing and lookup calls succeed, and with which
   status they answer, is stated on the tree, the keys that can be found and the free slots
   (`Verdicts.ElementDeleted`, `Verdicts.AddKeyTaken`, `Verdicts.AddKeyAnswered`, `Verdicts.KeyBesideAnswered`,
   `Children.UpdateTaken`, `Children.AppendTaken`, `Paths.PathAnswered`).
9. **Streaming.** Every sequence of streaming calls that ends without an error describes a closed document,
   and the output is its compact rendering if and only if every array is empty, holds only scalars or has
   exactly one element, and no container has more than 65536 counted members (`StreamRuns.StreamingRefinement`).
   The answer to the next call follows from the document described so far (`StreamRuns.NextAnswered`).

## Layout

| file | content |
|---|---|
| Codes, Forests, Pool, Shapes | status codes; the abstract tree; how cells represent it; which trees are documents |
| Fnv, HashTable, KeyIndex | the compound hash; the probing table; the table as an index of a set of keys |
| Tree | the node pool: allocation, insertion, deletion, search |
| Lexer, Words, Tokenizer | the scanners as functions; the languages they accept, and those of RFC 8259; the scanners as loops |
| Machine, Grammar, Spines, Parser | the parser as a transition system on a zipper; the grammar; the zipper in the pool; the loop that follows the system |
| Texts, Sentences | whole texts: which are accepted; sentences and their trees |
| Prefixes, Lockstep, Refusals | how sentences begin; the parser in step with a value that begins like its input; where it stops and with which status |
| Faults, RefusedTexts | what is wrong with a token that cannot be read, and what starts with a number; the answer to every text |
| RfcTexts, StrictTexts | which JSON texts are accepted; which accepted texts are JSON texts |
| Printer, Walk, Passes, Serializer | the recursive printers; the pre-order walk; a pass as a function; the two-pass machine |
| RoundTrip, LoadRender | printing and reading back |
| Api, Children, Paths, Verdicts | the editing calls; what they do to the sequences of children; what a path finds; when they succeed and what they answer |
| Runs, FullIndex | runs of calls; a full table |
| Workspace | how the workspace is divided |
| Streaming, StreamRuns, Streamer | the streaming calls as a transition system; all their runs; the class |

## Modelling choices

- Node descriptors have 16 bits and pointers 8 bytes; `NONE` (0xFFFF) is "no node". Text lengths are
  stored in 16 bits, so names and values are clipped as the code clips them (`Machine.Clip`).
- C `assert` does nothing. Where a property says that an assertion holds, it is proved (the allocator's
  assertion in `Tree.Context.Allocate`, the bound assertions as the `Fits` preconditions of the `Writer` methods).
- A character is a Dafny `char`, of which the hash takes the low 8 bits. Reading past the end of a text
  yields NUL, and input texts hold no other NUL.
- A freed slot's `next` is a field of its own; in the code it shares memory with the type and the length of the
  node, so that the type set by a deletion is overwritten when the free list is not empty.
- A long C function is a method with helpers where its proof has parts; the doc comment of each helper says
  which part it is. The function-pointer sets of the serializer are two flags of `Writer`.
- `find_key_fn`, `add_fn` and `remove_fn` are branches on the search mode. `hash_fn` is the loop
  `Fnv.CompoundHash`, for either byte order.
- An address handed in by a caller is a live node or NULL, and node text is a value of its own that does not
  change behind the library's back.

## Where code and documentation disagree

The model follows the code.

- README.md:3 promises full compliance with ECMA-404.
  - The parser accepts mismatched brackets (`Grammar.MismatchAccepted`); among what it accepts, the sentences
    are exactly the sequences whose brackets match (`Grammar.AcceptedAndBalanced`). A closer with which no value
    goes on is taken exactly behind a scalar and, if it is a bracket, behind a colon or behind a closer that does
    not end the document (`Refusals.WrongToken`).
  - The tokenizer accepts `-007` and `1.e5` (`Words.LaxNumbers`); a number that it accepts is a JSON number if
    and only if no zero is followed by digits behind a minus and no point by an exponent (`Words.NumbersOfJson`).
    As a value for `jes_update_key_value` every text is taken that starts with a number, `1-` too
    (`Children.NumberTaken`, `Faults.NumberTrails`).
  - It accepts control characters in strings and refuses lone surrogates (`Words.LaxStrings`); a string that it
    accepts is a JSON string if and only if no character is below the blank, and it accepts a JSON string if and
    only if every surrogate escape is followed by a low one (`Words.StringsOfJson`).
  - It skips form feeds (`Words.FormFeedSkipped`); otherwise it skips what JSON skips (`Words.SpacesOfJson`).
  - There are no other deviations: `StrictTexts.AcceptedJson`.
- src/jes.h:624 and 710 tell callers to pass NULL as value for containers and literals. The code refuses it
  (`Children.NullRefused`): `jes_update_key_value` takes a value if and only if it is neither NULL nor empty and
  right for its type, and the key has an old value or a slot is free (`Children.UpdateTaken`);
  `jes_append_array_value` if and only if it is not NULL and a slot is free (`Children.AppendTaken`).
- src/jes_hash_table.c:32-34 says that the hash represents a parent and a keyword uniquely. It does so for one
  keyword (`Fnv.HashDeterminesParent`) and not for two (`Fnv.HashCollides`); the table also compares the text.
- src/jes.h:82 limits streaming to ten levels; the code refuses a start call for its depth only when forty
  containers are open (`Streaming.PushRefused`), and accepts an eleventh (`Streaming.EleventhAccepted`).

## Model

| member | source | states |
|---|---|---|
| Tree.Context.constructor | src/jes_tree.c:435-458 | a fresh pool holds the empty document with nothing on the free list, and its table lists nothing |
| Tree.Context.Reset | src/jes.c:81-94 | whatever the context held, it is valid and empty again, and so is the table |
| Tree.Context.Allocate | src/jes_tree.c:20-52 | the slot comes from the head of the free list, else from the unused end, is not live, and has all links cleared; it fails exactly when all slots are live; the assertion that an unused slot is left holds |
| Tree.Context.Free | src/jes_tree.c:54-78 | only the freed cell changes: its type is unknown (until the link, which shares its memory, overwrites it), it becomes the head of the free list and its link leads to the old head |
| Tree.PoolConservation | src/jes_tree.c:20-78 | every slot ever handed out is live or on the free list, never both, and no other slot is; the next unused slot is the number of both together |
| Tree.SlotsAfterInsert | src/jes_tree.c:28-46 | an allocation moves one slot from the free list or from the unused end to the tree and keeps the conservation of slots |
| Children.SlotsAfterDelete | src/jes_tree.c:287-384 | a deletion moves all slots of the branch to the free list and keeps the conservation of slots |
| Tree.Context.Link | src/jes_tree.c:175-202 | exactly the cells of the new node, its anchor and its parent change, each in the fields named |
| Tree.Context.InsertNode | src/jes_tree.c:166-211 | the represented tree becomes the old one with one leaf behind the anchor, or first without one; a full pool changes nothing |
| Tree.Context.InsertValue | src/jes_tree.c:166-211 | inserting a value keeps the context sane: the table goes on listing the keys it listed |
| Tree.Context.InsertKeyNode | src/jes_tree.c:213-246 | in every sane context: a name that a search finds changes nothing and is refused; otherwise the key is in the tree, and listed in the table unless all its slots are taken, which is exactly when "out of memory" comes with a node |
| Tree.Context.FindKeyLinear | src/jes_tree.c:386-413 | the walk finds the key of that name in that object, or nothing; a parent that is no object is reported |
| Tree.Context.Find | src/jes_tree.c:441-446 | the linear search finds what the tree holds, the hashed one the key that the table lists for that parent and name; whatever is found is a live key |
| Tree.Context.GetLeaf | src/jes_tree.c:248-261 | the walk along first children ends at the leftmost leaf below the node, or at nothing for a childless node |
| Tree.Context.GetLeftSibling | src/jes_tree.c:263-281 | the node that precedes in the sibling chain, or nothing for a first child or a root |
| Tree.Context.Detach | src/jes_tree.c:345-368 | unlinking rewrites the left sibling or the parent only, and moves the last-child link when the node was last |
| Tree.Context.RemoveFromIndex | src/jes_tree.c:376-381 | removing a key that was unlinked, listed or not, takes its name out of the table and leaves no entry for a node outside the tree |
| Tree.Context.DeleteLeaf | src/jes_tree.c:297-343 | one round frees the first node of the branch's post-order, and the walk continues on the spine of the branch |
| Tree.Context.DeleteChildren | src/jes_tree.c:296-343 | the loop ends, with everything below the node freed bottom-up and nothing else changed |
| Tree.Context.DeleteLast | src/jes_tree.c:345-383 | a childless node is cut out of its siblings and freed, and its name is gone from the table |
| Tree.Context.DeleteNode | src/jes_tree.c:287-384 | in every sane context exactly the branch is cut out, its slots go to the free list in post-order, and the names of its keys leave the table; the context stays sane, so no entry points to a freed node |
| Tree.RegularDeleted | src/jes_tree.c:287-384 | with distinct names and a complete table before, names are distinct and the table is complete behind a deletion |
| Tree.InsertedNames | src/jes_tree.c:213-246 | an insertion keeps names distinct if and only if the object it goes to holds no key of that name |
| Children.DeletedSound | src/jes_tree.c:287-384 | behind a deletion the table lists no key that is gone, whichever keys it listed before |
| Children.DeleteTakesBranch | src/jes_tree.c:287-384 | the live slots drop by exactly the branch; every node outside keeps type, text and children, except that the parent loses one child |
| Children.ChildrenAre | src/jes_tree.c:175-202 | the sequence of children of a node holds exactly the nodes whose parent it is |
| Children.NodePut | src/jes_tree.c:166-211 | insertion is splicing: the new node follows the anchor in the sequence of children, or comes first, its parent is the node it was put below, and every other node keeps its type, text and children |
| Forests.PostLeaf | src/jes_tree.c:248-261 | taking away the leftmost leaf takes away the first node of the post-order |
| Forests.CutIds | src/jes_tree.c:283-286 | what is gone behind a deletion are the ids of the branch and no others |
| Pool.CutRep | src/jes_tree.c:345-368 | rewriting at most two cells represents the tree without the branch |
| Pool.InsertAfterRep | src/jes_tree.c:178-185 | rewriting the anchor and, when it was last, the parent represents the tree with the new leaf behind the anchor |
| Fnv.CompoundHash | src/jes_hash_table.c:46-66 | the two loops compute the fold of FNV-1a rounds, with 32-bit wrap-around, over the id's bytes and the text |
| Fnv.RoundInjective | src/jes_hash_table.c:53-56 | for a fixed byte, one round is injective in the accumulator |
| Fnv.TwoRoundsInjective | src/jes_hash_table.c:53-56 | two rounds from one accumulator are injective in the two bytes |
| Fnv.HashDeterminesParent | src/jes_hash_table.c:46-66 | for a fixed keyword the hash determines the 16-bit parent id, on either byte order |
| Fnv.HashCollides | src/jes_hash_table.c:32-34 | below one parent, "uah" and "ckqpa" have the same hash |
| HashTable.Table.Find | src/jes_hash_table.c:74-105 | a search fails exactly when no live entry has this hash and text, also in a full table and across tombstones; otherwise it returns such an entry's node |
| HashTable.Table.Add | src/jes_hash_table.c:107-143 | a new key takes one slot that was not live, and the probing invariant holds again; it is refused exactly when all slots are live |
| HashTable.Table.Remove | src/jes_hash_table.c:145-176 | a stored key's slot, and no other, becomes a tombstone and the count drops by one; a key that is not stored changes nothing |
| HashTable.Table.Clear | src/jes_hash_table.c:178-190 | all slots are empty and the table is valid |
| HashTable.StoredKeys | src/jes_hash_table.c:74-176 | filling a slot stores exactly its pair of hash and text, a tombstone takes exactly one pair out, and a search succeeds exactly on the stored pairs |
| HashTable.PerformAll | src/jes_hash_table.c:74-176 | after any sequence of adds of new keys and removes, over tombstones and through a full table, the table stores what the sequence says and a search succeeds exactly on that |
| HashTable.AddKeeps | src/jes_hash_table.c:117-128 | filling the first free slot of a probe sequence leaves no gap in front of any entry and no two entries with equal hash and text |
| KeyIndex.IndexLookup | src/jes_hash_table.c:88-101 | a lookup answers with the key that the table lists for that very parent and name, although entries carry no parent |
| KeyIndex.NamedIsFound | src/jes_hash_table.c:74-105 | where every key is listed and names are distinct, that is the key that the linear search finds |
| KeyIndex.IndexedRemove | src/jes_hash_table.c:160-170 | the entry that a removal hits belongs to the listed key of that parent and name, and to no other |
| Workspace.Init | src/jes.c:14-79 | which workspaces are refused, how many nodes and slots the others have, and that the context starts valid and empty |
| Workspace.TableStarts | src/jes.c:31-34 | the assertion that the table starts inside the workspace holds as soon as the pool has room for one node |
| Workspace.SlotsForKeys | src/jes.c:31-34 | a pool with room for k keys with values and one more node comes with k slots |
| Workspace.CompleteFits | src/jes.c:26-40 | no complete document that fits the pool has more keys than the table has slots |
| Workspace.LoadFits | src/jes.c:26-40 | no text that is read into a complete tree overfills the table |
| Workspace.InitAndLoad | src/jes.c:51-79 | in a fresh hashed context the printed text of any complete document that fits the pool loads without an error and rebuilds the document |
| Lexer.LexWord | src/jes_tokenizer.c:505-540 | a token that is not the end of the text takes at least one character and ends within the text |
| Tokenizer.TokenizerContext.ProcessSpaces | src/jes_tokenizer.c:123-150 | the cursor moves behind the whole run of white space |
| Tokenizer.TokenizerContext.ProcessExponent | src/jes_tokenizer.c:173-202 | the loop accepts an optional sign and at least one digit, reads all digits, and ends on the last one; anything else is an invalid number |
| Tokenizer.TokenizerContext.ProcessFraction | src/jes_tokenizer.c:205-235 | digits, digits with an exponent, or an exponent at once; the token grows by what was read |
| Tokenizer.TokenizerContext.ProcessInteger | src/jes_tokenizer.c:238-298 | accepts and refuses as the number scanner function does, with its status, and the token is what was accepted |
| Words.NumberScanner | src/jes_tokenizer.c:173-298 | at the end of the text, or before a character that cannot continue a number, the scanner takes the whole literal if and only if it is in the declared number language |
| Words.RfcNumbersAccepted | src/jes_tokenizer.c:71-85 | every number of section 6 of RFC 8259 is in that language |
| Words.NumbersOfJson | src/jes_tokenizer.c:71-85 | a word is a JSON number if and only if the scanner's language has it, no zero behind a minus is followed by a digit, and no point by an exponent |
| Words.LaxNumbers | src/jes_tokenizer.c:71-85 | -007 and 1.e5 are in the scanner's language and no JSON numbers |
| Tokenizer.TokenizerContext.StringToHex | src/jes_tokenizer.c:301-319 | valid exactly on four hex digits, with their 16-bit value |
| Tokenizer.TokenizerContext.ProcessUnicode | src/jes_tokenizer.c:321-389 | four digits outside the surrogates, or ten characters that form a pair, are taken; all other cases end with the right error |
| Tokenizer.TokenizerContext.ProcessString | src/jes_tokenizer.c:391-458 | accepts and refuses as the string scanner function does; the token is the text between the quotes and the cursor is on the closing one |
| Words.StringScanner | src/jes_tokenizer.c:391-458 | the scanner takes n characters if and only if a quote follows them and they are plain characters, short escapes, escapes outside the surrogates, or surrogates followed by an escaped low surrogate |
| Words.StringsOfJson | src/jes_tokenizer.c:50-65 | an accepted string is one of section 7 of RFC 8259 if and only if no character is below the blank; a JSON string is accepted if and only if every surrogate escape is followed by a low one |
| Words.LaxStrings | src/jes_tokenizer.c:50-65 | a control character that is accepted, and a lone surrogate that is not |
| Faults.StringRefused | src/jes_tokenizer.c:391-458 | a string is refused with an error if and only if it is in order up to a place where that is wrong: the end of the text (unexpected end), an escape that is none of the eight (invalid escape), a control character or one that cuts an escaped unit short (unexpected symbol), no hex digit or a surrogate without its partner (invalid Unicode) |
| Faults.NumberRefused | src/jes_tokenizer.c:173-298 | a number is refused as invalid exactly for a zero in front of a digit or an exponent without digits, and with an unexpected symbol exactly for a minus without digits or a point with neither digit nor exponent |
| Faults.WordRefused | src/jes_tokenizer.c:505-540 | whatever stands at a place, the token there is refused with exactly the error of its string or number, and with an unexpected symbol exactly when it starts no token |
| Faults.ScanStarts | src/jes_tokenizer.c:238-298 | the number scanner accepts exactly the texts that start with a word of its language which the next character does not continue |
| Faults.NumberTrails | src/jes_tokenizer.c:542-559 | `1-` starts with a number and is none; `1.` does not, although `1` is one |
| Words.SpacesOfJson | src/jes_tokenizer.c:87-89 | a run of JSON white space is skipped to its end if and only if no form feed follows |
| Words.FormFeedSkipped | src/jes_tokenizer.c:10 | a form feed in front of a number is skipped |
| Tokenizer.TokenizerContext.ProcessLiteral | src/jes_tokenizer.c:461-503 | accepted exactly when the whole word stands there |
| Tokenizer.TokenizerContext.GetToken | src/jes_tokenizer.c:505-540 | token, cursor and status are those of the token function at the old cursor |
| Machine.StepKeeps | src/jes_parser.c:317-360 | whatever token comes, the state fixes the kind of the current node, objects hold distinct names only, keys at most one child, scalars none |
| Machine.DriveKeeps | src/jes_parser.c:362-377 | for every text, valid or not, the tree left is well shaped and its size is the number of slots used, at most the pool |
| Machine.DriveStops | src/jes_parser.c:317-360 | a text of n bytes yields at most n + 1 tokens, and the loop is left only with an error or at the end of the document |
| Parser.GetParentByType | src/jes_tree.c:127-145 | the walk up ends at the nearest ancestor of that type, or at nothing |
| Parser.GetContainerParent | src/jes_tree.c:147-164 | the walk up ends at the nearest object or array above, or at nothing |
| Parser.ProcessClosingBrace | src/jes_parser.c:34-71 | on the pool, a closing brace does what it does on the chain of unfinished nodes |
| Parser.ProcessClosingBracket | src/jes_parser.c:87-117 | on the pool, a closing bracket does what it does on the chain of unfinished nodes |
| Parser.HaveValueComma | src/jes_parser.c:119-134 | a comma leads to the innermost container, and to its next key or element, without changing the tree |
| Parser.AppendValue | src/jes_parser.c:260-265 | inserting behind the last child of the iterator is pushing a node on the chain of unfinished nodes |
| Parser.AppendKey | src/jes_parser.c:181-189 | the same for a key; a name that is taken is refused, and a table without a free slot ends the parse with "out of memory" and the key in the tree |
| Parser.ProcessExpectKey | src/jes_parser.c:178-201 | follows the transition system in this state, for every token |
| Parser.ProcessExpectValue | src/jes_parser.c:203-266 | follows the transition system in this state, for every token |
| Parser.ProcessHaveValue | src/jes_parser.c:268-305 | follows the transition system in this state, for every token |
| Parser.ProcessExpectColon | src/jes_parser.c:307-315 | follows the transition system in this state, for every token |
| Parser.StateMachine | src/jes_parser.c:317-360 | the loop over tokens ends where the transition system ends on the whole text, in tree, status and index, also when the table runs full on the way |
| Parser.Parse | src/jes_parser.c:362-377 | the same from the start of the text on an empty pool; success means that the end state was reached |
| Parser.Load | src/jes.c:724-742 | an empty text is refused and changes no document; otherwise tree, status and index are those of the transition system on this pool and table, whatever the context held before |
| Parser.ParsedHolds | src/jes.c:724-742 | if the table has room for all keys that the text has, a load ends as in linear mode, and else with "out of memory" |
| Spines.DriveInKeeps | src/jes_parser.c:362-377 | a load, also one that the table ends, leaves a well shaped tree in different slots, and no slot below the next unused one is free |
| Grammar.SentenceAccepted | src/jes_parser.c:178-360 | every sentence of the grammar with distinct names that fits the pool is accepted, and the pool holds its parse in document order |
| Grammar.AcceptedSentence | src/jes_parser.c:178-360 | what is accepted with matching brackets is the sentence of the tree that was built |
| Grammar.GrammarTheorem | src/jes_parser.c:178-360 | on token sequences, accepted with matching brackets if and only if a sentence of sections 2, 4 and 5 of RFC 8259 without repeated names that fits the pool; the tree is the parse |
| Grammar.AcceptedAndBalanced | src/jes_parser.c:34-134 | an accepted sequence is a sentence if and only if its brackets match |
| Grammar.MismatchAccepted | src/jes_parser.c:50-66 | `[1}` and `{"a":]` are accepted though their brackets do not match |
| Grammar.LossyAccepted | src/jes_parser.c:87-117 | what a lossy rendering leaves, `[{"a":1]`, is accepted as another tree |
| Grammar.Unambiguous | src/jes_tokenizer.c:24-48 | a sentence has one parse |
| Prefixes.ConfigBegins | src/jes_parser.c:178-360 | what was taken with matching brackets is the beginning of a sentence: parsing never goes on where no value could |
| Refusals.PrefixRuns | src/jes_parser.c:178-360 | the beginning of a sentence, without a repeated name and as far as it fits the pool, is taken, and the tree is the part of the value that it describes |
| Refusals.EndTooEarly | src/jes_parser.c:178-360 | if the tokens end inside a value the answer is "unexpected end", or "unexpected token" directly behind a name |
| Refusals.NoPlace | src/jes_parser.c:178-266 | a name that repeats in its object is answered with "duplicate key", a node that the pool has no slot for with "out of memory", whatever follows; the tree is the part in front of it |
| Refusals.WrongToken | src/jes_parser.c:34-134 | a token with which no value goes on is answered with "unexpected token", whatever follows, unless it is one of the closers that are taken; which these are is said by the tokens alone |
| Texts.DriveReads | src/jes_parser.c:323-359 | taking tokens from the text one by one is running on the sequence of its tokens; a text with an unreadable token is not accepted |
| Texts.TextTheorem | src/jes_parser.c:362-377 | for every text: accepted with matching brackets if and only if its tokens, each clipped by the 16-bit length, are a sentence without repeated names that fits the pool, and the tree is the parse |
| RefusedTexts.FaultOf | src/jes_tokenizer.c:505-540 | a text cannot be read, with this error, if and only if the first token that cannot be read has this fault |
| RefusedTexts.TextAnswered | src/jes_parser.c:317-377 | for any text: status and tree, from a value that its tokens begin and the place where reading ends |
| RefusedTexts.EveryText | src/jes_parser.c:317-377 | there is such a place in every text, or reading goes on over a closer that is taken |
| RefusedTexts.LoadAnswered | src/jes.c:724-742 | the same for the call itself in both search modes; with more keys than table slots the first key too many ends it with "out of memory" and is left in the tree |
| LoadRender.LoadText | src/jes.c:724-742 | the same for the call itself, in both search modes, with the number of keys bounded by the table in hashed mode; whatever the text, the context is sane |
| Sentences.SentenceUnique | src/jes_parser.c:176-359 | two values with the same sentence are the same up to slot numbers, also where names repeat |
| RfcTexts.RfcRead | src/jes_tokenizer.c:461-540 | the tokens of a text of RFC 8259 are read as they are, whatever the white space, unless a surrogate stands alone, and then the text cannot be read |
| RfcTexts.JsonAcceptedAsText | src/jes_parser.c:362-377 | a text of RFC 8259, with any white space, is accepted if and only if its surrogates are paired, its names are distinct after clipping and it fits the pool; and the tree is its value |
| StrictTexts.ReadPieces | src/jes_tokenizer.c:461-540 | a text without form feeds that can be read is the sequence of its tokens with white space of RFC 8259 between them |
| StrictTexts.AcceptedJson | src/jes_parser.c:362-377 | an accepted text is a text of RFC 8259 if and only if its brackets match and it has no zero in front of digits behind a minus, no point in front of an exponent, no control character in a string and no form feed |
| Walk.GetNode | src/jes_serializer.c:301-334 | each call moves to the next node in document order, and to nothing and the end state behind the last one |
| Walk.GetStat | src/jes.c:761-795 | every node is counted once, in the group of its type |
| Walk.CensusTotal | src/jes.c:771-793 | in every tree that nests as JSON does the four counts add up to the number of nodes |
| Serializer.Writer.KeyName | src/jes_serializer.c:53-57 | measuring adds the length of what writing adds; in the compact form without the blank |
| Serializer.Writer.StringValue | src/jes_serializer.c:48-51 | measuring adds the length of what writing adds, quotes included; nothing else in the buffer changes |
| Serializer.Writer.LineBreak | src/jes_serializer.c:69-73 | measuring adds the length of the line break and indentation that writing adds, and nothing in the compact form |
| Serializer.ProcessExpectKey | src/jes_serializer.c:198-209 | what is out and what the rest of the pass emits make up the whole pass behind the step as in front of it; anything but a key, or no node at all, ends the pass with an error |
| Serializer.ProcessExpectValue | src/jes_serializer.c:211-258 | the same for values, with an indentation that is never below that of the next node; a key, or no node, ends the pass with an error |
| Serializer.ProcessHaveValue | src/jes_serializer.c:260-297 | the closers and the comma that the walk emits are those of the pass up to the next node, the state calls for that node, and the indentation does not underflow; above the root the pass is complete |
| Serializer.StateMachine | src/jes_serializer.c:336-387 | on every tree the loop ends where the pass ends, with its text and its status |
| Passes.ClimbEnds | src/jes_serializer.c:260-334 | the walk that emits closers and the walk that finds the next node stop at the same place, and the state calls for the kind of the node found there |
| Passes.PassEnds | src/jes_serializer.c:336-387 | a pass ends without an error if and only if no key without a value is the last node or followed by a key in document order |
| Passes.PassPrints | src/jes_serializer.c:336-387 | on a complete tree the pass is the recursive printer's text, compact or pretty; a pass without an error is that text only if every key has a value |
| Passes.SilentLoss | src/jes_serializer.c:198-209 | `[{"a":}, 1]` with a key that has no value: the pass ends without an error and writes `[{"a":1]` |
| Serializer.Evaluate | src/jes_serializer.c:465-497 | the length is that of the pass and its NUL, zero if the pass ends with an error, and zero for an empty document |
| Serializer.Render | src/jes_serializer.c:396-463 | on every tree: a buffer smaller than the pass is refused, then a pass with an error is; otherwise the text of the pass and a NUL are in front and the rest of the buffer is untouched, as the whole buffer is in the other cases |
| RoundTrip.PrintedTokens | src/jes_serializer.c:336-387 | the tokenizer finds in the printed text of a complete tree exactly the tokens of its sentence, up to the last character |
| RoundTrip.PrintThenParse | src/jes_serializer.c:336-463 | the printed text of every complete tree that fits the pool is accepted, and the tree is rebuilt in the first slots |
| LoadRender.Reload | src/jes.c:724-742 | the same for the call itself, in either search mode |
| LoadRender.RenderLoadRender | src/jes_serializer.c:396-463 | rendering, loading into another context and rendering again give the same tree and the same bytes |
| Api.AddKey | src/jes.c:429-475 | in every sane context the outcome, errors and a full table included, is that of a function on documents |
| Children.AddKeyAppends | src/jes.c:455-474 | on an object, or on a key whose value is one, the new key comes last among the children, has the given name and no value, and all other nodes are as before |
| Children.AddKeyMakesObject | src/jes.c:455-474 | on a key without a value: an object with the one key, an empty object if only one slot is left, nothing if none is; all other nodes are as before |
| Verdicts.AddKeyTaken | src/jes.c:429-475 | a key is added if and only if the name is neither empty nor rejected and either the parent is an object or a key whose value is one, no key of the clipped name can be found in that object and a slot is free, or the parent is a key without a value and two slots are free |
| Verdicts.AddKeyAnswered | src/jes.c:429-475 | the status in every case: a rejected name or parent, a value that is no object, a name that is taken, no slot, a full table; a refusal leaves the document as it was, and an added key can be found from then on unless the table is full |
| Api.AddKeyBefore | src/jes.c:477-511 | as for AddKey, with the left sibling of the reference key as anchor |
| Children.AddKeyBeforeAdjacent | src/jes.c:501-508 | the new key stands directly before the reference key, everything else in its old order |
| Api.AddKeyAfter | src/jes.c:513-537 | as for AddKey, with the reference key as anchor |
| Children.AddKeyAfterAdjacent | src/jes.c:530-536 | the new key stands directly behind the reference key, everything else in its old order |
| Verdicts.KeyBesideAnswered | src/jes.c:477-537 | for a key before or after another one, whatever its place: refused exactly when the reference is no key, the name is taken or no slot is free, each with its status; the name is not validated |
| Api.UpdateKeyValue | src/jes.c:539-557 | the outcome in every sane context, with the old value deleted even when the new one is refused |
| Children.NumberTaken | src/jes_tokenizer.c:542-559 | the number check of `jes_update_key_value` accepts exactly the texts that start with a number |
| Children.UpdateTaken | src/jes.c:539-557 | a value is taken if and only if it is neither NULL nor empty, suits its type (a number starts it; the string validation accepts it; any text for the others), and the key has an old value or a slot is free; the status in every case; NULL, an empty text and a NULL key leave the document alone |
| Children.UpdateReplaces | src/jes.c:539-557 | on success the key has exactly the new value, on failure none; all nodes outside the old value are as before; a value is refused as invalid exactly when it does not suit its type |
| Api.AppendArrayValue | src/jes.c:632-650 | the outcome in every sane context, with "out of memory" exactly when all slots are live |
| Children.AppendTaken | src/jes.c:632-650 | a value is taken, and there is no error, if and only if it is not NULL, the target is an array and a slot is free; a full pool is answered with "out of memory", all else with "invalid parameter", and both leave the document alone |
| Children.NullRefused | src/jes.h:624-624 | an object for a key, and a literal for an array, are refused with NULL as value and taken with their own text |
| Children.AppendAppends | src/jes.c:632-650 | the value comes last among the elements of the array, and all other nodes are as before |
| Api.DeleteElement | src/jes.c:180-196 | the outcome in every sane context: the branch is cut out, or NULL is refused |
| Verdicts.ElementDeleted | src/jes.c:180-196 | NULL is refused; any node but the root is deleted without an error: the ids are the old ones without the branch, the count drops by it, the parent has one child less, every other node is as before, and the keys that can be found are the old ones without those of the branch and, in a table, without their names |
| Api.ValidateNumber | src/jes_tokenizer.c:542-559 | accepted exactly when a number starts the text; what follows it does not matter |
| Api.GetKey | src/jes.c:229-287 | the path is followed name by name, through the values of keys, with the errors of the code |
| Paths.PathFinds | src/jes.c:229-287 | the call answers with key e if and only if the start is an object or a key and a chain of keys that can be found leads from it to e, each in the object that is the only child of the one before, whose names joined by the separator are the path; behind a full table these are the keys that the table lists |
| Paths.PathAnswered | src/jes.c:229-287 | success exactly when the path leads to a key, "invalid parameter" exactly when the start is neither object nor key, "not found" otherwise |
| Api.SegmentLength | src/jes.c:211-227 | the characters in front of the first separator, or all |
| Runs.Perform | src/jes.c:180-742 | each call, behind whatever errors, takes a sane context to a sane one whose document, status and answer are those of a function of the document |
| Runs.Execute | src/jes.c:180-742 | so does every sequence of calls, past all errors |
| Runs.ApplyKept | src/jes.c:180-742 | every call leaves slots conserved, nodes nested, and an index of live keys only, at most one of each name in an object; and names distinct with a complete index as long as no key finds the index full |
| Runs.RunKept | src/jes.c:180-742 | so does every run; in linear mode names stay distinct in every run |
| Runs.TwinsStay | src/jes_tree.c:441-446 | a call that does not run out of memory with a complete index has the same outcome without an index, and leaves a complete index |
| Runs.SameAnswers | src/jes_tree.c:441-446 | the same calls with and without an index are answered alike, up to the first "out of memory" with the index; if there is none both end with the same tree |
| Runs.BothModes | src/jes_tree.c:441-446 | the same for two contexts of equal capacity, node for node |
| FullIndex.NamesStayDistinct | src/jes_tree.c:229-243 | a key that is put into an object keeps names distinct if and only if the object holds no key of that name, be it one that the table does not list |
| FullIndex.NameTwice | src/jes_tree.c:229-243 | in a workspace of 376 bytes, with four nodes and two table slots: `{}` is loaded, the third key runs out of memory with its node, and behind the deletion of the first it is added a second time |
| Streaming.RunConsistent | src/jes_serializer.c:976-1147 | after every run without an error the state matches the innermost open container |
| Streaming.EndCloses | src/jes_serializer.c:1004-1104 | so an end call that succeeds closes a container of its own kind |
| Streaming.StuckRun | src/jes_serializer.c:984-986 | behind an error no call changes anything |
| Streaming.StreamsTree | src/jes_serializer.c:976-1147 | the calls that describe a closed document end the stream without an error and write one determined text |
| Streaming.StreamingTheorem | src/jes_serializer.c:912-948 | that text is never longer than the compact rendering of the document, and equal to it if and only if every array holds only scalars or at most one element and no container has more than 65536 counted members |
| StreamRuns.EndedRun | src/jes_serializer.c:976-1147 | whatever is called, a run that ended without an error describes a closed document, call for call |
| StreamRuns.StreamingRefinement | src/jes_serializer.c:976-1147 | both together: every ended run without an error, within the depth of the stack, writes the compact rendering of the document it describes if and only if every array holds only scalars or at most one element and no container has more than 65536 counted members |
| StreamRuns.NextAnswered | src/jes_serializer.c:576-677 | behind any run without an error the next call is out of place exactly when the document described so far cannot go on with it (a container at the start, a value for a key or in an array, a name or the end in an object, the end in an array); else refused for its depth exactly with forty containers open; else it fails exactly when its text is cut or does not fit the buffer |
| Streaming.PushRefused | src/jes_serializer.c:506-524 | a start call is refused for its depth if and only if forty containers are open |
| Streaming.EleventhAccepted | src/jes_serializer.c:506-524 | an eleventh container is opened without an error |
| Streamer.StreamContext.StartContainer | src/jes_serializer.c:976-1002 | on the array that serves as stack and on the buffer, a start call does what the transition system says, and writes no comma |
| Streamer.StreamContext.EndContainer | src/jes_serializer.c:1004-1041 | likewise for an end call, and the state becomes that of the container around |
| Streamer.StreamContext.RenderKey | src/jes_serializer.c:1110-1147 | likewise for a key, in all its failures too: wrong state, no container, text cut short, buffer full |
| Streamer.StreamContext.RenderValue | src/jes_serializer.c:912-948 | likewise for a value, with a comma in arrays only |
| Streamer.StreamContext.CountMember | src/jes_serializer.c:565-574 | the 16-bit counter of the innermost container, with wrap-around; an error without a container |
| Streamer.StreamDocument | src/jes_serializer.c:976-1147 | the calls for a closed document on a fresh context do not fail, and the buffer holds its compact rendering if and only if arrays and member counts are as in the theorem |
| Streamer.StreamCalls | src/jes_serializer.c:976-1147 | for any calls on a fresh context: if none failed and the stream ended, the buffer holds what the refinement says of the document they describe |

## Left out

- NULL for other texts and buffers: `jes_init` and `jes_init_streaming` refuse it for their memory, `jes_load` for the
  text, the calls that add or look up a key for the name or path, and `jes_render_key` for the name. `jes_render`
  does not test its buffer, nor do the streaming calls test a string value; there the model has a buffer and a text.
- Logging, status strings, size getters, `jes_get_parent`, `jes_get_sibling`, `jes_get_child` and the array
  getters: they read one field or walk one chain.
- `jes_validate_node` and the initialisation cookie: raw addresses. Handles are live nodes or NULL, and a
  handle to a freed node is outside the model.
- 32-bit node descriptors and 4-byte pointers: `Fnv.HashDeterminesParent` needs 16-bit ids, and the sizes in
  `Workspace` are those of 8-byte pointers.
- `jes_add_array_value`, `jes_update_array_value` and `jes_add_element` as a call of its own: the second
  deletes only the first child of what it replaces, and the last takes any type under any parent and passes
  the key index by.
- Deleting the root: the code does not clear its root pointer.
- `jes_tokenizer_validate_string`: it reads an uninitialised variable. Its verdict is a parameter of the calls
  that ask for it; that a length of zero is refused is modelled.
- `jes_get_key`'s limit on the length of a path, and the line and column counters of the cursor.
- `jes_hash_table_turn_off`: nothing in the repository calls it.
- The start-state and opening handlers of the parser (src/jes_parser.c:18-28, 73-82, 136-176): never reached.
- `jes_take_streaming_status` and what follows it: it clears the sticky error in the middle of a document.
- The digits that `snprintf` writes for numbers: a number comes with its text.
- HashTable.Table.Add: that the probing invariant is kept is stated for keys that are not stored yet; the code
  stops at the first tombstone before it could meet a duplicate, and all callers search first.
- Refusals.WrongToken: behind a closer of the wrong kind that is taken, status and tree of what follows are
  described only as far as the text is accepted (`Grammar.AcceptedAndBalanced`) and the tree is well shaped
  (`Machine.DriveKeeps`).
- Parser.Load: behind an error the tree, the status and the index are modelled, the iterator and the state of the
  parser are not.
- Api.UpdateKeyValue: only for a key and a value type; with another element as `key` the code would put a child
  below anything.
- Api.AppendArrayValue: only for value types; the code takes any type.
- Streamer.StreamContext.StartContainer: within the ten containers that the stack is meant for, because the
  code does not enforce that limit.
