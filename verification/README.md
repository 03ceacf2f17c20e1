# Verification of the ASP.NET Core Module's native support library

This project models, in Dafny, the library that the IIS module of ASP.NET Core is built on: its two hash
tables, with their concurrent inserts, its base64 codec, its percent escaping, its allocation cache, the
disconnect protocol of a request, its intrusive lists, its multi-strings, and its version numbers. It proves
what these promise their callers, for every input, run and interleaving.

## How it is organised

- `Words`: 32-bit arithmetic and small helpers. `Keys`: key folding, string hashes, path prefixes.
- `Prime`: the choice of bucket counts. `PrimeTable`: the precomputed ones, and which of them are prime, shown by
  certificates. `PrimeNumbers` and `Wheel`: divisors, and why such a certificate is one.
- `Chains`, `Buckets`: hash-sorted chains of nodes in a bucket array, and the pointer code that both tables share:
  lookup, linking, unlinking, rehash. `MapSpec` says what a hash table is meant to be, a finite map with one
  reference on each stored record; `HashTables` is `HASH_TABLE`, proved to refine it. `TreeSpec` says what a tree
  table is meant to be, a set of paths closed under ancestors; `Families` is the tree threaded through the same
  nodes, and `TreeTables` is `TREE_HASH_TABLE`.
- `ChainSteps`, `HashSteps`, `TreeSteps`, `TreeProgress`: the same inserts as step systems, with any number of threads that
  run under the shared lock and are interleaved at every read of a shared link and every interlocked operation.
  `HashLookups` lets any number of lookups run among the inserts of the hash table, and `Linearization` proves that all
  of them together behave as `MapSpec` does.
- `Base64`: the codec against section 4 of RFC 4648, and canonical input against its section 3.5.
- `Escape`, `Strings`, `Url`: `STRA` as a class over its buffer, escaping, the in-place unescaper, and the second
  decoder, after section 2.1 of RFC 3986.
- `AllocCache`, `Disconnect`: two ownership protocols as step systems over any number of threads.
- `ListEntry`: the circular lists as linked objects. `MultiSz`, `CommaList`, `Environment`: multi-strings, splitting at
  commas, and the environment block. `Version`: order, printing, parsing, and the highest version.

`dafny verify dfyconfig.toml` checks everything.

## How the code is read

- A table is a class with the bucket array and the counter of the original; its ghost fields are the chains, the
  index from keys to nodes, and the map or forest it stands for. One node class serves both tables; the hash table
  leaves the tree links unused. A record is named by a number, and all reference counts are in one map, so that taking and
  dropping references is visible in the contracts. A table's key comparison is a folding to canonical keys, and its hash
  looks at the canonical key; for the environment variables this is proved of the comparison and hash in use, and for
  case-sensitive paths too. The case-blind mode of the tree table meets it only when the comparison folds characters in
  a way that respects the stripping of the case bit (`Keys.CaseBlindMeetsAssumptionIff`), and its results cover that mode
  for such foldings only. `CompareStringOrdinal` is no such folding on all of Unicode (`Keys.OrdinalComparisonBreaksHash`).
- In the sequential tables a compare-and-swap happens at once and the retry loops run once; in the step systems it is a step
  of its own. There each thread makes one call of `InsertRecord` or `FindKey`; a tree thread goes through all prefixes of its path.
  Steps are sequentially consistent. Nodes are numbered in the order of their publication; `chains`, `owner`, `kids`, `first`,
  `linked`, `fails`, `wins` and `seen` are auxiliary variables that no step decides by.
- The square root in the prime search is that of a double rounded down, which is exact below 2^32.
- Byte and character buffers are arrays of their announced size; shifts and masks are written as division and remainder,
  and `Base64.ShiftsAndMasks` shows on 8-bit vectors that they are the same.
- What the system's code pages make of characters is a parameter (`CodePage` for one `%uxxxx` escape, `Narrowing` for a
  stretch of a URL); the round trips ask only that ASCII converts to itself.
- Where the code differs from what its comments or names promise the code is followed: `Unescape` loses text behind a bare `%` that precedes
  the first escape, `Escape` ignores a failed append of a plain character, the list depth of the allocation cache is compared in 16
  bits, `CalcLength` gives an empty list another length than `Reset`, a multi-string copied onto itself is emptied, and the
  table of "pre-calculated prime numbers" ends in four that are not. Each of these has its exact condition or its
  example below.

## Model

| member | source | states |
|---|---|---|
| `Buckets.BucketTable.FindNode` | src/AspNetCoreModuleV2/IISLib/hashtable.h:320-375 | the early exit of the lookup is right: the node is found exactly when a node with an equal key is stored, and otherwise the link returned is where a node of that hash keeps the chain sorted |
| `Buckets.BucketTable.Link` | src/AspNetCoreModuleV2/IISLib/hashtable.h:438-478 | swapping a new node in at the link that the lookup returned keeps every chain linked, sorted and free of equal keys, and adds exactly that node |
| `Buckets.BucketTable.Unlink` | src/AspNetCoreModuleV2/IISLib/hashtable.h:508-513 | taking a node out of its chain keeps all chains in order and loses no other node |
| `Buckets.BucketTable.RelinkChain` | src/AspNetCoreModuleV2/IISLib/hashtable.h:636-656 | relinking one old chain, node by node, into the new buckets puts each node behind all nodes of at most its hash |
| `Buckets.BucketTable.Rehash` | src/AspNetCoreModuleV2/IISLib/hashtable.h:631-662 | the node set is the same, every node is in the bucket of its hash modulo the new size, chains are sorted, and nodes of equal hash keep their order |
| `Buckets.BucketTable.RehashIfNeeded` | src/AspNetCoreModuleV2/IISLib/hashtable.h:586-666 | the table grows to the next bucket count from twice the old one on exactly when it has more items than that and the array can be so big; the doubling stays in 32 bits, and every key is found as before |
| `Chains.NotPassed` | src/AspNetCoreModuleV2/IISLib/hashtable.h:344-363 | on a sorted chain the walk may stop at the first greater hash: nothing behind it has the key |
| `Chains.PlacedAfterInsert` | src/AspNetCoreModuleV2/IISLib/hashtable.h:441-473 | a node inserted where the walk stopped leaves the chains sorted by hash, each node in its bucket, and the index exact |
| `Chains.PlacedAfterSpread` | src/AspNetCoreModuleV2/IISLib/hashtable.h:635-657 | when all nodes have been spread over the new buckets the same index holds for them |
| `Chains.SpreadStepOrder` | src/AspNetCoreModuleV2/IISLib/hashtable.h:644-652 | relinking a node keeps the relative order of nodes with its hash |
| `HashTables.HashTable.Initialize` | src/AspNetCoreModuleV2/IISLib/hashtable.h:193-250 | an empty table, or the error exactly when the bucket count is 0 or at least MAXDWORD divided by the pointer size |
| `HashTables.HashTable.FindKey` | src/AspNetCoreModuleV2/IISLib/hashtable.h:377-400 | returns the stored record of an equal key with one more reference, or nothing exactly when no key is equal; nothing else changes |
| `HashTables.HashTable.InsertRecord` | src/AspNetCoreModuleV2/IISLib/hashtable.h:402-493 | adds the record under its key and takes one reference on it exactly when no equal key is stored; otherwise it reports that and changes nothing |
| `HashTables.HashTable.DeleteKey` | src/AspNetCoreModuleV2/IISLib/hashtable.h:495-516 | afterwards the key is stored no more, all others are as before, and only the record that was removed, if there was one, has lost a reference |
| `HashTables.HashTable.DeleteIf` | src/AspNetCoreModuleV2/IISLib/hashtable.h:518-556 | removes exactly the records that the predicate accepts, each losing one reference |
| `HashTables.HashTable.Clear` | src/AspNetCoreModuleV2/IISLib/hashtable.h:287-318 | removes every record, each losing one reference, and sets the count to 0 |
| `HashTables.HashTable.Apply` | src/AspNetCoreModuleV2/IISLib/hashtable.h:558-584 | visits every stored record once |
| `HashTables.HashTable.ExecuteAll` | src/AspNetCoreModuleV2/IISLib/hashtable.h:287-584 | any sequence of operations gives the replies, contents and reference counts of the same sequence on a finite map |
| `MapSpec.StepConserves` | src/AspNetCoreModuleV2/IISLib/hashtable.h:402-584 | one operation changes a record's outside references by what it hands out only |
| `MapSpec.RunConserves` | src/AspNetCoreModuleV2/IISLib/hashtable.h:287-584 | over every run a record's count is its outside holders plus one if it is stored, failed inserts included |
| `MapSpec.StaysFindable` | src/AspNetCoreModuleV2/IISLib/hashtable.h:377-556 | a stored record stays under its key through any run of inserts, lookups and deletions of other keys |
| `MapSpec.InsertedIsFound` | src/AspNetCoreModuleV2/IISLib/hashtable.h:377-516 | in every run, after an insertion that succeeds each lookup of an equal key returns that record until such a key is deleted |
| `MapSpec.DeletedIsGone` | src/AspNetCoreModuleV2/IISLib/hashtable.h:377-516 | in every run, after a deletion each lookup of an equal key finds nothing until such a key is inserted |
| `ChainSteps.PublishSite` | src/AspNetCoreModuleV2/IISLib/hashtable.h:463-466 | a compare-and-swap that succeeds does so at the one position where the new node belongs, however long ago the walk read the link |
| `ChainSteps.PublishKeepsOrder` | src/AspNetCoreModuleV2/IISLib/hashtable.h:441-466 | such a swap keeps every chain spelled out by its links, sorted by hash and free of equal keys, and its key was not there |
| `ChainSteps.CursorStable` | src/AspNetCoreModuleV2/IISLib/hashtable.h:344-366 | a swap by one thread leaves the walks of all others valid |
| `ChainSteps.UniqueKeys` | src/AspNetCoreModuleV2/IISLib/hashtable.h:441-466 | no two published nodes have equal keys |
| `HashSteps.InitialInv` | src/AspNetCoreModuleV2/IISLib/hashtable.h:436-441 | the invariant holds when all inserters are about to start |
| `HashSteps.StepKeepsInv` | src/AspNetCoreModuleV2/IISLib/hashtable.h:441-478 | every atomic step of every inserter keeps the invariant on chains, walks, publications, references and count |
| `ChainSteps.PublishWritesOneLink` | src/AspNetCoreModuleV2/IISLib/hashtable.h:459-466 | a successful swap writes the link it was tried on and the new node's own link, and no other |
| `HashSteps.NothingIsLost` | src/AspNetCoreModuleV2/IISLib/hashtable.h:441-478 | in every interleaving a published node stays published, under the same key and owner |
| `HashSteps.ExactlyOneWins` | src/AspNetCoreModuleV2/IISLib/hashtable.h:441-478 | of any number of threads inserting equal keys exactly one succeeds if the key was not there, and none if it was |
| `HashSteps.FinishedCounts` | src/AspNetCoreModuleV2/IISLib/hashtable.h:467-478 | when all inserts are over the count is the number of nodes, and each winner, and no loser, has taken one reference |
| `HashSteps.PublishedCount` | src/AspNetCoreModuleV2/IISLib/hashtable.h:464-466 | the nodes published are as many as the threads that have published |
| `HashSteps.FailsBounded` | src/AspNetCoreModuleV2/IISLib/hashtable.h:441-466 | a thread's failed swaps never outnumber the successful swaps of the other threads |
| `HashSteps.EveryInsertReturns` | src/AspNetCoreModuleV2/IISLib/hashtable.h:441-466 | the retry loop ends: after a bounded number of its own steps an insert has returned, whatever the others do |
| `HashLookups.NextKeepsWorld` | src/AspNetCoreModuleV2/IISLib/hashtable.h:344-366 | no step of a lookup disturbs an insert or another lookup, and no step of an insert a lookup |
| `HashLookups.LookupIsRight` | src/AspNetCoreModuleV2/IISLib/hashtable.h:384-399 | a lookup among concurrent inserts is right about one moment of its call: the node it finds was there with its key, and when it misses there was none |
| `HashLookups.PresentIsFound` | src/AspNetCoreModuleV2/IISLib/hashtable.h:384-399 | a key that is stored when the lookup begins is found, in its node |
| `HashLookups.EveryLookupReturns` | src/AspNetCoreModuleV2/IISLib/hashtable.h:344-366 | a lookup returns after a bounded number of its own steps, whatever the inserts do |
| `Linearization.EveryRunLinearizes` | src/AspNetCoreModuleV2/IISLib/hashtable.h:377-493 | in every interleaving of inserts and lookups the replies, and the stored keys and records, are those of the same calls made one at a time on a finite map |
| `Linearization.OrderGrows` | src/AspNetCoreModuleV2/IISLib/hashtable.h:377-493 | the order of those calls keeps real time: a call decided by some moment comes before those decided later |
| `Linearization.FinishedOrder` | src/AspNetCoreModuleV2/IISLib/hashtable.h:377-493 | when all calls have returned that order holds each of them exactly once |
| `Keys.HashString` | src/AspNetCoreModuleV2/IISLib/hashfn.h:92-101 | computes the polynomial in 101 whose coefficients are the characters, over the natural numbers, and reduced modulo 2^32 once |
| `Keys.HashStringNoCase` | src/AspNetCoreModuleV2/IISLib/hashfn.h:168-177 | the same polynomial over the characters without their lower-case bit, modulo 2^32 |
| `Keys.PolynomialSnoc` | src/AspNetCoreModuleV2/IISLib/hashfn.h:92-101 | one more character multiplies the polynomial by 101 and adds the character, and the empty string has 0 |
| `Keys.StripClearsBit` | src/AspNetCoreModuleV2/IISLib/hashfn.h:168-177 | stripping clears the bit of value 32 and no other |
| `Keys.HashConsistentIff` | src/AspNetCoreModuleV2/IISLib/hashfn.h:168-177 | the case-blind hash agrees with a comparison by character folding exactly when the folding identifies no two characters that differ after that bit is stripped |
| `Keys.EnvKeyingMeetsAssumption` | src/AspNetCoreModuleV2/CommonLib/environmentvariablehash.h:94-109 | names that compare equal after lowering A to Z have equal hashes |
| `Keys.EnvNamesEqual` | src/AspNetCoreModuleV2/CommonLib/environmentvariablehash.h:94-109 | two spellings of a name are equal exactly when they have the same length and differ in the case of letters A to Z only |
| `Keys.CaseSensitiveMeetsAssumption` | src/AspNetCoreModuleV2/IISLib/treehash.h:94-101 | with case-sensitive paths the keying compares by equality, hashes with HashString, and commutes with cutting paths, as the tree results ask |
| `Keys.CaseBlindMeetsAssumptionIff` | src/AspNetCoreModuleV2/IISLib/treehash.h:94-101 | with case-blind paths, compared under a folding of characters that respects separators and hashed by HashStringNoCase, equal paths have equal hashes and the tree results apply exactly when the folding identifies no two characters that differ after the case bit is stripped |
| `Keys.OrdinalComparisonBreaksHash` | src/AspNetCoreModuleV2/IISLib/treehash.h:356-362 | the paths U+0451 and U+0401 are equal under a comparison by the Unicode upper-case table and have different hashes, so in that mode the assumption fails |
| `Keys.AncestorStep` | src/AspNetCoreModuleV2/IISLib/treehash.h:547-569 | the ancestors of a path are its nearest ancestor and that path's own ancestors |
| `Keys.CharacterFoldIsPathFold` | src/AspNetCoreModuleV2/IISLib/treehash.h:356-364 | any folding of characters that respects the two separators commutes with cutting a path |
| `Prime.IsPrime` | src/AspNetCoreModuleV2/IISLib/prime.h:60-81 | true exactly for the prime numbers and 1, without leaving 32 bits |
| `Prime.GetPrime` | src/AspNetCoreModuleV2/IISLib/prime.h:25-56 | at least the minimum: the least table entry that is, prime exactly up to a minimum of 7199369, or above the table the least prime from the minimum on, or the minimum itself when 32 bits hold no such prime |
| `Prime.SearchPrime` | src/AspNetCoreModuleV2/IISLib/prime.h:45-55 | the search branch finds the least prime at or above the minimum, and its candidate never wraps around |
| `Prime.TableAnswerIff` | src/AspNetCoreModuleV2/IISLib/prime.h:14-43 | the answer from the table is prime exactly when the minimum is at most 7199369 |
| `Prime.AnswerNotPrime` | src/AspNetCoreModuleV2/IISLib/prime.h:22 | a minimum of 8000000 is answered with 8649369, three times 2883123 |
| `PrimeTable.EntryIsPrimeIff` | src/AspNetCoreModuleV2/IISLib/prime.h:14-23 | of the precalculated numbers exactly those up to 7199369 are prime |
| `PrimeTable.TableAscends` | src/AspNetCoreModuleV2/IISLib/prime.h:14-23 | the table ascends, so its first entry at or above the minimum is its least |
| `TreeTables.TreeTable.Initialize` | src/AspNetCoreModuleV2/IISLib/treehash.h:235-285 | an empty table, or the error exactly when the bucket count is 0 or at least MAXDWORD divided by the pointer size |
| `TreeTables.TreeTable.FindKey` | src/AspNetCoreModuleV2/IISLib/treehash.h:385-407 | returns the record of the path's node with one more reference, or nothing for an empty or absent node |
| `TreeTables.TreeTable.AddNode` | src/AspNetCoreModuleV2/IISLib/treehash.h:410-513 | adds a node for a new path, fills an empty one, or reports that the path has a record; one reference is taken exactly when the record is stored |
| `TreeTables.TreeTable.FindAncestor` | src/AspNetCoreModuleV2/IISLib/treehash.h:543-568 | stops at the lowest ancestor that has a node, with the separators behind it cut |
| `TreeTables.TreeTable.AddLineage` | src/AspNetCoreModuleV2/IISLib/treehash.h:573-592 | creates the nodes below that ancestor, each under its nearest ancestor, and the record's node last |
| `TreeTables.TreeTable.InsertRecord` | src/AspNetCoreModuleV2/IISLib/treehash.h:515-602 | the paths with nodes are the old ones and the prefixes of the new path that end at its end or before a slash or backslash above position 0; only the new path's record changes, and only from empty |
| `TreeSpec.InsertedFacts` | src/AspNetCoreModuleV2/IISLib/treehash.h:515-602 | the result is closed under ancestors, every other path looks up as before, new nodes are for the path and its ancestors only, and a path that had a node adds none |
| `TreeSpec.InsertedFrom` | src/AspNetCoreModuleV2/IISLib/treehash.h:543-592 | starting at the lowest ancestor present adds all that is missing |
| `TreeTables.TreeTable.DeleteNodeInternal` | src/AspNetCoreModuleV2/IISLib/treehash.h:604-658 | takes the node and its descendants out of the chains and the tree, in any order of the child list, and drops each record once |
| `TreeTables.TreeTable.DeleteKey` | src/AspNetCoreModuleV2/IISLib/treehash.h:660-679 | removes exactly the path and what continues it with a slash or backslash, drops one reference on each record there and on no other, and lowers the count by the size of the subtree |
| `TreeSpec.PrunedFacts` | src/AspNetCoreModuleV2/IISLib/treehash.h:604-679 | the rest is closed under ancestors and looks up as before |
| `TreeSpec.ReleasedStep` | src/AspNetCoreModuleV2/IISLib/treehash.h:629-657 | releasing one part of a subtree and then another releases both, once |
| `TreeTables.TreeTable.DeleteIf` | src/AspNetCoreModuleV2/IISLib/treehash.h:681-739 | asks the predicate at most once per record, keeps exactly the records that it spares, under their paths, and every path that has such a record below it; a path that stays without a record had a path below it; each record taken out loses one reference |
| `TreeSpec.FilteredSurvivors` | src/AspNetCoreModuleV2/IISLib/treehash.h:695-736 | a path with a spared record keeps all its ancestors |
| `TreeSpec.AskOnce` | src/AspNetCoreModuleV2/IISLib/treehash.h:705-717 | a node that is visited again after it was emptied is not asked about again |
| `Families.Adopt` | src/AspNetCoreModuleV2/IISLib/treehash.h:493-509 | the new node becomes the first child of its parent and the tree is whole again |
| `Families.Uproot` | src/AspNetCoreModuleV2/IISLib/treehash.h:621-640 | a node leaves its parent's child list, and its children are the roots of what is still to be deleted |
| `Families.BelowAChild` | src/AspNetCoreModuleV2/IISLib/treehash.h:636-652 | every node below a node is below one of its children, so the recursion reaches all |
| `TreeSteps.StepKeepsInv` | src/AspNetCoreModuleV2/IISLib/treehash.h:451-592 | every atomic step of every inserter keeps the chains sorted and free of equal paths, parents right, child lists exact but for nodes in flight, and the count |
| `TreeSteps.NextCutParent` | src/AspNetCoreModuleV2/IISLib/treehash.h:573-590 | the prefix at the next separator has the current prefix as its nearest ancestor |
| `TreeSteps.NothingIsLost` | src/AspNetCoreModuleV2/IISLib/treehash.h:451-592 | in every interleaving nodes, their parents and filled record slots stay as they are |
| `TreeSteps.AncestorsPublished` | src/AspNetCoreModuleV2/IISLib/treehash.h:543-592 | in every reachable state each ancestor of a published path is published |
| `TreeSteps.ChildListsExact` | src/AspNetCoreModuleV2/IISLib/treehash.h:489-509 | when no insert is in flight each child list holds exactly the nodes that name that parent, once each, and the count is the number of nodes |
| `TreeSteps.ExactlyOneWins` | src/AspNetCoreModuleV2/IISLib/treehash.h:461-480 | of the threads that insert one path exactly one succeeds if the path carried no record, and none if it did; the path's node then carries the record of the one that succeeded |
| `TreeSteps.PathsAtTheEnd` | src/AspNetCoreModuleV2/IISLib/treehash.h:515-602 | the published paths at the end are those of the start and the prefixes of all inserted paths, cut before a slash or backslash or at the end, in whatever order the threads ran |
| `TreeSteps.FinishedReferences` | src/AspNetCoreModuleV2/IISLib/treehash.h:457-513 | when all inserts are over each thread that succeeded has taken one reference on its record, and no other thread has taken any |
| `TreeSteps.EmptyIsInitial` | src/AspNetCoreModuleV2/IISLib/treehash.h:235-285 | the runs of the step system may start on an empty table |
| `TreeSteps.FinishedIsInitial` | src/AspNetCoreModuleV2/IISLib/treehash.h:515-602 | what a finished run leaves is a table on which the next run may start |
| `TreeProgress.PublishedBound` | src/AspNetCoreModuleV2/IISLib/treehash.h:543-592 | all inserts together publish no more nodes than their paths have prefixes, which are no more than the paths have characters |
| `TreeProgress.FailsBounded` | src/AspNetCoreModuleV2/IISLib/treehash.h:451-509 | a thread's failed swaps, on chains and child lists, never outnumber the successful swaps it has not made itself |
| `TreeProgress.OwnStepCounts` | src/AspNetCoreModuleV2/IISLib/treehash.h:451-592 | each step of a thread leaves it fewer steps to go, failed swaps included |
| `TreeProgress.OthersStepCounts` | src/AspNetCoreModuleV2/IISLib/treehash.h:451-592 | a step of another thread never leaves it more |
| `TreeProgress.EveryInsertReturns` | src/AspNetCoreModuleV2/IISLib/treehash.h:451-592 | the retry loops on chains and child lists end: after a bounded number of its own steps a tree insert has returned, whatever the others do |
| `Base64.Base64Encode` | src/AspNetCoreModuleV2/IISLib/base64.cpp:7-126 | reports the exact size in 32 bits; with a buffer of that size, character k is the letter of the standard alphabet at the number that bits 6k to 6k+5 of the input spell, or padding behind the data, and a NUL follows and nothing else is written, for every input up to 3*2^30-3 bytes; on longer input it returns the overflow error without overrunning the buffer |
| `Base64.EncodedInAlphabet` | src/AspNetCoreModuleV2/IISLib/base64.cpp:78-99 | each data character of the encoding is the letter of the alphabet, written out as a text, at the number spelled by its six bits |
| `Base64.EncodeCluster` | src/AspNetCoreModuleV2/IISLib/base64.cpp:71-104 | one round writes the four characters of three bytes; an in-loop overflow return is taken only when the buffer is full |
| `Base64.PadAndTerminate` | src/AspNetCoreModuleV2/IISLib/base64.cpp:106-122 | the padding depends on the length modulo 3, and the length assertion holds |
| `Base64.SizeToEncode` | src/AspNetCoreModuleV2/IISLib/base64.cpp:49-52 | the computed size is the real one exactly up to 3*2^30-3 bytes |
| `Base64.Base64Decode` | src/AspNetCoreModuleV2/IISLib/base64.cpp:130-242 | exact error conditions; on an accepted text bit m of the output is bit m modulo 6 of the place of character m/6 in the alphabet, with padding as zero, and exactly cbDecoded bytes are filled; a refused text writes only the clusters before the bad one |
| `Base64.DecodedInAlphabet` | src/AspNetCoreModuleV2/IISLib/base64.cpp:161-236 | each accepted character contributes the six bits of its place in the alphabet |
| `Base64.ValueIs` | src/AspNetCoreModuleV2/IISLib/base64.cpp:161-170 | the decoding table gives a letter its place in the alphabet, the padding character 0, and every other character NA |
| `Base64.AcceptedIff` | src/AspNetCoreModuleV2/IISLib/base64.cpp:184-226 | a text is accepted exactly when its length is a positive multiple of four and it holds letters of the alphabet and padding characters only |
| `Base64.DecodeClusters` | src/AspNetCoreModuleV2/IISLib/base64.cpp:215-240 | the loop ends with exactly cbDecoded bytes written, and never writes beyond them |
| `Base64.DecodeAfterEncode` | src/AspNetCoreModuleV2/IISLib/base64.cpp:7-242 | decoding an encoding gives the same bytes; only the empty input has an encoding that is not accepted |
| `Base64.EncodeAfterDecode` | src/AspNetCoreModuleV2/IISLib/base64.cpp:130-242 | re-encoding an accepted text gives it back exactly when it is canonical |
| `Base64.SextetsOfOctets` | src/AspNetCoreModuleV2/IISLib/base64.cpp:77-98 | the shifts and masks of the encoder select the four sextets of 24 bits |
| `Base64.OctetsOfSextets` | src/AspNetCoreModuleV2/IISLib/base64.cpp:228-236 | the shifts of the decoder select the three octets of 24 bits |
| `Base64.LetterOfValue` | src/AspNetCoreModuleV2/IISLib/base64.cpp:36-42 | the two tables undo each other, but for the padding character |
| `Strings.Stra.AuxAppend` | src/AspNetCoreModuleV2/IISLib/stringa.cpp:1018-1050 | replaces the text behind the offset, or changes nothing when it would not fit in 32 bits |
| `Strings.Stra.EscapeInternal` | src/AspNetCoreModuleV2/IISLib/stringa.cpp:672-824 | leaves the escaped text, or the error and the old text; characters that do not fit are dropped as the unchecked append does |
| `Escape.EscapeRunIsEscaped` | src/AspNetCoreModuleV2/IISLib/stringa.cpp:672-824 | the outcome is the escaped text exactly when that text and its NUL fit in 32 bits |
| `Escape.EscapeMayTruncate` | src/AspNetCoreModuleV2/IISLib/stringa.cpp:800-808 | a text on which Escape reports success and loses characters |
| `Escape.EscapedLength` | src/AspNetCoreModuleV2/IISLib/stringa.cpp:605-824 | the escaped text is longer by two for each escaped character, and the same when there is none |
| `Escape.EscapedInCharacters` | src/AspNetCoreModuleV2/IISLib/stringa.cpp:605-798 | the characters that are escaped in a URL, one by one, and that an escape is a percent sign and the two upper-case digits of the character |
| `Escape.PercentStartsEscape` | src/AspNetCoreModuleV2/IISLib/stringa.cpp:605-798 | in an escaped URL every percent sign starts an escape of two upper-case digits, and no character that should be escaped is left |
| `Strings.Stra.Unescape` | src/AspNetCoreModuleV2/IISLib/stringa.cpp:826-941 | in place, with the destination never passing the source, leaves what Unescaped says for every text |
| `Escape.UnescapeIff` | src/AspNetCoreModuleV2/IISLib/stringa.cpp:826-941 | this is what the comment on the function promises exactly when the text has no escape, or nothing but percent signs stands between the first percent sign and the first escape |
| `Escape.DigitsAre` | src/AspNetCoreModuleV2/IISLib/stringa.cpp:865-889 | the hexadecimal digits in both cases and their values |
| `Escape.DecodeByte` | src/AspNetCoreModuleV2/IISLib/stringa.cpp:887-894 | a percent sign and two digits, in either case, decode to the byte that they spell |
| `Escape.DecodeWide` | src/AspNetCoreModuleV2/IISLib/stringa.cpp:865-886 | a percent sign, the letter u in either case and four digits decode to that character in the code page |
| `Escape.DecodeOther` | src/AspNetCoreModuleV2/IISLib/stringa.cpp:895-904 | every other character stands for itself, a percent sign that starts no escape included |
| `Escape.UnescapeLosesText` | src/AspNetCoreModuleV2/IISLib/stringa.cpp:895-930 | `a%b%41` becomes `a%A` |
| `Escape.UnescapeAfterEscape` | src/AspNetCoreModuleV2/IISLib/stringa.cpp:605-941 | Unescape gives back every NUL-free text from its escaped form |
| `Url.UnEscapeUrl` | src/AspNetCoreModuleV2/CommonLib/utility.cxx:96-150 | appends the decoded URL, whose pieces are converted chunk by chunk, or fails exactly when the result is too long |
| `Url.EscapeInCharacters` | src/AspNetCoreModuleV2/CommonLib/utility.cxx:114-131 | the text in front of an escape is converted as one piece, and the escape is the byte that its two digits spell, in either case |
| `Url.QueryInCharacters` | src/AspNetCoreModuleV2/CommonLib/utility.cxx:109-148 | the query is cut off at the first question mark, or kept when that is asked for |
| `Url.DecodersInvertEscape` | src/AspNetCoreModuleV2/CommonLib/utility.cxx:96-150 | both decoders give back every NUL-free text from its escaped form, with or without the query |
| `Url.EscapeRoundTrip` | src/AspNetCoreModuleV2/IISLib/stringa.cpp:672-941 | whenever the escaped text fits in 32 bits Escape succeeds with the length of the text plus two for each escaped character, and both decoders undo it |
| `AllocCache.StepMoves` | src/AspNetCoreModuleV2/IISLib/acache.cxx:208-317 | a step takes at most one block from one place to another, and which |
| `AllocCache.StepKeepsPlaces` | src/AspNetCoreModuleV2/IISLib/acache.cxx:208-317 | no step puts a block in two places or twice on a list |
| `AllocCache.StepKeepsSignatures` | src/AspNetCoreModuleV2/IISLib/acache.cxx:225-258 | cached blocks carry the free signature, owned blocks do not |
| `AllocCache.StepKeepsDepth` | src/AspNetCoreModuleV2/IISLib/acache.cxx:298-316 | a list and those about to push onto it stay within threshold and threads, as long as the depth fits in 16 bits |
| `AllocCache.ExactlyOnePlace` | src/AspNetCoreModuleV2/IISLib/acache.cxx:208-317 | in every run each block is in exactly one place: client, a thread's hands, one list, or the heap |
| `AllocCache.AllocReturnsUnowned` | src/AspNetCoreModuleV2/IISLib/acache.cxx:208-279 | Alloc never returns a block that is owned or still cached, and the debug checks on the signature hold |
| `AllocCache.FreeDoes` | src/AspNetCoreModuleV2/IISLib/acache.cxx:263-317 | Free puts the block in front of its processor's list while that is shorter than the threshold, and gives it to the heap otherwise |
| `AllocCache.AllocDoes` | src/AspNetCoreModuleV2/IISLib/acache.cxx:209-261 | Alloc takes the first block of that list, or one from the heap when the list is empty or caching is off, and clears its signature |
| `AllocCache.FreedIsReused` | src/AspNetCoreModuleV2/IISLib/acache.cxx:209-317 | a block that is freed and cached is what the next Alloc on its processor returns, and the state is as it was before |
| `AllocCache.LengthBoundIff` | src/AspNetCoreModuleV2/IISLib/acache.cxx:298-316 | no list ever exceeds threshold + threads - 1, or is ever filled when the threshold is 0 or less, exactly when the threshold is 0 or less or threshold + threads is at most 0x10000 |
| `AllocCache.Lookaside.CleanupList` | src/AspNetCoreModuleV2/IISLib/acache.cxx:162-175 | frees as many blocks as the 16-bit depth says and pops one more |
| `AllocCache.Lookaside.CleanupLookaside` | src/AspNetCoreModuleV2/IISLib/acache.cxx:142-207 | does so for every list |
| `AllocCache.CleanupIsComplete` | src/AspNetCoreModuleV2/IISLib/acache.cxx:142-207 | every block goes back to the heap exactly when all depths fit in 16 bits |
| `AllocCache.CleanupAfterRun` | src/AspNetCoreModuleV2/IISLib/acache.cxx:142-317 | after any run within that condition cleaning up empties every list and leaks nothing |
| `Disconnect.StepKeepsInv` | src/AspNetCoreModuleV2/RequestHandler/disconnectcontext.h:20-68 | every step of NotifyDisconnect, SetHandler and ResetHandler keeps one taker per stored pointer and the reference counts exact |
| `Disconnect.HeldMeansReferenced` | src/AspNetCoreModuleV2/CommonLib/requesthandler.h:15-34 | who has the pointer holds a reference |
| `Disconnect.OneTaker` | src/AspNetCoreModuleV2/RequestHandler/disconnectcontext.h:20-68 | of the calls that follow a SetHandler at most one obtains the pointer, exactly one once any has run; it drops the reference once, and terminates the request once exactly when it is a NotifyDisconnect |
| `Disconnect.TakerDecides` | src/AspNetCoreModuleV2/RequestHandler/disconnectcontext.h:20-70 | in every run it is a NotifyDisconnect or ResetHandler call that empties the slot; when all calls have returned the request has been terminated once exactly when it was NotifyDisconnect, and never exactly when it was ResetHandler, and the reference has been dropped once |
| `Disconnect.CallEmptiesSlot` | src/AspNetCoreModuleV2/RequestHandler/disconnectcontext.h:20-70 | in every run either call leaves the slot empty |
| `Disconnect.CallOnSlot` | src/AspNetCoreModuleV2/RequestHandler/disconnectcontext.h:20-70 | on a filled slot either call empties it and goes on according to its name; on an empty one it does nothing |
| `Disconnect.CallSetStores` | src/AspNetCoreModuleV2/RequestHandler/disconnectcontext.h:34-57 | SetHandler takes one reference on the handler that it is given, and then stores it |
| `Disconnect.AliveWhileHeld` | src/AspNetCoreModuleV2/RequestHandler/disconnectcontext.h:26-30 | TerminateRequest and the last dereference run only while that reference keeps the handler alive; afterwards only outside references are left |
| `ListEntry.InitializeListHead` | src/AspNetCoreModuleV2/IISLib/listentry.h:18-25 | the head alone is an empty list |
| `ListEntry.IsListEmpty` | src/AspNetCoreModuleV2/IISLib/listentry.h:27-34 | true exactly for the empty list |
| `ListEntry.LinksInverse` | src/AspNetCoreModuleV2/IISLib/listentry.h:18-133 | on every ring Flink and Blink undo each other |
| `ListEntry.RemoveEntryList` | src/AspNetCoreModuleV2/IISLib/listentry.h:36-50 | takes the entry out of its ring, writing its neighbours only, and returns true exactly when at most one entry is left |
| `ListEntry.RemoveHeadList` | src/AspNetCoreModuleV2/IISLib/listentry.h:52-66 | removes the first entry; on an empty list returns the head and changes nothing |
| `ListEntry.RemoveTailList` | src/AspNetCoreModuleV2/IISLib/listentry.h:70-84 | removes the last entry likewise |
| `ListEntry.InsertTailList` | src/AspNetCoreModuleV2/IISLib/listentry.h:87-101 | adds at the end |
| `ListEntry.InsertHeadList` | src/AspNetCoreModuleV2/IISLib/listentry.h:104-118 | adds at the front |
| `ListEntry.AppendTailList` | src/AspNetCoreModuleV2/IISLib/listentry.h:120-133 | appends a ring without a head, starting with the given entry |
| `ListEntry.PopEntryList` | src/AspNetCoreModuleV2/IISLib/listentry.h:135-148 | removes the first entry of a singly linked list, or returns null |
| `ListEntry.PushEntryList` | src/AspNetCoreModuleV2/IISLib/listentry.h:151-160 | adds in front of a singly linked list |
| `MultiSz.DecodeUnique` | src/AspNetCoreModuleV2/IISLib/multisz.h:10-40 | a buffer encodes one list of nonempty strings only |
| `MultiSz.CalcLength` | src/AspNetCoreModuleV2/IISLib/multisz.cpp:25-46 | length and number of strings of the encoded list; for the empty list 1, not the 2 that Reset sets |
| `MultiSz.Multisz.constructor` | src/AspNetCoreModuleV2/IISLib/multisz.h:42-44 | a default-constructed object is an empty list |
| `MultiSz.Multisz.Reset` | src/AspNetCoreModuleV2/IISLib/multisz.h:97-104 | the list is empty |
| `MultiSz.Multisz.AuxAppend` | src/AspNetCoreModuleV2/IISLib/multisz.cpp:160-232 | the strings go to the end of the list, the count and length are recomputed, and nothing changes when 32 bits would be exceeded |
| `MultiSz.Multisz.Append` | src/AspNetCoreModuleV2/IISLib/multisz.h:82-90 | a nonempty string is added at the end, an empty one is not |
| `MultiSz.ClippedIff` | src/AspNetCoreModuleV2/IISLib/multisz.h:82-90 | the byte count in 32 bits cuts nothing off exactly below 2^31 characters |
| `MultiSz.Multisz.Copy` | src/AspNetCoreModuleV2/IISLib/multisz.h:106-114 | the list becomes a copy of the other; an object copied onto itself becomes empty |
| `MultiSz.Multisz.FindString` | src/AspNetCoreModuleV2/IISLib/multisz.cpp:49-83 | decides membership |
| `MultiSz.Multisz.First` | src/AspNetCoreModuleV2/IISLib/multisz.h:179-180 | where the first string is, if there is one |
| `MultiSz.Multisz.Next` | src/AspNetCoreModuleV2/IISLib/multisz.h:182-184 | where the string behind the current one is, if there is one |
| `MultiSz.Multisz.Equals` | src/AspNetCoreModuleV2/IISLib/multisz.cpp:340-372 | decides equality of the lists |
| `CommaList.SplitCommaDelimitedString` | src/AspNetCoreModuleV2/IISLib/multisz.cpp:374-472 | the list becomes the entries of the text, under either empty-entry flag |
| `CommaList.EntriesAreFields` | src/AspNetCoreModuleV2/IISLib/multisz.cpp:374-472 | these are the nonempty ones among the fields, trimmed if asked |
| `CommaList.FieldsJoin` | src/AspNetCoreModuleV2/IISLib/multisz.cpp:417-465 | the fields join to the text again and contain no comma |
| `CommaList.JoinInCharacters` | src/AspNetCoreModuleV2/IISLib/multisz.cpp:417-465 | joining puts one comma between two fields |
| `CommaList.TrimIs` | src/AspNetCoreModuleV2/IISLib/multisz.cpp:434-446 | trimming takes all blanks, tabs and carriage returns off both ends and nothing else |
| `CommaList.TrimEnds` | src/AspNetCoreModuleV2/IISLib/multisz.cpp:434-446 | the two loops find the trimmed entry |
| `Environment.CopyToBlock` | src/AspNetCoreModuleV2/RequestHandler/environmentvariablehelpers.h:12-26 | Apply with CopyToMultiSz appends the name and value of every table entry, and leaves out only those for which the block is too long for 32 bits when their turn comes |
| `Environment.OneStringPerEntry` | src/AspNetCoreModuleV2/RequestHandler/environmentvariablehelpers.h:12-26 | the strings are the name followed by the value of the entries in which these are not both empty, and as many as there are entries exactly when none is empty |
| `Version.CompareAntisymmetric` | src/AspNetCoreModuleV2/CommonLib/fx_ver.cxx:70-103 | 0 only for identical versions, and the sign changes with the order of the arguments |
| `Version.CompareTransitive` | src/AspNetCoreModuleV2/CommonLib/fx_ver.cxx:70-103 | the order is transitive, so total |
| `Version.TextOrder` | src/AspNetCoreModuleV2/CommonLib/fx_ver.cxx:95-102 | the same for the text comparison it relies on |
| `Version.CompareTextIs` | src/AspNetCoreModuleV2/CommonLib/fx_ver.cxx:95-102 | that comparison goes by the first differing character, and a proper prefix is lower |
| `Version.Precedence` | src/AspNetCoreModuleV2/CommonLib/fx_ver.cxx:70-103 | major, minor and patch decide in this order, then a release is above its prereleases, then the text of the prerelease decides, then that of the build |
| `Version.PlaceValues` | src/AspNetCoreModuleV2/CommonLib/fx_ver.cxx:105-117 | a digit is worth its distance from 0, times ten for each digit behind it |
| `Version.NumberOfDigits` | src/AspNetCoreModuleV2/CommonLib/fx_ver.cxx:105-117 | a printed number reads as itself |
| `Version.ParsedIsPlain` | src/AspNetCoreModuleV2/CommonLib/fx_ver.cxx:165-183 | a parsed prerelease does not start with a digit and has no plus sign |
| `Version.ParseIff` | src/AspNetCoreModuleV2/CommonLib/fx_ver.cxx:119-184 | a text parses to a version exactly when it spells one: three numbers in digits between dots, then an optional prerelease that does not start with a digit, then an optional build behind the first plus sign |
| `Version.ParseThrowsIff` | src/AspNetCoreModuleV2/CommonLib/fx_ver.cxx:105-184 | parsing throws exactly when one of the numbers that it comes to is too large for 32 bits |
| `Version.ParseProductionIff` | src/AspNetCoreModuleV2/CommonLib/fx_ver.cxx:158-163 | parsing production versions only accepts exactly the texts that end with the third number |
| `Version.ParseAfterPrint` | src/AspNetCoreModuleV2/CommonLib/fx_ver.cxx:55-184 | parsing the text of a version gives it back exactly when its numbers are not negative and its prerelease is plain |
| `Version.FindHighestDotNetVersion` | src/AspNetCoreModuleV2/CommonLib/utility.cxx:509-531 | the text of a version such that no parsed folder has a higher triple of numbers, none with the same triple is a release when it is a prerelease, and none is above it; the base when none parses; an exception exactly when a number in some name is too large |
| `Version.HighestUnique` | src/AspNetCoreModuleV2/CommonLib/utility.cxx:509-531 | the result does not depend on the order of the folders |

## Left out

- Tree `Clear` and `Apply`: the same walks over the buckets as in the hash table.
- TreeTables.TreeTable.InsertRecord: empty keys, on which the original's length arithmetic wraps around and it reads outside the key.
- Lookups in the tree table among its concurrent inserts, whose walk is that of `HashLookups`; and the rehash that follows an insert, which takes the lock exclusively.
- The reader-writer lock itself, which is taken to do what its name says.
- Failing allocations and failing lock initialisation, and a second `Initialize` of one table.
- Alloc and Free of the allocation cache, and the disconnect context, are step systems on values; they have no class form, as their claims are about interleavings. `CleanupLookaside`, which runs alone, is a class.
- The allocation cache's counter `m_nTotal`, a debugging hint that is not interlocked, and its fill pattern; clients are taken not to write the signature.
- Wrap-around of reference counts.
- Strings.Stra.EscapeInternal: texts of 2^31 characters or more, on which the original's `int` index overflows.
- Strings.Stra.AppendW: the conversion of wide characters is given by its result; the error code for a result that is too long is not modelled.
- Url.UnEscapeUrl: `iswxdigit` is taken to accept the ASCII digits only.
- MultiSz.Multisz.Copy: an object copied onto itself whose buffer has to grow, so that freed memory would be read.
- MultiSz.Multisz.AuxAppend: buffers whose size is not a whole number of characters, and copies of an odd number of bytes.
- The multi-string constructor over a caller's buffer, which does not reset it, and the searches that ignore case.
- The assertion in `fx_ver_t::parse` that a parsed text prints again as it was; leading zeros do not.
- `EscapeUtf8`, the same escaper with another predicate: it leaves `%` as it is, so nothing undoes it.
- The copy of the library under `src/AspNetCoreModuleV1`.
- Narrow forms of base64, hashing and multi-strings, which repeat the wide ones.
- Calls into Windows, IIS, WinHTTP and the runtime host, configuration, logging, and the managed code.
