# Princeton algorithms assignments, modelled in Dafny

This project models the logic of a set of course assignments written in Java
and proves properties about them. The main part is the week 10
Burrows–Wheeler / move-to-front compression pipeline. The other parts are the
deterministic logic of the earlier weeks:

- a doubly linked deque and a resizing randomized queue (week 2);
- percolation bookkeeping on an n-by-n grid (week 1);
- the Boggle solver stack: rolling word hashes, the dictionary maps and the
  iterative depth-first search over the board (week 9);
- baseball elimination: team records, trivial elimination and the
  flow-network construction (week 8);
- seam validation and the column shortest path of seam carving (week 7);
- the shortest-ancestral-path searches over a digraph (week 6).

How the model is organised:

- **Circular suffixes and their order.** `CircularSuffixes` holds a rotation
  of a string and its comparison. `LsdSort` holds the radix sort, as an
  array method proved equal to a sequence of stable counting passes.
  `SuffixOrder` defines the sorted-suffix order: a strictly increasing
  arrangement of the offsets, which is unique. `CircularSuffixArrays` keeps
  the sorted suffixes in an array.
- **The transform.** `BwtSpec` states what the transform and its inverse
  compute. `BwtTheory` proves that the inverse undoes the transform.
  `BurrowsWheelerString` and `BurrowsWheelerStream` are the string and byte
  stream programs, loop by loop, each proved equal to those functions.
  `BwtVectors` works out the ABRACADABRA! example.
- **Move-to-front.** `MtfSpec` models a symbol list and its promotion. It
  proves that the `cypher`/`index` pair stays a pair of inverse
  permutations, and that decoding and encoding undo each other.
  `MtfRecency` is an independent definition: a symbol's code counts the
  distinct symbols used since its last use. `MoveToFrontData`,
  `MoveToFrontChar` and `MoveToFrontStream` are the array programs.
  `MoveToFront` repeats `initArray`/`encodeChar` and `encode`/`decode(char[])`
  in a nested `MTFData`. These copies are the same text as
  `MoveToFrontData` and `MoveToFrontChar`, so they are modelled once.
- **The other weeks** follow the same pattern: a class with the Java class's
  fields where the Java code updates objects in place, functions for what it
  computes, and lemmas relating the two.

Exceptions are values. Each operation that can throw returns a `Result`,
and the error names the Java exception (`IllegalArgument`,
`NoSuchElement`, `IndexOutOfBounds`, `NullPointer`, …). A Java `null`
argument becomes an `Option`. Java `char` is a 16-bit value (`Char16`),
and a byte of the standard streams is a `Byte`.

Behaviour that is easy to get wrong, modelled as the code has it:

- The string form of `transform` writes header character `j` as
  `(char) (i >> 8*(3-j))`. That cast keeps 16 bits, so the header holds the
  bytes of `i` only while `i < 256`.
- `BFS.sync` chooses the same two sets in both branches.
- `BFS.step` keeps going after the two searches meet.
- `SAP`'s nested `MultiBFS.bfs` does not check whether a start vertex is
  already shared.
- `MultiBFS.bfsMaster`'s loop guard `aSize > 0 || bSize > 0 && ancestor < 0`
  binds the `&&` first.
- `SAP.ErrorOnCycle.dfs` never marks a vertex as seen. A cycle that does not
  pass through the vertex being checked makes it recurse without end, which
  the model reports as `StackOverflow` once the recursion is deeper than the
  graph has vertices.
- `SeamCarver.validateSeam` expects a horizontal seam to have one entry per
  row, not one per column.

Where a discrepancy looks unintended, it is listed under Findings. The model
keeps both halves. The classes and methods that stand for the Java methods
(`BurrowsWheelerStream.Transform`, `Saps.MultiBfs`, `Saps.Sap`,
`MultiBfses.MultiBfs`) model the code as written. The corrected behaviour is
a separate function (`TransformFixed`, `SapSearchChecked`, `MultiSearch` with
the corrected guard), and the intended property is proved about it.

## Model

| member | source | states |
|---|---|---|
| CircularSuffixes.CircularSuffix.CharAt | week_10/src/main/java/CircularSuffix.java:17-21 | on a non-empty string, `charAt(i)` is character `i` of the left rotation by `offset` |
| CircularSuffixes.CircularSuffix.ToString | week_10/src/main/java/CircularSuffix.java:57-64 | `toString` has the string's length and is the rotation by `offset` |
| CircularSuffixes.CompareFrom | week_10/src/main/java/CircularSuffix.java:80-86 | the comparison loop from position `i`: negative, positive or zero exactly when the remaining characters compare less, greater or equal; a non-zero result is the difference at the first differing position |
| CircularSuffixes.CircularSuffix.CompareTo | week_10/src/main/java/CircularSuffix.java:75-87 | throws IllegalArgument exactly when the lengths differ; otherwise the sign is the lexicographic order of the two rotations, and zero means they are equal |
| CircularSuffixes.CircularSuffix.Equals | week_10/src/main/java/CircularSuffix.java:98-107 | a non-suffix or null gives false, as do different offsets; equal offsets throw when the lengths differ; the result is true exactly when the offsets and rotations agree |
| CircularSuffixes.EqualsReflexive | week_10/src/main/java/CircularSuffix.java:98-107 | a suffix equals itself |
| LsdSort.Sort | week_10/src/main/java/CircularSuffix.java:34-54 | the array ends as the passes `d = N-1 .. 0` applied to its old contents |
| LsdSort.SortPass | week_10/src/main/java/CircularSuffix.java:37-53 | one pass of the outer loop advances the array from the passes above `d` to the passes from `d` |
| LsdSort.CountingPass | week_10/src/main/java/CircularSuffix.java:38-52 | one counting pass on position `d`: the array becomes the stable pass of its old contents |
| LsdSort.Histogram | week_10/src/main/java/CircularSuffix.java:38-42 | `count[c + 1]` is the number of suffixes whose character at `d` is `c` |
| LsdSort.CountOne | week_10/src/main/java/CircularSuffix.java:40-41 | counting one more suffix keeps the histogram exact |
| LsdSort.Cumulate | week_10/src/main/java/CircularSuffix.java:43-45 | `count[c]` becomes the number of keys below `c`, the start of bucket `c` |
| LsdSort.Distribute | week_10/src/main/java/CircularSuffix.java:46-51 | `aux` receives the stable pass of the suffixes |
| LsdSort.DealOne | week_10/src/main/java/CircularSuffix.java:47-50 | dealing one suffix puts it at its destination and advances its bucket |
| LsdSort.ArrayCopy | week_10/src/main/java/CircularSuffix.java:52 | `suffixes` becomes a copy of `aux` |
| LsdSort.KeyBelow | week_10/src/main/java/CircularSuffix.java:38-41 | with every character below `R`, each key fits the `R + 1` slots of `count` |
| LsdSort.PassStable | week_10/src/main/java/CircularSuffix.java:46-51 | two suffixes with the same key keep their relative order |
| LsdSort.PassByKey | week_10/src/main/java/CircularSuffix.java:46-51 | the output of a pass is ordered by the key |
| LsdSort.PassMultiset | week_10/src/main/java/CircularSuffix.java:46-51 | a pass is a rearrangement of its input |
| LsdSort.DestsPermutation | week_10/src/main/java/CircularSuffix.java:43-51 | the destinations of a pass are a permutation of the output positions |
| LsdSort.PassSorts | week_10/src/main/java/CircularSuffix.java:37-53 | a stable pass on `d` over input sorted from `d + 1` leaves it sorted from `d` |
| LsdSort.LsdSorts | week_10/src/main/java/CircularSuffix.java:37-53 | the passes from `N-1` down to `d` rearrange the input and sort it on the characters from `d` on |
| LsdSort.SortOrdersRotations | week_10/src/main/java/CircularSuffix.java:34-54 | after all passes the suffixes are a rearrangement of the input in non-decreasing order of their rotations, and consecutive `compareTo`s are never positive |
| SuffixOrder.Order | week_10/src/main/java/CircularSuffixArray.java:16-18 | the sorted-suffix order holds each offset `0 .. N-1` exactly once |
| SuffixOrder.OrderSorted | week_10/src/main/java/CircularSuffixArray.java:18 | that order is strictly increasing: by rotation, then by offset |
| SuffixOrder.OrderUnique | week_10/src/main/java/CircularSuffixArray.java:18 | any strictly sorted arrangement of the offsets is that order |
| CircularSuffixArrays.SortSuffixes | week_10/src/main/java/CircularSuffixArray.java:18 | `Arrays.sort` leaves the suffixes of `s` in the array, with offsets in sorted-suffix order |
| CircularSuffixArrays.ShiftGreater | week_10/src/main/java/CircularSuffixArray.java:18 | the insertion step moves right exactly the entries whose rotation is greater than the new one |
| CircularSuffixArrays.CircularSuffixArray.constructor | week_10/src/main/java/CircularSuffixArray.java:10-19 | the array holds `s`, its length and the sorted suffixes |
| CircularSuffixArrays.New | week_10/src/main/java/CircularSuffixArray.java:11-13 | a null string throws IllegalArgument; otherwise a fresh, valid array over `s` |
| CircularSuffixArrays.CircularSuffixArray.Length | week_10/src/main/java/CircularSuffixArray.java:22-24 | `length()` is the length of `s` |
| CircularSuffixArrays.CircularSuffixArray.Index | week_10/src/main/java/CircularSuffixArray.java:27-32 | throws IllegalArgument exactly when `i < 0` or `i >= N`; otherwise the offset at sorted position `i` |
| CircularSuffixArrays.IndexPermutation | week_10/src/main/java/CircularSuffixArray.java:35-39 | the indices are a permutation of `0 .. N-1` |
| CircularSuffixArrays.IndexNonDecreasing | week_10/src/test/java/CircularSuffixArrayTest.java:24-32 | consecutive sorted suffixes compare at most 0 |
| CircularSuffixArrays.IndexStable | week_10/src/main/java/CircularSuffixArray.java:18 | equal rotations keep ascending offset order |
| BwtSpec.LastColumnAt | week_10/src/main/java/BurrowsWheelerString.java:61 | output character `i` is `charAt(N-1)` of the suffix at sorted position `i` |
| BwtSpec.Position0Unique | week_10/src/main/java/BurrowsWheelerString.java:55 | only one sorted position holds offset 0 |
| BwtSpec.Header | week_10/src/main/java/BurrowsWheelerString.java:56-59 | four header characters, each `(char) (i >> 8*(3-j))`; below 256 they are `0, 0, 0, i`, and the last one always keeps 16 bits of `i` |
| BwtSpec.HeaderNotBytes | week_10/src/main/java/BurrowsWheelerString.java:58 | at position 256 the last header character is 256, not a byte |
| BwtSpec.TransformSpec | week_10/src/main/java/BurrowsWheelerString.java:47-64 | `N + 4` characters: the header of the unrotated string's position, then the last column; empty input gives four zero characters |
| BwtSpec.FirstColumnFacts | week_10/src/main/java/BurrowsWheelerString.java:23-31 | the counted layout `suffixB` holds the characters of `s` in ascending order |
| BwtSpec.NextAt | week_10/src/main/java/BurrowsWheelerString.java:32-36 | `next[i]` is a position of `s` holding the character `suffixB[i]` |
| BwtSpec.NextIsPermutation | week_10/src/main/java/BurrowsWheelerString.java:17-21 | `next` is a permutation of `0 .. N-1` |
| BwtSpec.InverseSpec | week_10/src/main/java/BurrowsWheelerString.java:38-44 | the walk along `next` emits `N` characters |
| BwtTheory.LastColumnMultiset | week_10/src/main/java/BurrowsWheelerString.java:53-62 | the last column holds the characters of the input |
| BwtTheory.SortedRotsSorted | week_10/src/main/java/CircularSuffixArray.java:18 | the rotations in sorted-suffix order are sorted |
| BwtTheory.FirstColumnIsHeads | week_10/src/main/java/BurrowsWheelerString.java:16-31 | counting the last column recovers the first characters of the sorted rotations |
| BwtTheory.NextStep | week_10/src/main/java/BurrowsWheelerString.java:32-36 | `next` leads from each sorted rotation to its rotation by one place |
| BwtTheory.WalkRotations | week_10/src/main/java/BurrowsWheelerString.java:39-43 | after `j` steps from the unrotated string's position the walk is at rotation `j` |
| BwtTheory.InverseTransformsBack | week_10/src/main/java/BurrowsWheelerString.java:8-64 | inverting the last column from the unrotated string's position gives back the input, for characters below 256 |
| BurrowsWheelerString.Transform | week_10/src/main/java/BurrowsWheelerString.java:47-64 | `transform(s)` returns the header and the last column |
| BurrowsWheelerString.TransformWith | week_10/src/main/java/BurrowsWheelerString.java:51-63 | the body after the suffix array is built computes the same |
| BurrowsWheelerString.EmitAll | week_10/src/main/java/BurrowsWheelerString.java:53-62 | the loop writes every row of the output |
| BurrowsWheelerString.Blank | week_10/src/main/java/BurrowsWheelerString.java:51 | a zeroed array of `N + 4` characters |
| BurrowsWheelerString.TransformAssembled | week_10/src/main/java/BurrowsWheelerString.java:51-63 | the finished loop's array is the transform |
| BurrowsWheelerString.SortedOffset | week_10/src/main/java/BurrowsWheelerString.java:54 | `csa.index(i)` is the offset at sorted position `i` |
| BurrowsWheelerString.EmitSorted | week_10/src/main/java/BurrowsWheelerString.java:54-61 | one pass writes row `i` |
| BurrowsWheelerString.EmitRow | week_10/src/main/java/BurrowsWheelerString.java:55-61 | row `i` writes the header when its offset is 0, and its last character |
| BurrowsWheelerString.WriteHeader | week_10/src/main/java/BurrowsWheelerString.java:56-59 | the first four characters become the header; the rest are left alone |
| BurrowsWheelerString.InverseTransform | week_10/src/main/java/BurrowsWheelerString.java:8-45 | a character of 256 or more throws IndexOutOfBounds; a null offset throws NullPointer; on non-empty input an offset outside `0 .. N-1` throws IndexOutOfBounds; otherwise the walk from the offset |
| BurrowsWheelerString.CountChars | week_10/src/main/java/BurrowsWheelerString.java:16-22 | `buckets[c]` counts `c`, and queue `c` holds its positions in increasing order |
| BurrowsWheelerString.CountNext | week_10/src/main/java/BurrowsWheelerString.java:18-21 | one pass counts one more character and queues its position |
| BurrowsWheelerString.LayOut | week_10/src/main/java/BurrowsWheelerString.java:23-31 | `suffixB` is the first column: the characters in ascending order |
| BurrowsWheelerString.LinkNext | week_10/src/main/java/BurrowsWheelerString.java:32-36 | `next` matches the `k`-th occurrence of a character in `suffixB` with its `k`-th occurrence in `s` |
| BurrowsWheelerString.TakeNext | week_10/src/main/java/BurrowsWheelerString.java:34-35 | one dequeue fills `next[i]` and leaves the queues pending for `i + 1` |
| BurrowsWheelerString.PendingStep | week_10/src/main/java/BurrowsWheelerString.java:35 | the dequeue removes the front of one queue and leaves the others |
| BurrowsWheelerString.FollowNext | week_10/src/main/java/BurrowsWheelerString.java:38-44 | reads `N` characters of `suffixB` along `next` from the offset |
| BurrowsWheelerStream.Chars | week_10/src/main/java/BurrowsWheeler.java:15 | `readString` turns each byte into one character |
| BurrowsWheelerStream.CharsBytes | week_10/src/main/java/BurrowsWheeler.java:29 | writing characters below 256 as bytes and reading them back gives the characters |
| BurrowsWheelerStream.ReadIntBytes | week_10/src/main/java/BurrowsWheeler.java:28 | reading back an int written with `write(int)` gives that int |
| BurrowsWheelerStream.IntBytesRead | week_10/src/main/java/BurrowsWheeler.java:36 | writing an int read with `readInt` gives back the four bytes |
| BurrowsWheelerStream.TransformOut | week_10/src/main/java/BurrowsWheeler.java:12-31 | `transform()` writes nothing for an empty input; otherwise `N + 4` bytes |
| BurrowsWheelerStream.InverseOut | week_10/src/main/java/BurrowsWheeler.java:35-72 | fewer than four bytes throws NoSuchElement; a non-empty last column with an offset outside it throws IndexOutOfBounds; otherwise one byte out per byte in |
| BurrowsWheelerStream.InverseExtended | week_10/src/main/java/BurrowsWheeler.java:68 | the inverse writes only characters below 256 |
| BurrowsWheelerStream.Transform | week_10/src/main/java/BurrowsWheeler.java:12-31 | `transform()` as written: nothing for an empty input, otherwise the sorted position of the unrotated input as an int and then the last column |
| BurrowsWheelerStream.SortedLasts | week_10/src/main/java/BurrowsWheeler.java:18-27 | the loop finds the unrotated string's position and collects the last column |
| BurrowsWheelerStream.VisitSuffix | week_10/src/main/java/BurrowsWheeler.java:22-26 | one pass records `first` once the unrotated suffix is passed, and appends one last character |
| BurrowsWheelerStream.InverseTransform | week_10/src/main/java/BurrowsWheeler.java:35-72 | `inverseTransform()` writes what `InverseOut` states |
| BurrowsWheelerStream.RoundTrip | week_10/src/test/java/BurrowsWheelerTest.java:72-80 | the inverse undoes `transform()` on every non-empty input that fits a Java int |
| BurrowsWheelerStream.EmptyRoundTrip | week_10/src/main/java/BurrowsWheeler.java:13-14 | the empty input is written as nothing, which `inverseTransform()` cannot read |
| BurrowsWheelerStream.TransformFixed | week_10/src/main/java/BurrowsWheeler.java:12-31 | with the header always written, the output has `N + 4` bytes and agrees with `transform()` on non-empty input |
| BurrowsWheelerStream.RoundTripAll | week_10/src/main/java/BurrowsWheeler.java:12-72 | with the header always written, the inverse undoes the transform on every input that fits a Java int |
| BwtVectors.AbraOrder | week_10/src/test/java/CircularSuffixArrayTest.java:24-32 | the sorted-suffix order of "ABRACADABRA!" |
| BwtVectors.AbraPosition0 | week_10/src/test/java/BurrowsWheelerTest.java:43-50 | the unrotated "ABRACADABRA!" sorts at position 3 |
| BwtVectors.AbraLastColumn | week_10/src/test/java/BurrowsWheelerTest.java:43-50 | its last column is "ARD!RCAAAABB" |
| BwtVectors.AbracadabraTransform | week_10/src/test/java/BurrowsWheelerTest.java:43-50 | `transform("ABRACADABRA!")` is `00 00 00 03` then "ARD!RCAAAABB" |
| BwtVectors.AbracadabraInverse | week_10/src/test/java/BurrowsWheelerTest.java:56-66 | `inverseTransform("ARD!RCAAAABB", 3)` is "ABRACADABRA!" |
| MtfSpec.Identity | week_10/src/main/java/MoveToFrontData.java:4-10 | `initArray()` is the identity `0 .. 255` |
| MtfSpec.InverseList | week_10/src/main/java/MoveToFrontData.java:12-22 | inverse `cypher`/`index` arrays hold a symbol list, and `index` gives the positions |
| MtfSpec.Pos | week_10/src/main/java/MoveToFrontData.java:13 | `index[c]` is the one position of `c` in the list |
| MtfSpec.PromoteAt | week_10/src/main/java/MoveToFrontData.java:14-19 | promotion puts the symbol at 0, moves the entries before it down one place, and leaves those after it |
| MtfSpec.PromoteList | week_10/src/main/java/MoveToFrontData.java:14-19 | promotion keeps a permutation of the alphabet |
| MtfSpec.PromoteInverse | week_10/src/main/java/MoveToFrontData.java:14-20 | promoting in both arrays keeps them inverse permutations |
| MtfSpec.EncodeRun | week_10/src/main/java/MoveToFrontChar.java:4-13 | encoding fails with IndexOutOfBounds exactly when a symbol is 256 or more; otherwise one code below 256 per symbol |
| MtfSpec.DecodeRun | week_10/src/main/java/MoveToFrontChar.java:14-26 | decoding fails with IndexOutOfBounds exactly when a code is 256 or more; otherwise one symbol below 256 per code |
| MtfSpec.EncodeRunSnoc | week_10/src/main/java/MoveToFrontChar.java:9-11 | one symbol more appends its position and promotes it |
| MtfSpec.DecodeRunSnoc | week_10/src/main/java/MoveToFrontChar.java:19-24 | one code more appends the symbol at that position and promotes it |
| MtfSpec.DecodeEncodeRun | week_10/src/main/java/MoveToFrontChar.java:4-26 | decoding the codes from the same list walks through the same lists and gives back the symbols |
| MtfSpec.EncodeDecodeRun | week_10/src/main/java/MoveToFrontChar.java:4-26 | encoding the decoded symbols gives back the codes |
| MtfSpec.DecodeEncode | week_10/src/main/java/MoveToFront.java:18-54 | `decode(encode(x)) == x` for symbols below 256 |
| MtfSpec.EncodeDecode | week_10/src/main/java/MoveToFrontChar.java:4-26 | `encode(decode(c)) == c` for codes below 256 |
| MtfRecency.Recent | week_10/src/main/java/MoveToFrontData.java:12-22 | the distinct symbols seen, most recent first |
| MtfRecency.EncodeRecency | week_10/src/main/java/MoveToFrontChar.java:4-13 | from the identity list, the list is always the recent symbols followed by the unseen ones, and the codes are the recency codes |
| MtfRecency.EncodeCodes | week_10/src/main/java/MoveToFrontChar.java:4-13 | the codes `encode` produces are the recency codes |
| MtfRecency.ReplayCodes | week_10/src/main/java/MoveToFrontChar.java:9-11 | reading the rest of a message continues the codes of its beginning |
| MtfRecency.AbracadabraCodes | week_10/src/test/java/MoveToFrontTest.java:15-22 | `encode("ABRACADABRA!")` gives `41 42 52 02 44 01 45 01 04 04 02 26` |
| MtfRecency.AbracadabraDecode | week_10/src/test/java/MoveToFrontTest.java:24-32 | `decode` of those codes gives "ABRACADABRA!" |
| MoveToFrontData.InitArray | week_10/src/main/java/MoveToFrontData.java:4-10 | a fresh array holding the identity |
| MoveToFrontData.CloneArray | week_10/src/main/java/MoveToFrontChar.java:7 | `cypher.clone()` is a fresh array with the same entries |
| MoveToFrontData.PushBack | week_10/src/main/java/MoveToFrontData.java:14-18 | the loop shifts `cypher[0 .. charPos-1]` one place up and adds one to their `index` entries |
| MoveToFrontData.EncodeChar | week_10/src/main/java/MoveToFrontData.java:12-22 | a symbol outside the alphabet throws IndexOutOfBounds and changes nothing; otherwise it returns the old `index[encChar]`, promotes the symbol in `cypher`, reindexes `index`, and keeps the arrays inverse |
| MoveToFrontChar.Fresh | week_10/src/main/java/MoveToFrontChar.java:6-7 | two distinct fresh identity arrays, inverse to each other |
| MoveToFrontChar.Encode | week_10/src/main/java/MoveToFrontChar.java:4-13 | `encode(chars)` is the encoding from the identity list, or its IndexOutOfBounds |
| MoveToFrontChar.EncodeNext | week_10/src/main/java/MoveToFrontChar.java:10 | one pass succeeds exactly for a symbol below 256 and extends the encoding |
| MoveToFrontChar.EncodeRejects | week_10/src/main/java/MoveToFrontChar.java:10 | any symbol of 256 or more makes encoding fail |
| MoveToFrontChar.Decode | week_10/src/main/java/MoveToFrontChar.java:14-26 | `decode(chars)` is the decoding from the identity list, or its IndexOutOfBounds |
| MoveToFrontChar.DecodeNext | week_10/src/main/java/MoveToFrontChar.java:20-23 | one pass succeeds exactly for a code below 256 and extends the decoding |
| MoveToFrontChar.DecodeRejects | week_10/src/main/java/MoveToFrontChar.java:21 | any code of 256 or more makes decoding fail |
| MoveToFrontStream.Widen | week_10/src/main/java/MoveToFront.java:11 | `readChar` reads a byte as a symbol |
| MoveToFrontStream.Encode | week_10/src/main/java/MoveToFront.java:7-15 | `encode()` writes one byte per byte read: the move-to-front codes |
| MoveToFrontStream.WriteCode | week_10/src/main/java/MoveToFront.java:11-12 | one pass writes the next code |
| MoveToFrontStream.Decode | week_10/src/main/java/MoveToFront.java:30-40 | `decode()` writes one byte per byte read: the decoded symbols |
| MoveToFrontStream.WriteSymbol | week_10/src/main/java/MoveToFront.java:34-37 | one pass writes the next symbol |
| MoveToFrontStream.RoundTrip | week_10/src/main/java/MoveToFront.java:7-40 | decoding what `encode()` wrote gives back the input |
| Deques.Node.constructor | week_2/src/Deque.java:14-18 | a node holds the item and the two given links |
| Deques.DequeIterator.constructor | week_2/src/Deque.java:103 | the iterator starts at the deque's first node |
| Deques.Deque.constructor | week_2/src/Deque.java:8-9 | a new deque is empty |
| Deques.Deque.IsEmpty | week_2/src/Deque.java:30 | `isEmpty()` holds exactly when there are no items |
| Deques.Deque.Size | week_2/src/Deque.java:38 | `size()` is the number of items |
| Deques.Deque.AddFirst | week_2/src/Deque.java:53-61 | a null item throws IllegalArgument and changes nothing; otherwise the item is prepended |
| Deques.Deque.AddLast | week_2/src/Deque.java:64-72 | a null item throws IllegalArgument and changes nothing; otherwise the item is appended |
| Deques.Deque.FirstItem | week_2/src/Deque.java:40-43 | the first item of an empty deque is its one node, both `first` and `last` |
| Deques.Deque.RemoveFirst | week_2/src/Deque.java:75-84 | an empty deque throws NoSuchElement; otherwise the front item is returned and removed |
| Deques.Deque.RemoveLast | week_2/src/Deque.java:87-96 | an empty deque throws NoSuchElement; otherwise the back item is returned and removed |
| Deques.Deque.LastItem | week_2/src/Deque.java:45-50 | removing the only item returns it and leaves `first` and `last` null |
| Deques.Deque.Iterator | week_2/src/Deque.java:99-100 | a new iterator starts at the front |
| Deques.Deque.Items | week_2/src/Deque.java:102-113 | iterating yields the items front to back |
| Deques.DequeIterator.HasNext | week_2/src/Deque.java:104-105 | `hasNext()` holds exactly while items remain |
| Deques.DequeIterator.Next | week_2/src/Deque.java:107-112 | `next()` returns the next item towards the back, or throws NoSuchElement past the end |
| Deques.DequeIterator.Remove | week_2/src/Deque.java:106 | `remove()` throws UnsupportedOperation |
| Deques.AddRemoveFirst | week_2/src/Deque.java:53-84 | adding at the front and removing from the front gives the item back and restores the deque |
| Deques.AddLastRemoveFirst | week_2/src/Deque.java:64-84 | adding at the back and removing from the front is first-in first-out |
| RandomizedQueues.RemoveAtMultiset | week_2/src/RandomizedQueue.java:49-51 | moving the last item into slot `k` takes exactly that item out of the bag |
| RandomizedQueues.EnqueueSized | week_2/src/RandomizedQueue.java:29-33 | after `enqueue` the array only doubles, when it is full, and the capacity invariant holds |
| RandomizedQueues.DequeueSized | week_2/src/RandomizedQueue.java:29-33 | after `dequeue` the array only halves, at a quarter full, and the capacity invariant holds |
| RandomizedQueues.RandomizedQueue.constructor | week_2/src/RandomizedQueue.java:7-10 | a new queue is empty, over an array of length 1 |
| RandomizedQueues.RandomizedQueue.IsEmpty | week_2/src/RandomizedQueue.java:13 | `isEmpty()` holds exactly when there are no items |
| RandomizedQueues.RandomizedQueue.Size | week_2/src/RandomizedQueue.java:16 | `size()` is the number of items |
| RandomizedQueues.RandomizedQueue.Resize | week_2/src/RandomizedQueue.java:20-26 | a fresh array of the new length holds the same first `N` slots, with empty slots after them |
| RandomizedQueues.RandomizedQueue.Enqueue | week_2/src/RandomizedQueue.java:36-42 | a null item throws IllegalArgument and changes nothing; otherwise the item is added, and the array doubles when full |
| RandomizedQueues.RandomizedQueue.Dequeue | week_2/src/RandomizedQueue.java:45-55 | an empty queue throws NoSuchElement; otherwise the item in the chosen slot is returned and taken out, and the array halves at a quarter full |
| RandomizedQueues.RandomizedQueue.Sample | week_2/src/RandomizedQueue.java:58-61 | an empty queue throws NoSuchElement; otherwise the item in the chosen slot, with the queue unchanged |
| RandomizedQueues.RandomizedQueue.RandomClone | week_2/src/RandomizedQueue.java:63-68 | a fresh array holding exactly the items |
| RandomizedQueues.RandomizedQueue.Items | week_2/src/RandomizedQueue.java:71-86 | iterating yields every item exactly once |
| RandomizedQueues.RandomizedQueueIterator.constructor | week_2/src/RandomizedQueue.java:75-76 | the iterator works on its own copy of the items |
| RandomizedQueues.RandomizedQueueIterator.HasNext | week_2/src/RandomizedQueue.java:77 | `hasNext()` holds exactly while items remain; once false, every item has been returned exactly once |
| RandomizedQueues.RandomizedQueueIterator.Next | week_2/src/RandomizedQueue.java:79-85 | past the end throws NoSuchElement; otherwise it returns the chosen remaining item and removes it from the copy |
| RandomizedQueues.RandomizedQueueIterator.Remove | week_2/src/RandomizedQueue.java:78 | `remove()` throws UnsupportedOperation |
| Percolations.FlattenBijective | week_1/src/Percolation.java:45-48 | `flatten` maps the grid into `0 .. n*n-1`, and dividing by `n` undoes it |
| Percolations.FlattenOnto | week_1/src/Percolation.java:45-48 | every element below `n*n` is the element of some site |
| Percolations.FlattenInjective | week_1/src/Percolation.java:24-27 | different sites have different elements, so the virtual start `n*n` and finish `n*n+1` are not sites |
| Percolations.Neighbors | week_1/src/Percolation.java:56 | the four neighbours `open` visits are each orthogonally adjacent |
| Percolations.AdjacentNeighbor | week_1/src/Percolation.java:56 | every orthogonally adjacent site is one of those four |
| Percolations.QuickFind.constructor | week_1/src/Percolation.java:24 | every element starts in its own component |
| Percolations.QuickFind.Find | week_1/src/Percolation.java:79 | `find(p)` is the label of `p`'s component |
| Percolations.QuickFind.Union | week_1/src/Percolation.java:30-31 | `union(p, q)` relabels `p`'s component with `q`'s label, joins `p` and `q`, and keeps every earlier connection |
| Percolations.QuickFind.JoinEnds | week_1/src/Percolation.java:28-32 | the constructor's loop joins the top row to the start and the bottom row to the finish; with `n == 1` start and finish are joined |
| Percolations.QuickFind.JoinEnd | week_1/src/Percolation.java:30-31 | one pass joins a top site to the start and a bottom site to the finish, keeping earlier connections |
| Percolations.EndSites | week_1/src/Percolation.java:28-31 | the elements of column `c` in the top and the bottom row are `c - 1` and `n*(n-1) + c - 1` |
| Percolations.Percolation.Make | week_1/src/Percolation.java:20-33 | `n <= 0` throws IllegalArgument; otherwise an n-by-n grid with no site open; with `n == 1` it already percolates |
| Percolations.Percolation.constructor | week_1/src/Percolation.java:23-32 | a valid grid of size `n` with no site open |
| Percolations.Percolation.IsOpen | week_1/src/Percolation.java:65-68 | throws IllegalArgument outside the grid; otherwise whether the site is open |
| Percolations.Percolation.IsOpenSilent | week_1/src/Percolation.java:71-74 | false outside the grid; otherwise whether the site is open |
| Percolations.Percolation.IsFull | week_1/src/Percolation.java:78-81 | throws IllegalArgument outside the grid; otherwise whether the site is open and connected to the start |
| Percolations.Percolation.NumberOfOpenSites | week_1/src/Percolation.java:84-86 | the number of open sites |
| Percolations.Percolation.Percolates | week_1/src/Percolation.java:89-91 | whether start and finish are connected |
| Percolations.Percolation.Open | week_1/src/Percolation.java:52-61 | throws IllegalArgument outside the grid; leaves an open site as it is; otherwise opens and counts the site, joins it to each open neighbour, and keeps every earlier connection |
| Percolations.Percolation.MarkOpen | week_1/src/Percolation.java:54-55 | marks a blocked site open and counts it once |
| Percolations.Percolation.JoinNeighbors | week_1/src/Percolation.java:56-60 | joins the new site to each open neighbour, keeping earlier connections |
| HashAlgs.Wrap32 | week_9/src/main/java/HashAlgs.java:78-79 | the `int` with the same low 32 bits: unchanged in range, otherwise wrapped modulo 2^32 |
| HashAlgs.WrapAdd | week_9/src/main/java/HashAlgs.java:56 | wrapping part of a sum first changes nothing: `int` addition is modulo 2^32 |
| HashAlgs.Wrap64 | week_9/src/main/java/HashAlgs.java:81-82 | the `long` with the same low 64 bits: unchanged in range, otherwise wrapped modulo 2^64 |
| HashAlgs.JavaRem | week_9/src/main/java/HashAlgs.java:56-57 | Java's `%` by a positive modulus: below the modulus in size, with the sign of the dividend |
| HashAlgs.Init | week_9/src/main/java/HashAlgs.java:50-74 | `Modular.init` sets both hashes to 0; `FNV1a.init` sets the 32-bit offset basis and the 64-bit start 1099511628211 |
| HashAlgs.ModularStep32 | week_9/src/main/java/HashAlgs.java:56 | the `int` step stays strictly between `-P` and `P`, and is Horner's step modulo `P` while `26 * hash + c` does not overflow |
| HashAlgs.ModularStep64 | week_9/src/main/java/HashAlgs.java:57 | the `long` step, with the same bounds and agreement |
| HashAlgs.ModularStep32Wraps | week_9/src/main/java/HashAlgs.java:56 | with `P = 2^31 - 1` and `hash32 = 10^8`, `26 * hash32` overflows and the step gives a negative hash instead of Horner's 452516353 |
| HashAlgs.FoldSnoc | week_9/src/main/java/WordHash.java:63-69 | hashing one code more is one more `append` |
| HashAlgs.FoldConcat | week_9/src/main/java/WordHash.java:63-69 | hashing a word in two pieces continues from the hashes of the first piece |
| WordHashes.UntilZero | week_9/src/main/java/WordHash.java:65-66 | the codes before the first 0: a prefix of the word with no 0 in it, followed by a 0 when shorter |
| WordHashes.UntilZeroAt | week_9/src/main/java/WordHash.java:65-66 | the hashed codes stop at the first 0 or at the end |
| WordHashes.WordHash.Copy | week_9/src/main/java/WordHash.java:21-25 | a copy has the same two hashes |
| WordHashes.CopyOf | week_9/src/main/java/WordHash.java:21-25 | a null argument throws IllegalArgument; otherwise a fresh copy with the same hashes |
| WordHashes.WordHash.constructor | week_9/src/main/java/WordHash.java:31-33 | the hashes of the empty word |
| WordHashes.WordHash.Single | week_9/src/main/java/WordHash.java:40-43 | the hashes of the one-code word `c` |
| WordHashes.WordHash.OfWord | week_9/src/main/java/WordHash.java:50-52 | the hashes of the codes before the first 0 |
| WordHashes.WordHash.Init | week_9/src/main/java/HashAlgs.java:16 | `hashFn.init(this)` sets the starting hashes |
| WordHashes.WordHash.Append | week_9/src/main/java/WordHash.java:76 | one `append` step on both hashes |
| WordHashes.WordHash.AppendCode | week_9/src/main/java/WordHash.java:76 | appending `c` to the hashes of `cs` gives the hashes of `cs + [c]` |
| WordHashes.WordHash.Hash | week_9/src/main/java/WordHash.java:63-69 | `hash(word)` gives the hashes of the codes before the first 0 |
| WordHashes.WordHash.HashCode | week_9/src/main/java/WordHash.java:84 | `hashCode()` is the 32-bit hash |
| WordHashes.WordHash.Equals | week_9/src/main/java/WordHash.java:96-102 | equal exactly when the argument is a `WordHash` with both hashes the same |
| WordHashes.EqualsContract | week_9/src/main/java/WordHash.java:84-102 | `equals` is reflexive, symmetric and transitive, and equal objects have equal `hashCode`s |
| WordHashes.IntArrayLength | week_9/src/main/java/WordHash.java:110-120 | a returned array is empty or has one slot per character, and a word without 'Q' is returned as it is |
| WordHashes.IntArray | week_9/src/main/java/WordHash.java:110-120 | `intArray(word)` as written: the 'Q' check reads the slot at the read index, which after the first skip is a slot not yet written |
| WordHashes.DFSHash.constructor | week_9/src/main/java/DFSHash.java:15-19 | the hashes of the one-letter word, with the given index |
| WordHashes.DFSHash.Extend | week_9/src/main/java/DFSHash.java:28-32 | the parent's hashes extended by `c`, with the given index |
| WordHashes.DFSHash.HashCode | week_9/src/main/java/WordHash.java:84 | the inherited `hashCode()` is the 32-bit hash |
| WordHashes.DFSHash.Equals | week_9/src/main/java/WordHash.java:96-102 | the inherited `equals` compares both hashes and ignores the index |
| WordHashes.IndexIgnored | week_9/src/main/java/DFSHash.java:28-32 | two `DFSHash`es for the same letter after the same parent are equal whatever their indices |
| WordMaps.Collapse | week_9/src/main/java/WordMap.java:66-79 | the word with the letter after each 'Q' dropped is no longer than the word |
| WordMaps.CollapseFrom | week_9/src/main/java/WordMap.java:66-79 | how `add` takes the letters from position `i` on, including a final "QU" |
| WordMaps.CollapseNoQ | week_9/src/main/java/WordMap.java:66-79 | a word without 'Q' is hashed letter for letter |
| WordMaps.LastLetter | week_9/src/main/java/WordMap.java:79-80 | where the loop of `add` stops, every proper prefix is recorded and one letter remains |
| WordMaps.DictHasKeys | week_9/src/main/java/WordMap.java:39-60 | every word that passes the checks has its key in `dict` |
| WordMaps.DictEntries | week_9/src/main/java/WordMap.java:39-60 | every entry of `dict` maps a key to a dictionary word that passes the checks and has that key |
| WordMaps.SubsEntries | week_9/src/main/java/WordMap.java:39-81 | `subs` holds exactly the proper-prefix hashes of the words that pass the checks |
| WordMaps.WordMap.constructor | week_9/src/main/java/WordMap.java:18-28 | `dict` and `subs` are those of the dictionary |
| WordMaps.WordMap.Make | week_9/src/main/java/WordMap.java:18-28 | a null dictionary throws IllegalArgument; otherwise the maps of the dictionary |
| WordMaps.WordMap.ValidSub | week_9/src/main/java/WordMap.java:30 | `validSub` holds exactly for a hash in `subs` |
| WordMaps.WordMap.ValidWord | week_9/src/main/java/WordMap.java:37 | the word stored under the key, or null when there is none |
| WordMaps.WordMap.MakeMaps | week_9/src/main/java/WordMap.java:39-60 | `makeMaps` adds exactly the words that pass the checks |
| WordMaps.WordMap.Admits | week_9/src/main/java/WordMap.java:46-56 | a word is added exactly when it has at least three letters, does not end in 'Q', and has a 'U' after every 'Q' |
| WordMaps.WordMap.Add | week_9/src/main/java/WordMap.java:62-81 | `add(word)` keys the word under its hash and records every proper prefix hash in `subs` |
| WordMaps.WordMap.AddPrefixes | week_9/src/main/java/WordMap.java:66-78 | the loop records every proper prefix and stops at the last kept letter |
| WordMaps.WordMap.AddStep | week_9/src/main/java/WordMap.java:67-77 | one round of the loop: a 'Q' just before the last letter stops it; otherwise it appends a letter and skips the 'U' after a 'Q' |
| WordMaps.WordMap.AddLetter | week_9/src/main/java/WordMap.java:76-77 | appending one letter records the new prefix |
| BoggleGrid.DirectionsAreNeighbours | week_9/src/main/java/ericghara/week_9/BoggleSolver.java:16-28 | the eight directions are the eight neighbour offsets, each once |
| BoggleGrid.BoardIndex | week_9/src/main/java/ericghara/week_9/BoggleSolver.java:127 | `getBoardIndex(r, c)` has row `r` and column `c` |
| BoggleGrid.Move | week_9/src/main/java/ericghara/week_9/BoggleSolver.java:113-118 | -1 exactly when the step leaves the board; otherwise the tile in the row and column the direction leads to |
| BoggleGrid.MoveIsAdjacent | week_9/src/main/java/ericghara/week_9/BoggleSolver.java:113-118 | a tile `move` reaches is adjacent |
| BoggleGrid.AdjacentIsMove | week_9/src/main/java/ericghara/week_9/BoggleSolver.java:113-118 | every adjacent tile is reached by some direction |
| BoggleGrid.ChainIff | week_9/src/main/java/ericghara/week_9/BoggleSolver.java:158-181 | a search path has pairwise distinct tiles, each adjacent to the one before |
| BoggleGrid.TilePathSnoc | week_9/src/main/java/ericghara/week_9/BoggleSolver.java:167-173 | a path extends by an unmarked tile adjacent to its last one |
| BoggleGrid.Letters | week_9/src/main/java/ericghara/week_9/BoggleSolver.java:171 | the letters along a path, in path order |
| BoggleGrid.FlattenLength | week_9/src/main/java/ericghara/week_9/BoggleSolver.java:98-105 | the imported board has `R * C` letters |
| BoggleGrid.FlattenAt | week_9/src/main/java/ericghara/week_9/BoggleSolver.java:98-105 | the letter of row `r`, column `c` is imported at `getBoardIndex(r, c)` |
| SearchStacks.LastNotInParent | week_9/src/main/java/ericghara/week_9/BoggleSolver.java:158-181 | a search path never holds its last tile twice |
| SearchStacks.ExpandBudget | week_9/src/main/java/ericghara/week_9/BoggleSolver.java:167-179 | expanding one entry lowers the search's measure, so the loop ends |
| SearchStacks.MarkTile | week_9/src/main/java/ericghara/week_9/BoggleSolver.java:166 | marking a tile outside the marked path extends that path |
| SearchStacks.UnmarkTile | week_9/src/main/java/ericghara/week_9/BoggleSolver.java:161-163 | unmarking the last tile leaves its parent path marked |
| SearchStacks.ChildHash | week_9/src/main/java/ericghara/week_9/BoggleSolver.java:171 | one more tile on a path: the hashes of its letters, one `append` later |
| SearchStacks.PushOk | week_9/src/main/java/ericghara/week_9/BoggleSolver.java:172-174 | pushing a child of the current path keeps the stack well formed |
| SearchStacks.StartStack | week_9/src/main/java/ericghara/week_9/BoggleSolver.java:137-140 | the stack `dfs` starts with is well formed, with nothing marked |
| SearchStacks.TopMark | week_9/src/main/java/ericghara/week_9/BoggleSolver.java:160-161 | the top entry's tile is marked exactly when the entry was already visited |
| SearchStacks.PopOk | week_9/src/main/java/ericghara/week_9/BoggleSolver.java:161-164 | popping a visited entry and unmarking its tile keeps stack and marks in step |
| SearchStacks.VisitOk | week_9/src/main/java/ericghara/week_9/BoggleSolver.java:166 | visiting the pending top entry makes its path the marked one |
| SearchStacks.RecordOk | week_9/src/main/java/ericghara/week_9/BoggleSolver.java:175-178 | recording a word under a new key found along a path of at least two tiles keeps the found list sound |
| SearchStacks.FoundFacts | week_9/src/main/java/ericghara/week_9/BoggleSolver.java:175-178 | each found word is a dictionary entry under its own key, the hash of the letters along a tile path of at least two tiles |
| BoggleSearch.WordSearch.constructor | week_9/src/main/java/ericghara/week_9/BoggleSolver.java:80-91 | a board of fewer than three tiles is not searched and finds nothing; otherwise the tiles are imported and the found words are sound |
| BoggleSearch.WordSearch.ImportBoard | week_9/src/main/java/ericghara/week_9/BoggleSolver.java:98-105 | the board holds the letters row by row |
| BoggleSearch.CopyRows | week_9/src/main/java/ericghara/week_9/BoggleSolver.java:100-104 | the two copy loops leave the array holding the rows laid end to end |
| BoggleSearch.WordSearch.Dfs | week_9/src/main/java/ericghara/week_9/BoggleSolver.java:133-142 | one `dfsWorker` run from each tile leaves the found words sound |
| BoggleSearch.WordSearch.DfsWorker | week_9/src/main/java/ericghara/week_9/BoggleSolver.java:158-181 | the iterative search runs until the stack is empty, keeps the found words sound, and leaves `seen` all unmarked |
| BoggleSearch.WordSearch.Descend | week_9/src/main/java/ericghara/week_9/BoggleSolver.java:166-179 | visiting the pending top entry and pushing its children keeps the stack well formed and lowers the measure |
| BoggleSearch.WordSearch.Backtrack | week_9/src/main/java/ericghara/week_9/BoggleSolver.java:161-164 | the visited top entry is popped and its tile unmarked |
| BoggleSearch.WordSearch.Visit | week_9/src/main/java/ericghara/week_9/BoggleSolver.java:166 | the pending top entry's tile is marked |
| BoggleSearch.WordSearch.Expand | week_9/src/main/java/ericghara/week_9/BoggleSolver.java:167-179 | the loop over the eight directions pushes the children that are prefixes and records the words |
| BoggleSearch.WordSearch.Step | week_9/src/main/java/ericghara/week_9/BoggleSolver.java:168-178 | one direction: off-board or marked tiles are skipped; a child that is a prefix is pushed; a dictionary word under a new key is recorded |
| BoggleSearch.WordSearch.Push | week_9/src/main/java/ericghara/week_9/BoggleSolver.java:173 | `stack.push(nextH)` adds a pending entry one tile beyond the marked path |
| BoggleSearch.WordSearch.Record | week_9/src/main/java/ericghara/week_9/BoggleSolver.java:176-177 | the word goes to the front of `found` and its key into the found set |
| BoggleSearch.WordSearch.Found | week_9/src/main/java/ericghara/week_9/BoggleSolver.java:187 | `found()` is the list of found words |
| BoggleSolvers.TableScore | week_9/src/main/java/ericghara/week_9/BoggleSolver.java:66-71 | the score table gives 0, 0, 0, 1, 1, 2, 3, 5 and then 11 for eight letters or more |
| BoggleSolvers.ScoreMonotone | week_9/src/main/java/ericghara/week_9/BoggleSolver.java:30 | a longer word never scores less |
| BoggleSolvers.SolutionOf | week_9/src/main/java/ericghara/week_9/BoggleSolver.java:46-52 | the words of a finished search are dictionary words spelled along tile paths of the board, none twice |
| BoggleSolvers.BoggleSolver.constructor | week_9/src/main/java/ericghara/week_9/BoggleSolver.java:37-39 | the solver holds the maps of the dictionary |
| BoggleSolvers.BoggleSolver.Make | week_9/src/main/java/ericghara/week_9/BoggleSolver.java:37-39 | a null dictionary throws IllegalArgument |
| BoggleSolvers.BoggleSolver.GetAllValidWords | week_9/src/main/java/ericghara/week_9/BoggleSolver.java:46-52 | a null board throws IllegalArgument; a board of fewer than three tiles gives nothing; otherwise dictionary words found on the board, none twice |
| BoggleSolvers.BoggleSolver.ScoreOf | week_9/src/main/java/ericghara/week_9/BoggleSolver.java:62-72 | a null word throws IllegalArgument; a word of more than two letters not in the dictionary scores 0; a dictionary word scores by the table |
| BoggleSolvers.FnvBoggleSolver.constructor | week_9/src/main/java/BoggleSolver.java:25-28 | installs FNV-1a and builds the maps of the dictionary |
| BoggleSolvers.FnvBoggleSolver.Make | week_9/src/main/java/BoggleSolver.java:25-28 | a null dictionary throws IllegalArgument |
| BoggleSolvers.FnvBoggleSolver.GetAllValidWords | week_9/src/main/java/BoggleSolver.java:30-36 | the same as the other copy, with FNV-1a keys |
| BoggleSolvers.FnvBoggleSolver.ScoreOf | week_9/src/main/java/BoggleSolver.java:38-47 | a null word throws IllegalArgument; every other word scores by its length, dictionary or not |
| BoggleSolvers.ScoresAgree | week_9/src/main/java/BoggleSolver.java:38-47 | on dictionary words the two copies award the same points |
| BaseballTeams.TeamRow.MaxPossibleWins | week_8/src/main/java/Division.java:195-197 | the wins plus the games left, equal to the true sum when it fits in an `int` and congruent to it modulo 2^32 otherwise |
| BaseballTeams.DivisionWinsTotal | week_8/src/main/java/Team.java:33-38 | the `Integer::sum` fold over the schedule is the wins plus the sum of the schedule, wrapped once at the end |
| BaseballTeams.Top | week_8/src/main/java/Eliminator.java:39-41 | the team `max(comparingInt(getWins))` picks has the most wins, and every team before it has strictly fewer |
| BaseballTeams.TopNotTrivial | week_8/src/main/java/League.java:92-103 | a team with the most wins, whose total does not overflow, is never trivially eliminated |
| BaseballTeams.IndexesPut | week_8/src/main/java/Division.java:74-85 | putting the next team's name in the look-up extends the name index by that team |
| BaseballTeams.NameIndexFacts | week_8/src/main/java/Division.java:74-85 | the name look-up holds exactly the file's names, each mapped to the last team carrying it |
| BaseballTeams.KeyOrderFacts | week_8/src/main/java/Division.java:25 | the insertion-ordered key set lists every team name once and nothing else |
| BaseballTeams.Team.constructor | week_8/src/main/java/Team.java:15-23 | the team holds the given record and has no certificate yet |
| BaseballTeams.Team.GetMaxDivisionWins | week_8/src/main/java/Team.java:33-38 | wins plus every game left in the division, exact when it fits in an `int` |
| BaseballTeams.Team.GetRemainingAgainst | week_8/src/main/java/Team.java:58-60 | the schedule entry at the other team's id; an id outside the schedule throws |
| BaseballTeams.Team.IsEliminated | week_8/src/main/java/Team.java:75-80 | throws before a certificate is set; afterwards true exactly when the certificate names a team |
| BaseballTeams.Team.SetCertOfElim | week_8/src/main/java/Team.java:86-89 | stores the certificate and sets the flag from its emptiness; a null certificate is stored and then throws with the flag unchanged |
| BaseballTeams.Team.CompareTo | week_8/src/main/java/Team.java:92-94 | the sign of the comparison of the wins, in both directions |
| BaseballTeams.CompareToOrder | week_8/src/main/java/Team.java:92-94 | `compareTo` is antisymmetric and transitive |
| BaseballTeams.RemainingAgainstRow | week_8/src/main/java/Division.java:154-156 | in a loaded division, `getRemainingAgainst` returns the file's game count for the pair |
| Divisions.LoadedPut | week_8/src/main/java/Division.java:74-85 | one `addTeam` step keeps the team array, the look-up and its key order in step with the rows read so far |
| Divisions.LookupPut | week_8/src/main/java/Division.java:74-85 | after the put, every name in the look-up maps to the team at its index |
| Divisions.NamesPut | week_8/src/main/java/Division.java:74-85 | the key order grows by the name exactly when the name is new to the look-up |
| Divisions.TeamsSnoc | week_8/src/main/java/Division.java:74-85 | appending the next team keeps the array in id order, each team carrying its own row |
| Divisions.Division.constructor | week_8/src/main/java/Division.java:35-45 | the division holds one new team per row, in order, none with a certificate yet |
| Divisions.Division.AddTeam | week_8/src/main/java/Division.java:74-85 | the next row becomes a new team at its id, and the look-up covers it |
| Divisions.Division.GetNumberOfTeams | week_8/src/main/java/Division.java:49-51 | the number of rows, which is the number of teams |
| Divisions.Division.GetTeamNames | week_8/src/main/java/Division.java:53-55 | every name of the file, each exactly once |
| Divisions.Division.GetTeam | week_8/src/main/java/Division.java:57-59 | the team of that row; an index outside the array throws |
| Divisions.Division.GetTeamId | week_8/src/main/java/Division.java:66-72 | the id of the last row with the name; a name no row carries throws `IllegalArgumentException` |
| Divisions.Division.GetTeamByName | week_8/src/main/java/Division.java:61-64 | the team of that name, carrying its own row; an unknown name throws |
| Divisions.Division.Iterator | week_8/src/main/java/Division.java:88-91 | the teams in id order, each carrying its row |
| Divisions.Division.Load | week_8/src/main/java/Division.java:35-47 | every team ends with the certificate of the elimination rule and is eliminated exactly when it is non-empty; an empty file throws |
| Leagues.League.constructor | week_8/src/main/java/League.java:14-31 | new columns filled from the rows in order, no team flagged yet |
| Leagues.League.AddTeam | week_8/src/main/java/League.java:70-82 | the next row stored at its number in every column and its name indexed |
| Leagues.League.ReadSchedule | week_8/src/main/java/League.java:70-82 | the row of the schedule matrix is the file's row and no other entry changes |
| Leagues.League.TriviallyEliminate | week_8/src/main/java/League.java:92-103 | an empty league throws; otherwise exactly the teams whose best total falls below the most wins get flagged, and no flag is cleared |
| Leagues.League.Load | week_8/src/main/java/League.java:14-32 | the columns hold the file and each flag is set exactly when the trivial rule eliminates the team; an empty file throws |
| Leagues.League.GetNumberOfTeams | week_8/src/main/java/League.java:34-36 | the number of rows |
| Leagues.League.GetTeamNames | week_8/src/main/java/League.java:38-40 | exactly the names of the file |
| Leagues.League.GetWins | week_8/src/main/java/League.java:42-44 | the row's wins; an index that is no team's throws |
| Leagues.League.GetLosses | week_8/src/main/java/League.java:46-48 | the row's losses; an index that is no team's throws |
| Leagues.League.GetRemaining | week_8/src/main/java/League.java:50-52 | the row's games left; an index that is no team's throws |
| Leagues.League.GetRemainingAgainst | week_8/src/main/java/League.java:54-56 | the games left between the two teams, from the first one's row; a bad index throws |
| Leagues.League.IsTriviallyEliminated | week_8/src/main/java/League.java:58-60 | once loaded, whether the team's best total falls below the most wins; a bad index throws |
| Leagues.League.GetTeamNum | week_8/src/main/java/League.java:62-68 | the last row with the name; an unknown name throws `IllegalArgumentException` |
| Eliminators.Eliminator.constructor | week_8/src/main/java/Eliminator.java:58-67 | the sink edges and then the game vertices of the examined team's network are built |
| Eliminators.Eliminator.GetVertexId | week_8/src/main/java/Eliminator.java:129-145 | team `i` is vertex `2 + i`, never the source or the sink and below every game vertex; an id that is no team's throws |
| Eliminators.Eliminator.GetNumberOfVertices | week_8/src/main/java/Eliminator.java:152-155 | once built, source, sink, one vertex per team and one per listed game: the size of the network |
| Eliminators.Eliminator.GetAllEdges | week_8/src/main/java/Eliminator.java:164-171 | once built, the source edges, the game edges and the sink edges of the network, in that order |
| Eliminators.Eliminator.AddTeams | week_8/src/main/java/Eliminator.java:90-98 | every team, the examined one included, gets a sink edge of capacity `maxAllowedWins - wins` |
| Eliminators.Eliminator.AddTeam | week_8/src/main/java/Eliminator.java:110-113 | the team's sink edge is set and no other |
| Eliminators.Eliminator.AddGames | week_8/src/main/java/Eliminator.java:69-87 | the game vertices are exactly the games between two other teams with games left, each pair once, in order |
| Eliminators.Eliminator.AddOpponent | week_8/src/main/java/Eliminator.java:71-86 | one pass of the outer loop adds the games of that first opponent, none for the examined team |
| Eliminators.Eliminator.AddRowGames | week_8/src/main/java/Eliminator.java:76-85 | the inner loop adds the first opponent's games against every lower id, stopping at its own |
| Eliminators.Eliminator.AddPair | week_8/src/main/java/Eliminator.java:77-84 | a pair with games left and not involving the examined team becomes a game vertex; any other pair adds nothing |
| Eliminators.Eliminator.AddGamesVertex | week_8/src/main/java/Eliminator.java:100-108 | the next game vertex gets a source edge with the games left and an unbounded edge to each of its teams |
| Eliminators.Eliminator.AddSourceToGame | week_8/src/main/java/Eliminator.java:115-118 | one source edge appended, the game edges unchanged |
| Eliminators.Eliminator.AddGameToTeam | week_8/src/main/java/Eliminator.java:120-123 | one unbounded game edge appended, the source edges unchanged |
| Eliminators.Eliminator.GetNextGameId | week_8/src/main/java/Eliminator.java:125-127 | the next game vertex follows the teams and the games added so far |
| Eliminators.Eliminator.GenerateCertificate | week_8/src/main/java/Eliminator.java:195-207 | the names of the teams on the source side of the cut, in id order |
| Eliminators.Eliminator.AddIfInCut | week_8/src/main/java/Eliminator.java:198-205 | one pass adds the team's name exactly when its vertex is in the cut |
| Eliminators.Eliminator.Eliminate | week_8/src/main/java/Eliminator.java:178-186 | a team that already has a certificate is left alone; any other gets its network's certificate |
| Eliminators.ProcessDivision | week_8/src/main/java/Eliminator.java:38-56 | an empty division throws; otherwise every team ends with the trivial certificate or its network's, unless it already had one |
| Eliminators.MaxByWins | week_8/src/main/java/Eliminator.java:39-41 | the first team with the most wins; an empty division throws |
| Eliminators.ProcessTeam | week_8/src/main/java/Eliminator.java:44-55 | one pass of the loop settles that team and changes no other |
| EliminationNetworks.RowGamesFacts | week_8/src/main/java/Eliminator.java:76-85 | the games of one first opponent are exactly its games against lower ids, in order |
| EliminationNetworks.OrderedConcat | week_8/src/main/java/Eliminator.java:71-86 | the games of earlier first opponents followed by those of the next one stay strictly ordered |
| EliminationNetworks.GamesFacts | week_8/src/main/java/Eliminator.java:69-87 | every listed game is a game of the network, every game is listed, and no pair is listed twice |
| EliminationNetworks.GamesJoin | week_8/src/main/java/Eliminator.java:71-86 | the games up to one first opponent join with its own games to the games up to the next |
| EliminationNetworks.SourceEdgesSnoc | week_8/src/main/java/Eliminator.java:115-118 | one more game adds its source edge at the end |
| EliminationNetworks.TeamEdgesSnoc | week_8/src/main/java/Eliminator.java:120-123 | one more game adds its two team edges at the end |
| EliminationNetworks.SourceEdgesAt | week_8/src/main/java/Eliminator.java:100-108 | game `k` is vertex `2 + n + k`, fed from the source with its games left |
| EliminationNetworks.TeamEdgesAt | week_8/src/main/java/Eliminator.java:100-108 | game `k` drains into its first and then its second team without bound |
| EliminationNetworks.SinkEdges | week_8/src/main/java/Eliminator.java:90-98 | one sink edge per team, in id order, the examined team included |
| EliminationNetworks.AdmissibleConcat | week_8/src/main/java/Eliminator.java:164-171 | joining two lists of well-formed edges gives a list of well-formed edges |
| EliminationNetworks.SourceEdgesAdmissible | week_8/src/main/java/Eliminator.java:115-118 | the source edges go to game vertices of the network with positive capacities |
| EliminationNetworks.TeamEdgesAdmissible | week_8/src/main/java/Eliminator.java:120-123 | the game edges join a game vertex to its two team vertices |
| EliminationNetworks.SinkEdgesAdmissible | week_8/src/main/java/Eliminator.java:90-98 | the sink capacities are non-negative when no team has negative wins or more than the examined team can reach |
| EliminationNetworks.NetworkAdmissible | week_8/src/main/java/Eliminator.java:178-186 | for a team not trivially eliminated the network is well formed: every edge joins two of its vertices with a non-negative capacity, as `FlowNetwork.addEdge` demands |
| EliminationNetworks.CutIds | week_8/src/main/java/Eliminator.java:198-205 | the ids of the cut's teams are ids of teams |
| EliminationNetworks.CutIdsFacts | week_8/src/main/java/Eliminator.java:195-207 | the cut's teams are exactly the teams on the source side, each once, in increasing id order |
| EliminationNetworks.NamesOfSnoc | week_8/src/main/java/Eliminator.java:201-203 | one more id adds its team's name at the end |
| EliminationNetworks.EliminatedWhen | week_8/src/main/java/Eliminator.java:38-56 | a team is eliminated exactly when it is trivially eliminated or some team is on the source side of its network's cut |
| SeamCarvers.ValidatePic | week_7/src/main/java/SeamCarver.java:64-68 | accepts exactly a picture that is present and has at least one row and one column; otherwise `IllegalArgumentException` |
| SeamCarvers.AdmissibleDrift | week_7/src/main/java/SeamCarver.java:80-86 | entries of an accepted seam `d` positions apart differ by at most `d` |
| SeamCarvers.StraightSeam | week_7/src/main/java/SeamCarver.java:80-86 | a seam at one fixed coordinate is accepted exactly when that coordinate is in range |
| SeamCarvers.SeamCarver.constructor | week_7/src/main/java/SeamCarver.java:11-18 | the width and height of the picture are kept |
| SeamCarvers.SeamCarver.Create | week_7/src/main/java/SeamCarver.java:11-18 | the picture is validated first; an invalid one throws, a valid one gives a carver of its size |
| SeamCarvers.SeamCarver.Width | week_7/src/main/java/SeamCarver.java:24 | the width captured at construction, at least one |
| SeamCarvers.SeamCarver.Height | week_7/src/main/java/SeamCarver.java:27 | the height captured at construction, at least one |
| SeamCarvers.SeamCarver.ValidateSeam | week_7/src/main/java/SeamCarver.java:70-87 | succeeds exactly when the off-axis size exceeds one, the seam is present with one entry per on-axis position, and every entry is in range and within one of the previous; otherwise `IllegalArgumentException` |
| SeamCarvers.SeamCarver.RemoveHorizontalSeam | week_7/src/main/java/SeamCarver.java:38-45 | refused when the height is at most one, before the seam is looked at; otherwise exactly when the seam is invalid |
| SeamCarvers.SeamCarver.RemoveVerticalSeam | week_7/src/main/java/SeamCarver.java:48-52 | refused exactly when the seam is invalid as a vertical seam |
| SeamCarvers.SeamCarver.HorizontalSeamLength | week_7/src/main/java/SeamCarver.java:71-79 | as written, on a picture that is not square a horizontal seam of one entry per column is refused, whatever its entries |
| VertexWeightedSPs.AdjRows | week_7/src/main/java/VertexWeightedSP.java:74-86 | the rows `adj(y)` yields are exactly the rows of the matrix within one of `y` |
| VertexWeightedSPs.FirstMinFacts | week_7/src/main/java/VertexWeightedSP.java:31-43 | the chosen row holds a least weight of its range, and every earlier row a strictly larger one |
| VertexWeightedSPs.Pred | week_7/src/main/java/VertexWeightedSP.java:59-71 | the predecessor of a cell is a row of the matrix within one of the cell's |
| VertexWeightedSPs.DistStep | week_7/src/main/java/VertexWeightedSP.java:59-71 | each cell's weight is its own plus the least weight in reach in the previous column, attained at its predecessor |
| VertexWeightedSPs.DistIsLeast | week_7/src/main/java/VertexWeightedSP.java:59-71 | no path moving at most one row per column weighs less than the DP's weight at its end |
| VertexWeightedSPs.TracedCost | week_7/src/main/java/VertexWeightedSP.java:46-56 | a path traced back through the predecessors weighs exactly the DP's weight at its end |
| VertexWeightedSPs.ChainAdmissible | week_7/src/main/java/VertexWeightedSP.java:46-56 | a path traced through the predecessors moves at most one row per column |
| VertexWeightedSPs.ShortestIsLeast | week_7/src/main/java/VertexWeightedSP.java:31-56 | the traced path from the first lightest end weighs no more than any other seam across the matrix |
| VertexWeightedSPs.TracedEnd | week_7/src/main/java/VertexWeightedSP.java:46-56 | a traced path's weight is the DP's weight at its last cell |
| VertexWeightedSPs.SeamBound | week_7/src/main/java/VertexWeightedSP.java:31-43 | no seam weighs less than the least weight of the last column |
| VertexWeightedSPs.EndIsLeast | week_7/src/main/java/VertexWeightedSP.java:59-71 | no seam weighs less than the DP's weight at its end |
| VertexWeightedSPs.FirstIsLeast | week_7/src/main/java/VertexWeightedSP.java:31-43 | the chosen row weighs no more than any row of its range |
| VertexWeightedSPs.PartialFacts | week_7/src/main/java/VertexWeightedSP.java:59-71 | after the rows below `k`, a cell holds the first least weight among the rows seen that reach it |
| VertexWeightedSPs.PartialComplete | week_7/src/main/java/VertexWeightedSP.java:59-71 | after every row of the previous column, a cell holds the DP's weight and predecessor |
| VertexWeightedSPs.VertexWeightedSP.constructor | week_7/src/main/java/VertexWeightedSP.java:20-27 | the arrays are created and hold the solved DP |
| VertexWeightedSPs.VertexWeightedSP.Create | week_7/src/main/java/VertexWeightedSP.java:20-27 | a matrix of no columns but some rows throws `ArrayIndexOutOfBoundsException`; any other is solved |
| VertexWeightedSPs.VertexWeightedSP.CreateWeightTo | week_7/src/main/java/VertexWeightedSP.java:99-108 | 0 in column 0 and infinity everywhere else |
| VertexWeightedSPs.VertexWeightedSP.CreateLastVert | week_7/src/main/java/VertexWeightedSP.java:111-118 | -1 in column 0 and 0 everywhere else |
| VertexWeightedSPs.VertexWeightedSP.Adj | week_7/src/main/java/VertexWeightedSP.java:74-86 | a row outside the matrix throws; otherwise the consecutive rows from `max(0, y-1)` to `min(H-1, y+1)` |
| VertexWeightedSPs.VertexWeightedSP.Relax | week_7/src/main/java/VertexWeightedSP.java:90-96 | a strictly lighter path replaces the cell's weight and records `fromY`; the weight never grows and no other cell changes |
| VertexWeightedSPs.VertexWeightedSP.RelaxFrom | week_7/src/main/java/VertexWeightedSP.java:63-69 | one row of the previous column relaxes the cells it reaches; other columns are unchanged |
| VertexWeightedSPs.VertexWeightedSP.RelaxNext | week_7/src/main/java/VertexWeightedSP.java:66-68 | one relaxation of the inner loop advances the column's partial minimum |
| VertexWeightedSPs.VertexWeightedSP.RelaxColumn | week_7/src/main/java/VertexWeightedSP.java:61-70 | relaxing from every row of the previous column solves the column and changes no other |
| VertexWeightedSPs.VertexWeightedSP.CalcPath | week_7/src/main/java/VertexWeightedSP.java:59-71 | every cell holds the DP's least weight and predecessor |
| VertexWeightedSPs.VertexWeightedSP.FindTail | week_7/src/main/java/VertexWeightedSP.java:31-43 | the first row of least weight in the last column, or -1 when there are no rows |
| VertexWeightedSPs.VertexWeightedSP.LastVertAt | week_7/src/main/java/VertexWeightedSP.java:59-71 | once solved, each cell of `lastVert` is -1 in column 0 and the DP's predecessor elsewhere |
| VertexWeightedSPs.VertexWeightedSP.ShortestPath | week_7/src/main/java/VertexWeightedSP.java:46-56 | one row per column, ending at the first lightest row and following the predecessors, hence a lightest seam; columns but no rows throw |
| VertexWeightedSPs.VertexWeightedSP.Trace | week_7/src/main/java/VertexWeightedSP.java:49-54 | the path ends at the tail and each entry is the recorded predecessor of the next |
| VertexWeightedSPs.VertexWeightedSP.TraceStep | week_7/src/main/java/VertexWeightedSP.java:51-53 | one step writes the entry and moves to its predecessor |
| VertexWeightedSPs.VertexWeightedSP.SolvedLinks | week_7/src/main/java/VertexWeightedSP.java:59-71 | once solved, every recorded predecessor is a row of the matrix |
| VertexWeightedSPs.VertexWeightedSP.LinkedCons | week_7/src/main/java/VertexWeightedSP.java:49-54 | prefixing the recorded predecessor keeps a path linked |
| VertexWeightedSPs.VertexWeightedSP.LinkedIsChain | week_7/src/main/java/VertexWeightedSP.java:46-71 | once solved, a path linked through `lastVert` follows the DP's predecessors |
| Digraphs.LongWalkCyclic | week_6/src/main/java/SAP.java:52-73 | a walk with more vertices than the graph revisits a vertex, so the graph has a cycle |
| Digraphs.TreeWalk | week_6/src/main/java/SAP.java:101-110 | following the discoverer links from a seen vertex leads back to a start vertex in exactly its depth's number of edges |
| SearchLevels.Visit | week_6/src/main/java/SAP.java:126-137 | the loop over `adj(cur)` only adds vertices of the graph, keeps the queue's old part in front, and ends early only on a newly seen vertex the other side has seen |
| SearchLevels.Expand | week_6/src/main/java/SAP.java:124-138 | popping `n` vertices never loses a seen vertex, throws only for a popped vertex outside the graph, and reports a meeting only at a newly seen vertex the other side has seen |
| SearchLevels.VisitGrows | week_6/src/main/java/SAP.java:126-137 | the loop enqueues exactly the neighbours it discovers, each once, with `cur` as their discoverer, and a loop that runs through has seen every neighbour |
| SearchLevels.ExpandGrows | week_6/src/main/java/SAP.java:123-138 | a level that runs through pops the vertices queued at its start and leaves the rest of the queue followed by the discovered vertices, each once; every neighbour of a popped vertex is seen |
| SearchLevels.VisitSearched | week_6/src/main/java/SAP.java:126-137 | discovering neighbours of a seen vertex keeps the search tree and the depths already recorded |
| SearchLevels.ExpandSearched | week_6/src/main/java/SAP.java:123-138 | a level, or its part before a meeting, keeps the search tree |
| SearchLevels.LevelExpanded | week_6/src/main/java/SAP.java:123-138 | after a whole level every seen vertex outside the queue has all its neighbours seen |
| SearchLevels.DrainedClosed | week_6/src/main/java/SAP.java:122 | when the queue is empty no edge leaves the seen set |
| SearchLevels.ClosedReach | week_6/src/main/java/SAP.java:122 | a seen set with no edge leaving it holds every vertex reachable from the start vertices |
| SearchLevels.VisitAdj | week_6/src/main/java/SAP.java:126-137 | the loop over `adj(cur)` computes the visit of `cur`'s neighbours |
| SearchLevels.PopLevel | week_6/src/main/java/MultiBFS.java:21-37 | one level of a side: pops the vertices queued at its start and expands them |
| SapSearches.LevelProgress | week_6/src/main/java/SAP.java:122-155 | a level that meets nothing either sees a new vertex of the graph or empties the queue, so the loop ends |
| SapSearches.MetProgress | week_6/src/main/java/SAP.java:130-135 | a meeting is at a newly seen vertex of the graph |
| SapSearches.LevelSides | week_6/src/main/java/SAP.java:122-155 | a level keeps the start vertices seen and the search tree |
| SapSearches.SapLoopTree | week_6/src/main/java/SAP.java:122-155 | the sides keep their search trees, and a found ancestor has been seen by both sides and is not a start vertex of both |
| SapSearches.ThroughApart | week_6/src/main/java/SAP.java:122-155 | a round that meets nothing keeps the sides apart and every expanded vertex's neighbours seen |
| SapSearches.SapLoopExhaust | week_6/src/main/java/SAP.java:122-155 | a loop that ends without an ancestor has searched both sides to the end, and they share only vertices both started from |
| SapSearches.SapLoopTotal | week_6/src/main/java/SAP.java:122-155 | with every seen vertex in the graph, `adj` never throws |
| SapSearches.StartSides | week_6/src/main/java/SAP.java:119-120 | the start vertices are seen at depth 0 with no discoverer |
| SapSearches.SapSearchMeets | week_6/src/main/java/SAP.java:112-156 | a found ancestor is reachable from a vertex of each list along the recorded discoverer links |
| SapSearches.SapSearchExhaustive | week_6/src/main/java/SAP.java:112-156 | when no ancestor is found, the only vertices reachable from both lists are vertices both lists hold |
| SapSearches.SapSearchTotal | week_6/src/main/java/SAP.java:112-156 | the search throws only when a start vertex lies outside the graph |
| SapSearches.SapSearchTree | week_6/src/main/java/SAP.java:112-156 | the discoverer links of a finished search form search trees from the start vertices |
| SapSearches.IsolatedSelfSearch | week_6/src/main/java/SAP.java:112-156 | as written, `length(0, 0)` on a single vertex finds no ancestor |
| SapSearches.LastShared | week_6/src/main/java/MultiBFS.java:50-58 | the last vertex of `B` that `A` holds, and none exactly when they share none |
| SapSearches.CheckedTree | week_6/src/main/java/SAP.java:112-156 | the corrected search keeps search trees, and its ancestor is seen by both sides |
| SapSearches.SapSearchCheckedExact | week_6/src/main/java/SAP.java:112-156 | with the start check, an ancestor is reported exactly when some vertex is reachable from both lists, and a shared start vertex is reported at distance 0 |
| Saps.DfsFinds | week_6/src/main/java/SAP.java:63-73 | when `dfs` finds a cycle, there is a walk of one edge or more from `v` back to the origin |
| Saps.DfsAdjFinds | week_6/src/main/java/SAP.java:67-71 | a cycle found by the loop is a walk from a neighbour to the origin |
| Saps.DfsOverflows | week_6/src/main/java/SAP.java:63-73 | the recursion runs away only along a walk longer than the graph has vertices |
| Saps.DfsAdjOverflows | week_6/src/main/java/SAP.java:67-71 | a runaway recursion in the loop follows a long walk from a neighbour |
| Saps.DfsMisses | week_6/src/main/java/SAP.java:63-73 | when `dfs` returns false, no walk of one edge or more leads from `v` to the origin |
| Saps.DfsAdjMisses | week_6/src/main/java/SAP.java:67-71 | when the loop returns false, no walk from a neighbour ends at the origin |
| Saps.CycleCheckQuiet | week_6/src/main/java/SAP.java:55-59 | the check passes exactly when every `dfs(v, v)` returns false |
| Saps.CycleCheckAcyclic | week_6/src/main/java/SAP.java:52-60 | the check throws exactly when the graph has a cycle |
| Saps.ErrorOnCycle | week_6/src/main/java/SAP.java:52-60 | the exception the loop raises, which is none exactly when the graph is acyclic |
| Saps.Enqueue | week_6/src/main/java/SAP.java:119 | the start vertices queued in order and marked seen |
| Saps.MeetLoop | week_6/src/main/java/SAP.java:122-155 | the `while` loop computes the alternating level search, throwing `IllegalArgumentException` only through `adj` |
| Saps.MultiBfs.constructor | week_6/src/main/java/SAP.java:86-87 | no ancestor before the search |
| Saps.NestedSearch | week_6/src/main/java/SAP.java:112-156 | queueing both start lists and running the level loop gives the search as written, with no comparison of the start lists |
| Saps.SearchTrees | week_6/src/main/java/SAP.java:112-156 | a finished search leaves a search tree on each side, and its ancestor is seen by both |
| Saps.MultiBfs.Bfs | week_6/src/main/java/SAP.java:112-156 | the ancestor and the discoverer maps of the search as written, or the exception `adj` throws; both maps are search trees from their start lists |
| Saps.MultiBfs.FollowPath | week_6/src/main/java/SAP.java:101-110 | the length is the two depths of the ancestor added, or -1 without an ancestor; nothing else changes |
| Saps.MultiBfs.Run | week_6/src/main/java/SAP.java:86-90 | the ancestor of the search as written; the length is -1 exactly when there is no ancestor, and otherwise the edge count of an ancestral path through it |
| Saps.Sap.constructor | week_6/src/main/java/SAP.java:9-14 | the graph is kept |
| Saps.Sap.Make | week_6/src/main/java/SAP.java:9-14 | a missing graph and a graph with a cycle throw; otherwise the graph is kept |
| Saps.Sap.LengthAll | week_6/src/main/java/SAP.java:31-34 | with the search as written: -1 exactly when no ancestor is found, else the edge count of an ancestral path |
| Saps.Sap.AncestorAll | week_6/src/main/java/SAP.java:37-40 | with the search as written: the vertex where the two searches met, -1 when none |
| Saps.Sap.Length | week_6/src/main/java/SAP.java:17-21 | the list version on one vertex each, with the search as written, so a vertex without edges has length -1 to itself |
| Saps.Sap.Ancestor | week_6/src/main/java/SAP.java:24-28 | the list version on one vertex each, with the search as written |
| MultiBfses.LoadB | week_6/src/main/java/MultiBFS.java:50-58 | B's start vertices that A does not hold are queued and seen; the last one A holds is the ancestor |
| MultiBfses.AncestorKept | week_6/src/main/java/MultiBFS.java:63-67 | a known ancestor is only ever replaced by a vertex of the graph |
| MultiBfses.MultiLoopTree | week_6/src/main/java/MultiBFS.java:63-67 | the sides keep their search trees, and an ancestor is seen by both sides or is a start vertex of both |
| MultiBfses.LoadedSides | week_6/src/main/java/MultiBFS.java:46-58 | before the loop the sides are search trees of depth 0 and share no vertex |
| MultiBfses.MultiSearchMeets | week_6/src/main/java/MultiBFS.java:39-68 | a non-negative ancestor is reachable from a vertex of A and from one of B |
| MultiBfses.MultiLoopExhaust | week_6/src/main/java/MultiBFS.java:63-67 | without an ancestor, the loop ends only when both sides are searched to the end |
| MultiBfses.MultiSearchExhaustive | week_6/src/main/java/MultiBFS.java:39-68 | no ancestor is reported only when no vertex is reachable from both lists, under either loop guard |
| MultiBfses.MultiLoopAgree | week_6/src/main/java/MultiBFS.java:63-67 | with the corrected guard, the loop finds what the nested `SAP` search finds |
| MultiBfses.MultiSearchAgree | week_6/src/main/java/MultiBFS.java:39-68 | with the corrected guard, `MultiBFS` reports the ancestor of the start-checked `SAP` search |
| MultiBfses.SharedStartReplaced | week_6/src/main/java/MultiBFS.java:63 | as written, on the graph 0 -> 1 with A = [0] and B = [0, 1], the shared start 0 is replaced by the ancestor 1 |
| MultiBfses.SharedStartKept | week_6/src/main/java/MultiBFS.java:63 | with the corrected guard, a shared start vertex ends the search before any level |
| MultiBfses.LoadBStep | week_6/src/main/java/MultiBFS.java:50-58 | one more vertex of B is either taken as the ancestor or queued and seen |
| MultiBfses.QueueStarts | week_6/src/main/java/MultiBFS.java:46-49 | A's start vertices queued in order and seen |
| MultiBfses.MultiBfs.constructor | week_6/src/main/java/MultiBFS.java:15-17 | no ancestor and empty discoverer maps |
| MultiBfses.MultiBfs.BfsWorker | week_6/src/main/java/MultiBFS.java:21-37 | one level; a meeting records the ancestor and gives -1, otherwise the new queue size; `adj` throws for a vertex outside the graph |
| MultiBfses.MultiBfs.Load | week_6/src/main/java/MultiBFS.java:46-58 | A's side, B's side less A's vertices, and the last shared vertex as the ancestor |
| MultiBfses.MultiBfs.BfsMaster | week_6/src/main/java/MultiBFS.java:39-68 | the ancestor and discoverer maps of the search under the loop guard as written, or the exception `adj` throws |
| MultiBfses.MultiBfs.Make | week_6/src/main/java/MultiBFS.java:15-19 | the ancestor and maps of the search under the guard as written, or the exception `adj` threw |
| BreadthFirst.VertexSet.constructor | week_6/src/main/java/BFS.java:17 | an empty set |
| BreadthFirst.Contains | week_6/src/main/java/BFS.java:57 | a missing other set throws `NullPointerException`; otherwise whether the other side has seen the vertex |
| BreadthFirst.HitsUnion | week_6/src/main/java/BFS.java:57-59 | the hits among two batches of discoveries are the hits of each |
| BreadthFirst.VisitStep | week_6/src/main/java/BFS.java:53-61 | the loop over `adj(cur)` in `step` discovers what a level's visit does, and adds the discovered vertices the other side has seen |
| BreadthFirst.PopStep | week_6/src/main/java/BFS.java:51-62 | popping `n` vertices discovers what a level that meets nothing does, throwing where it throws |
| BreadthFirst.StepIsLevel | week_6/src/main/java/BFS.java:49-64 | `step` leaves the side a whole level leaves, and adds to `ancestors` exactly the new vertices the other side has seen |
| BreadthFirst.FirstHit | week_6/src/main/java/BFS.java:40-45 | the first position of the iteration order holding a vertex of the set, or the length when none does |
| BreadthFirst.Bfs.constructor | week_6/src/main/java/BFS.java:14-24 | the start vertices queued in order and seen, no discoverer and no link yet |
| BreadthFirst.Bfs.Sync | week_6/src/main/java/BFS.java:27-46 | links the two sides both ways and adds to `ancestors` the first of this side's vertices, in iteration order, that the other side has seen |
| BreadthFirst.Bfs.Step | week_6/src/main/java/BFS.java:49-64 | the queue, seen set, discoverers and ancestors after one level, and the new queue size; throws as the level does |
| BreadthFirst.StepAdj | week_6/src/main/java/BFS.java:53-61 | the loop over `adj(cur)` computes the visit of `cur`'s neighbours |

## Left out

- `BinaryStdIn`/`BinaryStdOut`, `System.in`/`System.out` and the `main` methods: the streams are byte sequences, and what is read or written is the input or the result of a method.
- `CircularSuffix.hashCode` is not part of this model.
- `MoveToFront`'s nested `MTFData` and its `encode`/`decode(char[])` are the same text as `MoveToFrontData` and `MoveToFrontChar`, and are modelled once, by those modules.
- LsdSort.Sort: requires every character below `R` (`Fits`). `sort` throws `ArrayIndexOutOfBoundsException` for a larger character (week_10/src/main/java/CircularSuffix.java:39-41); that path is not modelled.
- CircularSuffixes.CircularSuffix.CharAt: requires a non-empty string. Java's `% 0` throws `ArithmeticException` for an empty one; that path is not modelled.
- `Arrays.sort` in `CircularSuffixArray` is a library call. It is modelled by a stable insertion sort, which gives the same order because Java's object sort is stable.
- `RandomizedQueue`: `StdRandom` is replaced by an index parameter, so the model states what happens for every choice, not how likely each one is.
- Percolations.QuickFind: `WeightedQuickUnionUF` is a library class. It is modelled as a quick-find label array with the same `union`/`find` meaning, not with its tree shape or cost.
- The `Modular` primes come from `BigInteger.probablePrime` and are parameters of the model. The hash function that `WordHash.hashFn` holds globally is a parameter (`fn`) of every operation that uses it.
- The published FNV-1a test vectors are not worked out: the XOR of 64-bit values is too costly to evaluate on concrete inputs here. The model states the constants and the step as written.
- Hash collisions: the model does not claim that different words have different hashes. `WordMap` and the solver are stated in terms of hash keys.
- WordHashes.DFSHash.Extend: takes a non-null parent. Java accepts any `WordHash` and throws `NullPointerException` on null (week_9/src/main/java/DFSHash.java:28); that path is not modelled.
- BoggleSolvers.BoggleSolver.ScoreOf: `WordMap` has no `validWord(String)`, which week_9/src/main/java/ericghara/week_9/BoggleSolver.java:67 calls. The model reads it as a dictionary look-up of the word's key.
- BoggleSolvers.BoggleSolver.GetAllValidWords: the contract states that every word found is a dictionary word spelled by a path of distinct adjacent tiles, and that no word is found twice. It does not state that every such dictionary word is found.
- BoggleSolvers.FnvBoggleSolver.GetAllValidWords: the same as the other copy; completeness is not stated.
- `BoggleBoard` is a library class, modelled as a row-major grid of letters.
- `HashSet` and `HashMap` iteration order is not specified by Java. Where the result depends on it (`BFS.sync`), the order is a parameter (`order`).
- `Energies` and `PixMap` are not part of this model: they compute `Math.sqrt` energies over `Picture` pixels. So `SeamCarver.picture`, `energy`, `findHorizontalSeam`, `findVerticalSeam` and the pixel updates of the seam removals are left out. Only their argument checks are modelled.
- `SeamCarver.checkPixel` is not part of this model. Nothing calls it.
- `VertexWeightedSPs`: the weights are integers with an explicit infinity, not IEEE doubles. Rounding and NaN are not modelled.
- `Eliminators`: `FordFulkerson` and `FlowNetwork` are library classes. The max-flow is the parameter `inCut`, which says which vertices are on the source side of the minimum cut. The proofs do not depend on how it is computed.
- EliminationNetworks.SinkEdges: a sink edge with a negative capacity is built where `FlowEdge` throws `IllegalArgumentException`. This happens when a team has more wins than the examined team can reach, or when the `int` subtraction wraps round. `EliminationNetworks.NetworkAdmissible` shows that every capacity is non-negative when the team is not trivially eliminated and no team has negative wins.
- The infinite capacities of the game edges are a separate constructor `Infinite`, not `Double.POSITIVE_INFINITY`.
- Reading a division or league file (`In`) is not modelled. The rows of the file are the input.
- `BaseballElimination` and `DivisionEdgeContainer` are not part of this model: `Eliminator` supersedes them, and as written they do not agree with the other classes.
- Saps.Sap.LengthAll: states that an ancestral path of that length exists through the reported ancestor, not that it is the shortest one. The search stops at the first meeting, and that can be longer. For example, with edges 0->2, 0->3, 2->4, 3->1 and 1->4, and `adj(0)` listing 2 before 3, `length(0, 1)` meets at 4 and gives 3, while 0->3->1 has length 2.
- Saps.Sap.Length: as for `LengthAll`, shortness is not stated.
- `MultiBFS` keeps `aSize`/`bSize` in `double` variables. The model uses integers: they only ever hold queue sizes or -1.
- The state of an object after an exception is not modelled beyond what each method's contract says; the exception is the result.
- `SAP` copies the graph (`new Digraph(G)`). The model keeps the same value, since a sequence cannot be aliased.
- JVM stack depth: the recursion of `ErrorOnCycle.dfs` overflows only when it runs away without end, and the model reports exactly that case as `StackOverflow`. A deep but finite recursion that would exhaust a real stack is not modelled.
- `WordNet` and `Outcast` are not part of this model: they parse files and call into `SAP`.
- Plain getters that only read a field (`getId`, `getTeamName`, `getPathA`, `getAncestor`, …) are the fields of the classes.
- `RandomizedQueue` and `Deque` hold items of a type parameter. A null item is an `Option`.

## Findings

| source | as written | input that shows it | evidently intended | confidence | as-written member | corrected member |
|---|---|---|---|---|---|---|
| week_6/src/main/java/SAP.java:119-120 | the nested `MultiBFS.bfs` never checks whether a start vertex of `v` is also one of `w` | `length(0, 0)` on a graph of one vertex and no edge gives -1 | the vertex is its own common ancestor, at length 0 | not executed | SapSearches.IsolatedSelfSearch | SapSearches.SapSearchCheckedExact |
| week_6/src/main/java/MultiBFS.java:63 | the guard `aSize > 0 \|\| bSize > 0 && ancestor < 0` binds `&&` first, so the loop runs a level of A even when an ancestor is known | graph 0 -> 1, A = [0], B = [0, 1]: the shared start 0 is found, then replaced by 1 | stop as soon as an ancestor is known: `(aSize > 0 \|\| bSize > 0) && ancestor < 0` | not executed | MultiBfses.SharedStartReplaced | MultiBfses.SharedStartKept |
| week_10/src/main/java/BurrowsWheeler.java:13-14 | `transform` writes nothing for an empty input, not even the header | the empty input: `inverseTransform` of nothing throws `NoSuchElementException` in `readInt` | write the header for every input, so that the inverse gives back the empty input | not executed | BurrowsWheelerStream.EmptyRoundTrip | BurrowsWheelerStream.RoundTripAll |
