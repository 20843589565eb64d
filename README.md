# Verified models of the CS 223 course programs

This project is a Dafny model of the logic of a set of small C programs. Each
program works on integers, strings, arrays and linked structures. Each C source
file is modelled by one Dafny module (pancake.c by three), and the properties its
code and comments promise are proved about that model.

- **pancake** (`pancake.dfy`, `pancake_search.dfy`, `pancake_main.dfy`,
  `hashtable.dfy`, `linked_list.dfy`, `queue.dfy`) solves the two-dimensional
  pancake puzzle. A configuration is a width x height string in row-major
  order. A move flips the top-left block of the grid vertically or
  horizontally. main runs a breadth-first search from INITIAL and from GOAL at
  the same time, both sides sharing one queue. Each search record
  (config, prev, len, fromGoal) is kept in a chained hash table of headed
  linked lists. When the two searches meet within MAXLENGTH flips, main walks
  both predecessor chains and prints the path. The queue is the circular
  singly-linked FIFO of Merge16/Queue.c, which pancake.c uses through its
  Queue interface.
- **Merge16** (`merge16.dfy`, `queue.dfy`) is a stable bottom-up merge sort of
  the lines of the named files. Lines are compared by strnCompare: up to LEN
  characters from position POS, set with the flag -POS[,LEN]. The sort is
  driven by two circular queues.
- **Words16** (`tree.dfy`, `words16.dfy`) counts the words of text files in a
  leaf tree. Every node carries its weight and its weighted external path
  length (WEPL). A rotation happens when it would cut the WEPL by more than the
  factor lim. The command line inserts the words of files, deletes them (-d),
  changes lim (-set) and prints reports (-dump, -print, -epl).
- **Subst16** (`subst16.dfy`) is a line filter driven by rules FROM TO FLAGS.
  - FROM has the wildcard '.' and the escapes "@." and "@@".
  - In TO, each '^' stands for the matched text. The header of Subst16/Subst16.c also promises that '@' escapes '^', but the code does not implement it (see Findings).
  - The flags choose one substitution (q), a rescan after the insertion (g) or
    a rescan from its start (r), and the rule to go to after success (S) or
    failure (F).
- **Psched** (`psched.dfy`) schedules tasks on nProcs processors. It offers
  least workload, best workload and their sorted-descending variants, and a
  backtracking search for the optimal maximum load between an upper and a
  lower bound.
- **Boggle** (`boggle.dfy`) reads a dictionary into a trie. It then counts, for
  every dictionary word, the walks on an nr x nc board that spell it:
  - a walk moves between the eight neighbouring cells;
  - '_' stands for any letter;
  - with -t, no cell is used twice.
  It reports the words found with their counts, or, with -c, the words never
  found.
- **heaps** (`heaps.dfy`) is an array binary heap that is a max-heap or a
  min-heap by a flag. A pair of such heaps keeps the running median of a
  stream of integers.

`common.dfy` holds what the programs share: Option and Result, the C character
classes, and the order strcmp puts on strings.

How C becomes Dafny:
- State that the C code changes in place is modelled in place. Examples are the
  queue's nodes, the hash table's chains, the heap arrays, Psched's processor
  arrays, Subst16's Replacement, and Boggle's availability array and move
  slots. These become classes and arrays with `modifies` clauses. Each method
  is proved against a specification function, and the lemmas are proved about
  that function.
- Pure code becomes functions.
- Process exits through die or exit become error results.
- Input files and standard input become sequences of lines.
- Output becomes the sequence of lines printed.

## Model

| member | source | states |
|---|---|---|
| `PancakeList.Find` | pancake/LinkedList.c:94-104 | the lookup finds a payload exactly when some node carries the key, and what it finds is the payload of a node with that key |
| `PancakeList.FirstIndex` | pancake/LinkedList.c:96 | the position where the key comparison stops: no earlier node has the key, and the node there has it |
| `PancakeList.RemoveFirstSpec` | pancake/LinkedList.c:123-135 | unlinking is a no-op when the key is absent; otherwise exactly the first node with the key goes and the others keep their order |
| `PancakeList.RemoveFirstUnique` | pancake/LinkedList.c:112-114 | with unique keys, no node with the key is left after the removal, keys stay unique and every other key's lookup is unchanged |
| `PancakeList.FindRemovedElsewhere` | pancake/LinkedList.c:131 | unlinking a node with a different key leaves the lookup of a key unchanged |
| `PancakeList.FindAppend` | pancake/LinkedList.c:47-60 | after appending a node with a fresh key, that key finds the new payload and every other key finds what it found before |
| `PancakeList.List.constructor` | pancake/LinkedList.c:27-32 | a new list holds only the sentinel, so it has no nodes |
| `PancakeList.List.AppendL` | pancake/LinkedList.c:47-60 | exactly one node, keyed by the record's configuration, is added at the end and the existing order is kept |
| `PancakeList.List.IsEmptyL` | pancake/LinkedList.c:73-79 | true exactly when no node follows the sentinel |
| `PancakeList.List.RetrieveL` | pancake/LinkedList.c:94-104 | returns the payload of the first node whose key equals the given key by content, or nothing |
| `PancakeList.List.RemoveL` | pancake/LinkedList.c:123-135 | the prev/cur walk unlinks the first node with the key (see RemoveFirstSpec) |
| `PancakeList.List.DestroyL` | pancake/LinkedList.c:151-163 | the list is left without nodes |
| `PancakeList.FirstIndexAt` | pancake/LinkedList.c:126-130 | the node where the walk stops is the first one with the key |
| `CircularQueue.Node.constructor` | Merge16/Queue.c:63-66 | a new node holds the line and no successor yet |
| `CircularQueue.Queue.constructor` | Merge16/Queue.c:44-47 | a new queue (tail pointer NULL) is empty and satisfies the ring invariant |
| `CircularQueue.Queue.AddQ` | Merge16/Queue.c:61-85 | the new node becomes the tail and points to the head; the contents become the old contents followed by the line, and the ring invariant is kept |
| `CircularQueue.Queue.IsEmptyQ` | Merge16/Queue.c:98-104 | true exactly when the queue holds nothing |
| `CircularQueue.Queue.HeadQ` | Merge16/Queue.c:119-129 | false on an empty queue; otherwise returns the front, read through the tail, and changes nothing |
| `CircularQueue.Queue.RemoveQ` | Merge16/Queue.c:144-164 | on a non-empty queue returns the front and leaves the rest in order; on an empty queue returns false and changes nothing; the ring invariant is kept, including the single-node case |
| `CircularQueue.Queue.DestroyQ` | Merge16/Queue.c:177-195 | the queue becomes empty |
| `CircularQueue.FifoRoundTrip` | Merge16/Queue.c:61-85 | adding a run of lines to a new queue and then removing until empty yields the lines in insertion order |
| `PancakeHashtable.NextShift` | pancake/Hashtable.c:146-149 | the shift advances by 7 and wraps at 57, so it always stays below 57 |
| `PancakeHashtable.HashState` | pancake/Hashtable.c:144-150 | the (sum, shift) accumulator after the characters of the key, with the shift below 57 throughout |
| `PancakeHashtable.Finish` | pancake/Hashtable.c:151 | the 64-bit product of the prime and the sum, reduced modulo the size, lies in [0, size) |
| `PancakeHashtable.HashOf` | pancake/Hashtable.c:139-152 | the hash of a key is a deterministic bucket index in [0, size) |
| `PancakeHashtable.Hash` | pancake/Hashtable.c:139-152 | the accumulator loop computes HashOf, so its result is a bucket index in [0, size) |
| `PancakeHashtable.HashFn` | pancake/Hashtable.c:56 | every key is sent to a bucket in [0, size) |
| `PancakeHashtable.EmptyTableOk` | pancake/Hashtable.c:30-38 | a table of empty chains represents the empty map |
| `PancakeHashtable.LookupOk` | pancake/Hashtable.c:82-85 | searching the key's own chain answers exactly what the abstract map holds for the key |
| `PancakeHashtable.TableOkByParts` | pancake/Hashtable.c:55-63 | given well-formed chains, the table invariant reduces to the lookup condition for every key |
| `PancakeHashtable.AddOk` | pancake/Hashtable.c:55-63 | appending a node for an absent key to its chain represents the map extended by that key |
| `PancakeHashtable.RemoveOk` | pancake/Hashtable.c:102-106 | unlinking the key's node from its chain represents the map without that key |
| `PancakeHashtable.OneEntryPerKey` | pancake/Hashtable.c:57-62 | two nodes of the table with the same key are the same node: at most one entry per key string |
| `PancakeHashtable.RemoveFirstKeeps` | pancake/LinkedList.c:123-135 | unlinking never introduces a node that was not in the chain |
| `PancakeHashtable.Hashtable.constructor` | pancake/Hashtable.c:30-38 | a new table has the requested number of buckets, all empty, and represents the empty map |
| `PancakeHashtable.Hashtable.RetrieveH` | pancake/Hashtable.c:82-85 | returns the payload stored for the key, or nothing (NULL) for a key not present |
| `PancakeHashtable.Hashtable.AddH` | pancake/Hashtable.c:55-63 | returns false and leaves the map unchanged when the key is present; otherwise stores the payload under the key and returns true |
| `PancakeHashtable.Hashtable.RemoveH` | pancake/Hashtable.c:102-106 | deletes the key's entry when present, is a no-op otherwise, and leaves every other entry alone |
| `PancakeHashtable.Hashtable.DestroyH` | pancake/Hashtable.c:119-125 | every chain is destroyed, so the table holds no entry |
| `Pancake.BlockTarget` | pancake/pancake.c:323-329 | cell (r, c) of the fh x fw block lands in row r and column fw-1-c under a vertical flip, and in row fh-1-r and column c under a horizontal one, inside the first fh rows |
| `Pancake.Dst` | pancake/pancake.c:320-338 | the index each source cell is written to lies inside the w x h board |
| `Pancake.DstCells` | pancake/pancake.c:320-338 | a vertical flip sends (r, c) in the block to (r, fw-1-c), a horizontal flip sends it to (fh-1-r, c), and every cell outside the block stays in place |
| `Pancake.DstInvolution` | pancake/pancake.c:323-328 | applying the same flip's index map twice gives back every index |
| `Pancake.FlipPancake` | pancake/pancake.c:317-341 | the two copy loops fill a string of length w*h in which the cell at Dst(i) holds source cell i |
| `Pancake.FlipTwice` | pancake/pancake.c:323-328 | flipping the same block twice restores the configuration |
| `Pancake.FlipPermutes` | pancake/pancake.c:317-341 | a flip keeps the multiset of characters: the result is a permutation of the source |
| `Pancake.BatchParamsComplete` | pancake/pancake.c:368-381 | the double loop makes exactly the proper flips: a vertical flip for every width of at least 2 and every height, and a horizontal flip for every height of at least 2 and every width |
| `Pancake.BatchParamsCount` | pancake/pancake.c:366-381 | the double loop makes 2(w-1)(h-1)+(w-1)+(h-1) flips, the nStep of main |
| `Pancake.BatchParamsProper` | pancake/pancake.c:370-379 | no flip the loop makes is a 1 x 1 (identity) flip |
| `Pancake.Images` | pancake/pancake.c:372-379 | one image per flip, in the same order |
| `Pancake.ImagesAt` | pancake/pancake.c:372-379 | the m-th image is the configuration under the m-th flip |
| `Pancake.ImagesAppend` | pancake/pancake.c:368-381 | the images of two runs of flips are the images of the first run followed by those of the second |
| `Pancake.StepImages` | pancake/pancake.c:372-379 | one step (i, j) of the loop yields the vertical image when i != 0, then the horizontal image when j != 0 |
| `Pancake.OneFlipPermutes` | pancake/pancake.c:317-341 | a configuration one flip away has the same length and the same characters |
| `Pancake.OneFlipSymmetric` | pancake/pancake.c:323-328 | the one-flip relation is symmetric, since every flip undoes itself |
| `Pancake.NeighboursAreOneFlip` | pancake/pancake.c:361-383 | a configuration is in the batch exactly when it is one proper flip away |
| `Pancake.FillStep` | pancake/pancake.c:372-379 | the inner-loop body appends the images of step (i, j) to the batch written so far |
| `Pancake.GetBatch` | pancake/pancake.c:361-383 | returns a fresh array of nStep configurations equal to the neighbour sequence, in the loop's order |
| `Pancake.FillColumn` | pancake/pancake.c:369-380 | the inner loop over heights fills the images of column i right after those of the earlier columns |
| `PancakeSearch.Sort` | pancake/pancake.c:399-417 | the first len cells of sorted become an ascending permutation of the first len characters of unsorted, followed by a NUL; unsorted is not changed |
| `PancakeSearch.SinkDown` | pancake/pancake.c:407-413 | the inner while loop extends the ascending prefix by one cell, keeps the multiset of the array and leaves the cells after i alone |
| `PancakeSearch.SortedUnique` | pancake/pancake.c:265-267 | two ascending strings with the same characters are equal, which is why comparing sorted copies tests for a permutation |
| `PancakeSearch.SortedCopiesAgree` | pancake/pancake.c:265-269 | the sorted copies of INITIAL and GOAL agree exactly when GOAL is a permutation of INITIAL |
| `PancakeSearch.SamePancakes` | pancake/pancake.c:259-271 | the permutation test answers true exactly when the two strings have the same multiset of characters |
| `PancakeSearch.LeadingSpaces` | pancake/pancake.c:228 | strtol skips exactly the leading white space |
| `PancakeSearch.LeadingDigits` | pancake/pancake.c:228 | strtol consumes exactly the maximal run of decimal digits |
| `PancakeSearch.Decimal` | pancake/pancake.c:228 | a numeral is a non-empty run of digits |
| `PancakeSearch.DecimalRoundTrip` | pancake/pancake.c:228 | reading a numeral back gives the number it was written from |
| `PancakeSearch.ClampLong` | pancake/pancake.c:228 | an out-of-range conversion saturates at LONG_MIN or LONG_MAX, an in-range value is kept |
| `PancakeSearch.StrToL` | pancake/pancake.c:228 | the base-10 conversion leaves endptr inside the string and yields a long |
| `PancakeSearch.StrToLDecimal` | pancake/pancake.c:228-233 | a bare numeral is read completely, so endptr lands on the NUL and the value is the number |
| `PancakeSearch.LeadingDigitsAll` | pancake/pancake.c:228 | a string of digits is consumed to its end |
| `PancakeSearch.StrToLNoDigits` | pancake/pancake.c:228-233 | a string with no digit after its blanks and sign converts to 0 with endptr at its start, so it is rejected as a number |
| `PancakeSearch.ToInt` | pancake/pancake.c:228 | storing a long into an int keeps the value modulo 2^32 and keeps an int-range value unchanged |
| `PancakeSearch.ParseArgs` | pancake/pancake.c:219-273 | accepts exactly: three or five arguments, HEIGHT and WIDTH in [1,16] read completely (3x3 by default), MAXLENGTH at least 1, both strings of length HEIGHT*WIDTH and GOAL a permutation of INITIAL; each failing check gives its own error, in the source's order |
| `PancakeSearch.ParseDimensions` | pancake/pancake.c:227-244 | the HEIGHT check comes before the WIDTH check; the three-argument form yields 3 x 3 |
| `PancakeSearch.InitTriples` | pancake/pancake.c:288-298 | both records are roots: no predecessor, length 0, their own configuration, fromGoal 0 for INITIAL and 1 for GOAL |
| `PancakeSearch.ConsistentAdd` | pancake/pancake.c:119-127 | storing the child of a stored record (prev = its configuration, len + 1, same side) for a one-flip neighbour keeps every record sound |
| `PancakeSearch.InStrings` | pancake/pancake.c:119-127 | a string over an alphabet is among the strings of its length over that alphabet, so stored configurations range over a finite set |
| `PancakeSearch.InUniverse` | pancake/pancake.c:119-127 | every permutation of INITIAL belongs to the finite set of configurations the search can store |
| `PancakeSearch.SearchStateAdd` | pancake/pancake.c:119-127 | storing and enqueueing an unseen neighbour keeps the loop state: sound records, every queued configuration stored, keys among the permutations of INITIAL |
| `PancakeSearch.Visit` | pancake/pancake.c:115-136 | an unseen neighbour is stored as the child of cur and enqueued once; a seen one changes nothing and is a meeting exactly when its side differs and the two lengths sum to less than maxlen |
| `PancakeSearch.StoreChild` | pancake/pancake.c:119-127 | storing and enqueueing an unseen neighbour adds exactly its child record and one queue entry, and keeps the search state |
| `PancakeSearch.ProgressStep` | pancake/pancake.c:115-137 | one visit of the next neighbour in the batch extends what the expansion has established to one more neighbour |
| `PancakeSearch.Expand` | pancake/pancake.c:109-140 | expanding cur adds only children of cur, each one flip away; it stops at a meeting, and otherwise every one-flip neighbour of cur is stored afterwards |
| `PancakeMain.ChainFacts` | pancake/pancake.c:156-170 | following prev links from a stored record visits len+1 stored records of the same side, each linked to the next, and ends at that side's root |
| `PancakeMain.ChainFlips` | pancake/pancake.c:156-170 | consecutive configurations of a chain are one flip apart |
| `PancakeMain.Reverse` | pancake/pancake.c:175-179 | the chain printed backwards: the same length, entry i taken from the other end |
| `PancakeMain.PathIsSolution` | pancake/pancake.c:143-186 | the printed path for a meeting starts at INITIAL, ends at GOAL, has consecutive entries one flip apart and has cur.len + dict.len + 2 entries, so at most maxlen flips |
| `PancakeMain.CollectChain` | pancake/pancake.c:152-170 | the walk fills an array with the chain of predecessors from the start record back to its root |
| `PancakeMain.BuildPath` | pancake/pancake.c:143-186 | the printed lines are the INITIAL side's chain reversed followed by the GOAL side's chain, whichever of cur and dict came from GOAL |
| `PancakeMain.ReversedLines` | pancake/pancake.c:176-180 | the first printing loop prints the stored chain from its last entry to its first |
| `PancakeMain.WalkChain` | pancake/pancake.c:181-186 | the second printing loop prints the chain from a record to its root, after the lines already printed |
| `PancakeMain.OneSidedNoMeeting` | pancake/pancake.c:86-87 | with only INITIAL-side records there is no meeting, which is the situation when INITIAL equals GOAL and the second addH is refused |
| `PancakeMain.RootsState` | pancake/pancake.c:80-87 | the two root records and the two queued configurations form a valid loop state, with one record only when INITIAL equals GOAL |
| `PancakeMain.FewerUnseen` | pancake/pancake.c:119-127 | storing more permutations of INITIAL never increases the number of unseen ones, and storing a new one decreases it: the termination measure of the search |
| `PancakeMain.Round` | pancake/pancake.c:101-141 | one round keeps the loop state and either stores a new configuration or shortens the queue; a reported meeting is real |
| `PancakeMain.Loop` | pancake/pancake.c:101-141 | the loop ends with a valid state, and a reported meeting is a real one |
| `PancakeMain.Search` | pancake/pancake.c:59-204 | whatever main prints is a solution from INITIAL to GOAL with at most maxlen flips, and nothing is printed when INITIAL equals GOAL |
| `PancakeMain.Roots` | pancake/pancake.c:72-87 | the start of main leaves a fresh queue and table holding the two roots in a valid search state |
| `PancakeMain.RootTable` | pancake/pancake.c:86-87 | the table holds both roots, or only the first when the two configurations are equal |
| `Merge16.StrnCmp` | Merge16/Merge16.c:417 | the sign of strncmp: -1, 0 or 1 |
| `Merge16.StrnCompare` | Merge16/Merge16.c:397-418 | the key comparison is 0 when pos is at or past the end of both lines, or when len is 0 |
| `Merge16.StrnCmpIsOrder` | Merge16/Merge16.c:417 | strncmp on n characters orders as strcmp on the first n characters of each string |
| `Merge16.StrnCompareIsKeyOrder` | Merge16/Merge16.c:397-418 | the comparison orders two lines as strcmp orders their keys: at most len characters from pos, clamped to each line's length |
| `Merge16.StrnCompareAntisymmetric` | Merge16/Merge16.c:397-418 | swapping the two lines negates the comparison |
| `Merge16.LeKeys` | Merge16/Merge16.c:122 | a line may precede another exactly when its key equals or strcmp-precedes the other's key |
| `Merge16.LeTotal` | Merge16/Merge16.c:122 | of two lines, one may always precede the other |
| `Merge16.LeReflexive` | Merge16/Merge16.c:122 | every line may precede itself |
| `Merge16.LeTransitive` | Merge16/Merge16.c:122 | the may-precede relation is transitive |
| `Merge16.GreaterKeysDiffer` | Merge16/Merge16.c:122 | lines that compare strictly greater have different keys |
| `Merge16.StableIsPermutation` | Merge16/Merge16.c:10-14 | an output that keeps every class of equal keys in input order is a permutation of the input |
| `Merge16.Merge` | Merge16/Merge16.c:111-166 | merging two runs keeps every line: the length is the sum of the two lengths |
| `Merge16.MergePermutation` | Merge16/Merge16.c:111-166 | the merge is a permutation of the two runs together |
| `Merge16.HeadIsLeast` | Merge16/Merge16.c:122 | the head of a sorted run may precede every line of it |
| `Merge16.MergeSorted` | Merge16/Merge16.c:111-166 | merging two sorted runs gives a sorted run |
| `Merge16.NoneEquivalent` | Merge16/Merge16.c:122-125 | when a sorted run's head compares greater than a line, no line of the run has that line's key |
| `Merge16.MergeStable` | Merge16/Merge16.c:119-130 | P's line is taken unless it compares strictly greater, so within each class of equal keys the lines of the P run come first and each run keeps its order |
| `Merge16.DealAppend` | Merge16/Merge16.c:131-137 | a new run goes to P after an even number of runs and to Q after an odd number |
| `Merge16.MergeRunsOk` | Merge16/Merge16.c:99-169 | a pass turns sorted runs of up to g lines, all full but the last, into sorted runs of up to 2g lines of the same shape |
| `Merge16.MergeRunsStable` | Merge16/Merge16.c:99-169 | a pass keeps every class of equal keys in input order |
| `Merge16.FewRuns` | Merge16/Merge16.c:86 | once 2g lines or fewer are left in runs of g, there are at most two runs, one per queue |
| `Merge16.ManyRunsAreLong` | Merge16/Merge16.c:86 | more than two runs of g hold more than 2g lines, so the pass loop goes on |
| `Merge16.PairRunsAppend` | Merge16/Merge16.c:279-310 | each completed pair forms its own ordered run and a leftover line forms a run of one |
| `Merge16.PairRunsOk` | Merge16/Merge16.c:279-327 | the runs formed while reading are sorted, hold two lines each except possibly the last |
| `Merge16.PairRunsStable` | Merge16/Merge16.c:289-295 | pairing keeps every class of equal keys in input order |
| `Merge16.Sort2Stable` | Merge16/Merge16.c:289-295 | ordering a pair never swaps two lines of equal key |
| `Merge16.DigitRun` | Merge16/Merge16.c:207-211 | the run of digits strtol consumes: all digits, followed by a non-digit or the end |
| `Merge16.ParseArgs` | Merge16/Merge16.c:197-233 | a first argument not starting with '-' leaves pos 0, len INT_MAX and the first file at argv[1]; an accepted flag moves the first file to argv[2]; every rejection is the "Invalid -POS,[LEN]" error |
| `Merge16.ParsePos` | Merge16/Merge16.c:207-215 | "-P" sets pos to P and leaves len at INT_MAX |
| `Merge16.ParsePosLen` | Merge16/Merge16.c:217-224 | "-P,L" sets pos to P and len to L |
| `Merge16.ParsedFlag` | Merge16/Merge16.c:200-231 | an accepted flag is "-" followed by digits, optionally followed by "," and digits, and nothing else |
| `Merge16.StripOne` | Merge16/Merge16.c:272-276 | exactly one trailing newline is removed and a line without one is kept |
| `Merge16.NextFile` | Merge16/Merge16.c:269-316 | one more readable file extends the lines read by its lines, each stripped |
| `Merge16.PairingStart` | Merge16/Merge16.c:265-267 | before any line, both queues are empty and lines go to P |
| `Merge16.PairingWait` | Merge16/Merge16.c:279-281 | a line read after an even number of lines waits as line1 |
| `Merge16.PairingPair` | Merge16/Merge16.c:284-309 | a line read after an odd number of lines completes the pair, which goes in order to the current side, and the side switches |
| `Merge16.PairingLast` | Merge16/Merge16.c:319-327 | after the leftover line is added, P and Q hold the runs of the input dealt alternately, starting with P |
| `Merge16.Emit` | Merge16/Merge16.c:131-137 | the line is appended to P when left, and to Q otherwise |
| `Merge16.AddPair` | Merge16/Merge16.c:289-305 | the two lines of a pair are appended in order, the first one first unless it compares strictly greater |
| `Merge16.EnqueueLine` | Merge16/Merge16.c:272-310 | one line read keeps the pairing state and the counters pLen and qLen equal to the queue lengths |
| `Merge16.ReadLine` | Merge16/Merge16.c:271-311 | one round of the getLine loop processes the next stripped line of the file |
| `Merge16.EnqueueFile` | Merge16/Merge16.c:270-312 | all lines of one file are processed in order |
| `Merge16.ReadFile` | Merge16/Merge16.c:269-315 | one round of the file loop processes every line of the next readable file |
| `Merge16.ReadFiles` | Merge16/Merge16.c:269-316 | the file loop succeeds exactly when every file can be opened, having processed all their lines in order |
| `Merge16.FlushLast` | Merge16/Merge16.c:319-327 | after the leftover line, P holds the runs dealt first, third, ... and Q the second, fourth, ... |
| `Merge16.EnqueueFiles` | Merge16/Merge16.c:257-328 | fails exactly when a file cannot be opened; otherwise P and Q hold the sorted pairs of the stripped input lines dealt alternately, starting with P, and pLen + qLen is the number of lines |
| `Merge16.MergeTake` | Merge16/Merge16.c:122-130 | the next merged line is P's head unless that compares strictly greater than Q's head |
| `Merge16.Move` | Merge16/Merge16.c:123-137 | removes the head of P or Q and appends it to P when left, to Q otherwise |
| `Merge16.WindowTest` | Merge16/Merge16.c:111-114 | the loop test on the subgroup and pass counters holds exactly when lines of the run remain |
| `Merge16.HeadStep` | Merge16/Merge16.c:115-137 | one round of the first inner loop moves the next merged line to the output side and advances that run's counters |
| `Merge16.MergeHeads` | Merge16/Merge16.c:111-138 | the first inner loop merges while both runs last, ending with one run used up |
| `Merge16.DrainStep` | Merge16/Merge16.c:141-165 | one round of a draining loop moves the head of the remaining run to the output side |
| `Merge16.DrainP` | Merge16/Merge16.c:141-152 | the rest of P's run goes to the output side once Q's run is used up |
| `Merge16.DrainQ` | Merge16/Merge16.c:155-166 | the rest of Q's run goes to the output side once P's run is used up |
| `Merge16.MergeGroup` | Merge16/Merge16.c:100-168 | one subgroup appends the merge of P's next run and Q's next run to the side left selects, and the counters advance by the run lengths |
| `Merge16.PassStart` | Merge16/Merge16.c:89-96 | the counters reset at the start of a pass describe a pass with nothing merged yet |
| `Merge16.PassTest` | Merge16/Merge16.c:99 | the pass loop continues exactly when runs are left to merge |
| `Merge16.PassSplit` | Merge16/Merge16.c:111-114 | the next subgroup takes the first remaining run of P and of Q, each at most groupSize lines |
| `Merge16.PassStep` | Merge16/Merge16.c:167-168 | the merged subgroup becomes the next run of the pass and the output side switches |
| `Merge16.DealStep` | Merge16/Merge16.c:131-137 | the merged run is dealt to the queue left selects |
| `Merge16.MergeSubgroup` | Merge16/Merge16.c:99-169 | one round of the pass loop merges the next pair of runs and leaves fewer runs to merge |
| `Merge16.MergePass` | Merge16/Merge16.c:89-169 | a pass leaves P and Q holding the merged runs dealt alternately, starting with P, and moves all nLines lines |
| `Merge16.PassEnd` | Merge16/Merge16.c:99 | when no run is left, the queues hold the runs of the next pass and the counters sum to nLines |
| `Merge16.MergeFront` | Merge16/Merge16.c:356-360 | the next line of the final merge is Q's head only when P's head compares strictly greater |
| `Merge16.OutputHead` | Merge16/Merge16.c:352-363 | one round of the first output loop writes the next line of the merge |
| `Merge16.WriteMerged` | Merge16/Merge16.c:351-364 | the first output loop writes a prefix of the merge until one queue is empty |
| `Merge16.WritingRest` | Merge16/Merge16.c:366-377 | once a queue is empty, what is left of the merge is the other queue |
| `Merge16.WriteAll` | Merge16/Merge16.c:366-377 | the draining loop writes every remaining line of the queue in order and empties it |
| `Merge16.OutputLines` | Merge16/Merge16.c:346-378 | the output is the merge of P and Q, and both queues are left empty |
| `Merge16.LastMerge` | Merge16/Merge16.c:172 | with at most one run in each queue, the final merge is sorted and stable with respect to the input |
| `Merge16.FirstRuns` | Merge16/Merge16.c:257-328 | the runs formed while reading are sorted runs of two that keep every class of equal keys in input order |
| `Merge16.NextRuns` | Merge16/Merge16.c:99-169 | a pass keeps the runs well formed at twice the size and stable with respect to the input |
| `Merge16.MergePasses` | Merge16/Merge16.c:86-170 | the passes for group sizes 2, 4, 8, ... end with at most one sorted run in each queue, stable with respect to the input |
| `Merge16.Run` | Merge16/Merge16.c:38-178 | no arguments gives no output; a bad flag is the flag error; a missing file is the file error; otherwise the output is a non-decreasing, stable permutation of the stripped lines of all files |
| `WeplTree.Create` | Words16/Tree.c:51-54 | the new tree is empty: it holds no pair and no key, and satisfies the tree invariants |
| `WeplTree.InitLeaf` | Words16/Tree.c:72-81 | a new leaf has wt = count, wepl 0, no children, and holds exactly the pair (k, count) |
| `WeplTree.Update` | Words16/Tree.c:95-101 | a leaf or NULL is unchanged; an internal node gets wt = left.wt + right.wt and a wepl that makes it annotated when its children are, with its key, children and leaves untouched |
| `WeplTree.UpdateAnnotated` | Words16/Tree.c:95-101 | on a node whose fields already agree with its children, update changes nothing |
| `WeplTree.Rotate` | Words16/Tree.c:141-171 | a rotation keeps the left-to-right sequence of (key, count) leaves, and so the keys and their counts |
| `WeplTree.RotateWellFormed` | Words16/Tree.c:141-171 | a rotation of a non-empty well-formed tree gives a non-empty well-formed tree |
| `WeplTree.HasKey` | Words16/Tree.c:34-38 | a non-empty well-formed subtree holds at least one key |
| `WeplTree.RotateOrdered` | Words16/Tree.c:141-171 | a rotation keeps the search order: keys greater than a node's key stay on its right |
| `WeplTree.WDiff` | Words16/Tree.c:116-127 | when the children are annotated, a rotation followed by update keeps the wt and lowers the wepl by exactly wDiff, so wDiff is the reduction a rotation achieves |
| `WeplTree.RotateLeftWepl` | Words16/Tree.c:122-123 | for a left rotation of a node with annotated children the wepl drops by right.right.wt - left.wt |
| `WeplTree.RotateRightWepl` | Words16/Tree.c:124-125 | for a right rotation of a node with annotated children the wepl drops by left.left.wt - right.wt |
| `WeplTree.Rebalance` | Words16/Tree.c:193-202 | the rotate-then-update step yields a non-empty well-formed tree |
| `WeplTree.RebalanceWepl` | Words16/Tree.c:193-202 | a rotation happens only when wDiff > lim, and then the wepl drops by wDiff, more than lim; otherwise the node is only updated; leaves, keys, order and wt are kept either way |
| `WeplTree.RebalancePositive` | Words16/Tree.c:193-202 | rebalancing keeps every leaf count positive |
| `WeplTree.Increment` | Words16/Tree.c:187-230 | increment always yields a non-empty well-formed tree |
| `WeplTree.IncrementLeaf` | Words16/Tree.c:205-228 | at a leaf or NULL, increment adds 1 to the count of k (a new leaf with count 1 if k was absent) and keeps the invariants; a split makes the internal key the smaller of the two |
| `WeplTree.IncrementNode` | Words16/Tree.c:190-202 | going back up through an internal node after the child was incremented keeps the invariants and the +1 for k |
| `WeplTree.IncrementCounts` | Words16/Tree.c:187-230 | increment keeps the invariants, adds k to the keys and adds exactly 1 to the count of k, leaving every other count unchanged |
| `WeplTree.IncrementSize` | Words16/Tree.c:205-228 | an existing key keeps the number of leaves; an absent key adds one leaf, with count 1 |
| `WeplTree.DeleteIn` | Words16/Tree.c:254-322 | delete at an internal node yields a non-empty well-formed tree |
| `WeplTree.Delete` | Words16/Tree.c:250-332 | delete always yields a well-formed tree |
| `WeplTree.WithoutAbsent` | Words16/Tree.c:285-287 | removing a key the tree does not hold leaves the leaves unchanged |
| `WeplTree.WithoutCount` | Words16/Tree.c:271-284 | removing a key's pairs zeroes its count and keeps every other count |
| `WeplTree.DeleteRight` | Words16/Tree.c:258-269 | after a delete in the right subtree, update and the right rotation on change keep the invariants and remove exactly k |
| `WeplTree.DeleteLeft` | Words16/Tree.c:290-301 | after a delete in the left subtree, update and the left rotation on change keep the invariants and remove exactly k |
| `WeplTree.DeleteAtRightLeaf` | Words16/Tree.c:271-287 | when k belongs to a right leaf, a match removes the leaf and the left sibling takes the node's place; no match leaves the leaves unchanged |
| `WeplTree.DeleteAtLeftLeaf` | Words16/Tree.c:303-319 | when k belongs to a left leaf, a match removes the leaf and the right sibling takes the node's place; no match leaves the leaves unchanged |
| `WeplTree.DeleteInValid` | Words16/Tree.c:254-322 | delete at an internal node keeps the invariants, removes exactly k's leaf, and reports a change exactly when k was present |
| `WeplTree.DeleteCounts` | Words16/Tree.c:250-332 | delete keeps the invariants, removes k's leaf and keeps every other count; an absent key leaves the leaves unchanged and a lone matching leaf gives the empty tree |
| `WeplTree.DeleteSize` | Words16/Tree.c:250-332 | a present key loses its one leaf and an absent key loses nothing |
| `WeplTree.DeleteInSize` | Words16/Tree.c:254-322 | the same count of leaves for delete at an internal node |
| `WeplTree.DumpShape` | Words16/Tree.c:345-356 | dump prints one line per node: 2n-1 lines for n leaves |
| `WeplTree.Dump` | Words16/Tree.c:345-356 | dump of a non-empty tree prints the root key first, and every leaf key appears among its lines |
| `WeplTree.PairsKeys` | Words16/Tree.c:369-380 | the keys printPairs prints are exactly the keys of the tree |
| `WeplTree.PrintPairsAscending` | Words16/Tree.c:369-380 | printPairs visits the leaves in strictly ascending strcmp order of their keys |
| `WeplTree.CountPositive` | Words16/Tree.c:205-208 | with positive counts, a key has a positive count exactly when the tree holds it |
| `WeplTree.PrintEpl` | Words16/Tree.c:393-401 | the empty tree reports 0, 0 |
| `WeplTree.PathLengthDeeper` | Words16/Tree.c:98 | one level deeper adds the subtree's weight once more to its external path length |
| `WeplTree.PrintEplReports` | Words16/Tree.c:393-401 | on an annotated tree printEPL reports the total count of the leaves and the weighted external path length computed from the definition |
| `Words16.CheckArg` | Words16/Words16.c:107-121 | exactly "-d", "-print", "-dump", "-epl" and "-set" map to their tags, each both ways, and every other string maps to OTHER |
| `Words16.LowerStr` | Words16/Words16.c:180-187 | lowercasing a word keeps its length |
| `Words16.SplitWords` | Words16/Words16.c:172-204 | every word the scan yields is non-empty and made of digits and lower-case letters |
| `Words16.WordsAreWords` | Words16/Words16.c:172-204 | every word of a line is non-empty and made of digits and lower-case letters |
| `Words16.SplitCover` | Words16/Words16.c:172-204 | run together, the words yielded from a point on are the word in progress followed by the remaining alphanumeric characters, lowercased |
| `Words16.WordsCoverLine` | Words16/Words16.c:172-204 | run together, the words of a line are exactly its alphanumeric characters, lowercased, in order |
| `Words16.SplitSeparate` | Words16/Words16.c:175-179 | a non-alphanumeric character ends the word in progress |
| `Words16.WordsSeparate` | Words16/Words16.c:175-179 | no word spans a non-alphanumeric character: the words around it are the words of each side |
| `Words16.SplitRun` | Words16/Words16.c:175-187 | reading an alphanumeric run adds it, lowercased, to the word in progress |
| `Words16.WordsOfRun` | Words16/Words16.c:175-187 | a maximal alphanumeric run alone is exactly one word, lowercased |
| `Words16.NoWords` | Words16/Words16.c:172-205 | a line with no alphanumeric character has no words, so it leaves the tree unchanged |
| `Words16.Apply` | Words16/Words16.c:188-198 | handing words to increment or delete keeps the tree well formed |
| `Words16.ApplyAppend` | Words16/Words16.c:172-204 | handing on two runs of words is handing on the first, then the second |
| `Words16.InsertCounts` | Words16/Words16.c:188-190 | inserting words keeps the tree valid, adds each word as a key and raises each key's count by its number of occurrences |
| `Words16.DeleteWords` | Words16/Words16.c:190-198 | deleting words keeps the tree valid, removes every word's leaf and keeps every other count |
| `Words16.WordsFrom` | Words16/Words16.c:173-187 | the words from a run's start are that run, lowercased, followed by the words after it |
| `Words16.SplitLine` | Words16/Words16.c:168-206 | the scan hands the maximal alphanumeric runs of the line, left to right and lowercased, to increment (insert) or delete |
| `Words16.SplitStep` | Words16/Words16.c:173-203 | one round of the outer loop hands on the run at the index, if any, and moves past it |
| `Words16.ScanRun` | Words16/Words16.c:175-178 | the inner loop stops at the first non-alphanumeric character at or after the start |
| `Words16.LowerWord` | Words16/Words16.c:180-187 | the copy loop yields the run, lowercased |
| `Words16.LowerStrSnoc` | Words16/Words16.c:182-186 | lowercasing one more character appends its lower-case form |
| `Words16.InsertRemoveFile` | Words16/Words16.c:138-151 | a file that cannot be opened is the "cannot open" error; otherwise every line's words go, in order, to increment or delete |
| `Words16.Run` | Words16/Words16.c:51-94 | main's argument loop, starting from the empty tree and lim 0, produces what the argument-by-argument dispatch specifies |
| `Words16.PositivePairs` | Words16/Tree.c:205-228 | every leaf count of a valid tree is at least 1 |
| `Words16.NonNegative` | Words16/Tree.c:95-101 | wt and wepl of a valid tree are never negative |
| `Words16.ExecSound` | Words16/Words16.c:51-94 | whatever the arguments, the tree stays valid and every report is sound: printed pairs in ascending key order with positive counts |
| `Words16.ReportSound` | Words16/Words16.c:65-70 | what -dump, -print and -epl report for a valid tree is sound |
| `Words16.ExecCountsWords` | Words16/Words16.c:60-64 | with file names only, each word's count is its number of occurrences in all files together, whatever lim is, and nothing is printed |
| `Words16.DeleteFileWords` | Words16/Words16.c:74-79 | "-d X" deletes the words of X: none of them is left in the tree and the rest of the arguments run on from there |
| `Words16.SetGovernsRest` | Words16/Words16.c:83-88 | "-set N" makes every later operation use lim = N |
| `Words16.LastFlagIsFile` | Words16/Words16.c:74-86 | "-d" or "-set" as the last argument is treated as a file name whose words are inserted |
| `Psched.FlagsNameAlgorithms` | Psched/Psched.c:94-102 | isFlag accepts exactly the five algorithm flags; applyFlag runs the algorithm a flag names and sends every other string to bwd |
| `Psched.MaxOfIsMax` | Psched/Psched.c:180-188 | the maximum is an element that no element exceeds |
| `Psched.ArgMin` | Psched/Psched.c:146-156 | the index argmin returns lies within the array |
| `Psched.ArgMinIsMin` | Psched/Psched.c:146-156 | argmin's index holds a smallest element, and every earlier element is strictly larger, so ties go to the lowest index |
| `Psched.Zeros` | Psched/Psched.c:219 | the memset processors array: n slots, all zero |
| `Psched.AddLoad` | Psched/Psched.c:271 | adding a task to processor k changes that slot by the task and no other |
| `Psched.Cleared` | Psched/Psched.c:268-269 | a fresh processors array of n zeros |
| `Psched.SumZeros` | Psched/Psched.c:219 | fresh processors carry no work |
| `Psched.SumAppend` | Psched/Psched.c:191-197 | the total of two runs of values is the sum of their totals |
| `Psched.SumUpdate` | Psched/Psched.c:271 | adding v to one slot adds v to the total |
| `Psched.MaxAtLeastAverage` | Psched/Psched.c:222-223 | the largest of n loads is at least their average |
| `Psched.LowBoundIsCeiling` | Psched/Psched.c:222-223 | for a non-negative total, sum / nProcs + (sum % nProcs != 0) with C's division is the ceiling of the average load |
| `Psched.LowBoundBelowMax` | Psched/Psched.c:222-223 | no assignment of a non-negative total has a maximum load below the lower bound |
| `Psched.Assign` | Psched/Psched.c:247 | assigning tasks by a plan keeps the number of processors |
| `Psched.AssignFirst` | Psched/Psched.c:247-252 | placing the first task and then the rest is one longer plan |
| `Psched.AssignSum` | Psched/Psched.c:247 | any assignment hands out all the work: the loads grow by the task total |
| `Psched.Argmin` | Psched/Psched.c:146-156 | the loop returns the lowest index of a smallest of the first n values |
| `Psched.Max` | Psched/Psched.c:180-188 | the loop returns the largest of the first n values |
| `Psched.SumOf` | Psched/Psched.c:191-197 | the loop returns the total of the first n values |
| `Psched.LowerSame` | Psched/Psched.c:202-212 | true exactly when some slot before j holds the value of slot j |
| `Psched.BestFit` | Psched/Psched.c:163-171 | the scan's result is -1 or an index of the array |
| `Psched.BestFitIsBest` | Psched/Psched.c:163-171 | -1 exactly when the task fits nowhere (load + task at most curMax and positive); otherwise the first index maximising load + task among those it fits |
| `Psched.BestWorkload` | Psched/Psched.c:162-177 | argmbw's choice is an index of the array |
| `Psched.BestWorkloadPicks` | Psched/Psched.c:162-177 | argmbw picks the first best fit when the task fits somewhere, and falls back to argmin otherwise |
| `Psched.Argmbw` | Psched/Psched.c:162-177 | the loop computes argmbw's choice over the first n processors |
| `Psched.Sort` | Psched/Psched.c:109-126 | the first n cells of sortedvalues become a descending permutation of the first n values; values is not changed |
| `Psched.Rise` | Psched/Psched.c:117-123 | the inner loop extends the descending prefix by one cell, keeps the multiset and leaves later cells alone |
| `Psched.LwLoads` | Psched/Psched.c:270-272 | least workload keeps the number of processors |
| `Psched.LwStep` | Psched/Psched.c:271 | one task goes to argmin's processor |
| `Psched.LwNext` | Psched/Psched.c:270-272 | one more task is one more least-workload step |
| `Psched.LwSum` | Psched/Psched.c:267-274 | least workload hands out all the work: the final loads sum to the task total |
| `Psched.LwAssign` | Psched/Psched.c:271 | the loop body performs one least-workload step on the array |
| `Psched.LwCore` | Psched/Psched.c:267-274 | returns the maximum load after giving each task, in order, to the argmin processor |
| `Psched.LwAboveBound` | Psched/Psched.c:221-223 | least workload's maximum load is at least the lower bound optCore uses |
| `Psched.BwRun` | Psched/Psched.c:284-290 | best workload keeps the number of processors |
| `Psched.BwStep` | Psched/Psched.c:285-289 | one task goes where argmbw says and curMax follows the largest load |
| `Psched.BwNext` | Psched/Psched.c:284-290 | one more task is one more best-workload step |
| `Psched.BwSum` | Psched/Psched.c:279-292 | best workload hands out all the work |
| `Psched.BwCurMaxBounds` | Psched/Psched.c:280-289 | curMax is never negative and never below any load |
| `Psched.BwStepExact` | Psched/Psched.c:285-289 | with a non-negative task, a step keeps curMax equal to the largest load |
| `Psched.BwCurMaxExact` | Psched/Psched.c:280-289 | with no negative task, curMax is exactly the largest load so far |
| `Psched.BwAssign` | Psched/Psched.c:285-289 | the loop body performs one best-workload step on the array and curMax |
| `Psched.BwCore` | Psched/Psched.c:279-292 | returns the maximum load after best-workload assignment with curMax the largest load so far |
| `Psched.OptBT` | Psched/Psched.c:231-262 | never returns more than the vsf it receives; a smaller result is the maximum load of a completion of the current loads; the loads are restored unless the search stopped on lowBnd; with no negative task a result other than lowBnd is at most the maximum load of every completion heuristics D and E allow |
| `Psched.Branch` | Psched/Psched.c:247-258 | one trial assignment descends only while the maximum stays below the best so far, and is undone unless lowBnd was reached; with no negative task the result beats every allowed completion after the trial step |
| `Psched.OptCore` | Psched/Psched.c:217-228 | the result is at most the least-workload value, a smaller result is achieved by some assignment, for a non-negative total it is at least the lower bound, and with no negative task no assignment of the tasks has a lower maximum load |
| `Psched.OptAboveBound` | Psched/Psched.c:217-228 | both candidates optCore can return lie at or above the lower bound |
| `Psched.AssignKeepsMax` | Psched/Psched.c:249-252 | adding tasks that are not negative never lowers the maximum load, which makes the pruning safe |
| `Psched.BeatsBelowMax` | Psched/Psched.c:249-252 | a value at most the current maximum load beats every completion when no task is negative |
| `Psched.BeatsNone` | Psched/Psched.c:242 | before the loop has tried a processor there is no allowed plan to beat |
| `Psched.BeatsNext` | Psched/Psched.c:242-259 | a processor that heuristic D or E skips starts no allowed plan, and a tried one is covered by its branch result |
| `Psched.RankHeadLess` | Psched/Psched.c:242-245 | a plan whose first processor is lower ranks lower, whatever follows |
| `Psched.AssignSwap` | Psched/Psched.c:245 | exchanging two processors throughout a plan exchanges their final loads |
| `Psched.MaxOfSwap` | Psched/Psched.c:180-188 | exchanging two slots keeps the maximum load |
| `Psched.AssignTwin` | Psched/Psched.c:244 | two equal tasks in a row may trade processors without changing the final loads |
| `Psched.Improve` | Psched/Psched.c:244-245 | a plan heuristic D or E rejects either breaks D at its first step or has a lower-ranked plan with the same maximum load |
| `Psched.SwapImproves` | Psched/Psched.c:245 | heuristic E: moving the plan from a processor to a lower one of equal load ranks lower and keeps the maximum load |
| `Psched.TwinImproves` | Psched/Psched.c:244 | heuristic D: letting the first of two equal tasks take the lower processor ranks lower and keeps the final loads |
| `Psched.TailImproves` | Psched/Psched.c:251-252 | a better plan for the rest keeps the first step in front of it |
| `Psched.Canonical` | Psched/Psched.c:242-245 | every plan has one that heuristics D and E let through with the same maximum load, so the skipped processors never hide a better value |
| `Psched.SumNonNegative` | Psched/Psched.c:191-197 | tasks that are not negative have a total that is not negative |
| `Psched.BoundBelowPlan` | Psched/Psched.c:222-223 | with no negative task no assignment has a maximum load below lowBnd |
| `Psched.BeatsPlan` | Psched/Psched.c:226-227 | a value beating every allowed plan from empty processors beats every plan |
| `Psched.OptIsOptimal` | Psched/Psched.c:217-228 | with no negative task, lowBnd or a value beating every allowed plan is at most the maximum load of every assignment |
| `Psched.SumMultiset` | Psched/Psched.c:297-300 | reordering the tasks keeps their total |
| `Psched.NonNegativePermuted` | Psched/Psched.c:297-300 | the descending copy has no negative task when the tasks have none |
| `Psched.SortedCopy` | Psched/Psched.c:298-299 | a fresh descending permutation of the tasks |
| `Psched.DescendingUnique` | Psched/Psched.c:109-126 | two descending sequences with the same values are equal, so the order that opt, lwd and bwd run on is fixed by the tasks alone |
| `Psched.RunOpt` | Psched/Psched.c:297-301 | -opt reports optCore's value on the tasks in descending order: within its bounds and, with no negative task, optimal |
| `Psched.RunLw` | Psched/Psched.c:303-305 | -lw reports least workload on the tasks as given |
| `Psched.RunLwd` | Psched/Psched.c:307-311 | -lwd reports least workload on the tasks in descending order |
| `Psched.RunBw` | Psched/Psched.c:313-315 | -bw reports best workload on the tasks as given |
| `Psched.RunBwd` | Psched/Psched.c:317-321 | -bwd reports best workload on the tasks in descending order |
| `Psched.ApplyFlag` | Psched/Psched.c:131-143 | the algorithm run is the one the flag selects, and its value is what that algorithm reports |
| `Psched.TasksOf` | Psched/Psched.c:69-71 | there are no more tasks than arguments |
| `Psched.FlagsOf` | Psched/Psched.c:74-76 | there are no more flags than arguments |
| `Psched.ArgsPartition` | Psched/Psched.c:62-78 | every argument becomes either a task or a flag (the counts add up), every stored flag is one of the five, and there are no tasks exactly when every argument is a flag |
| `Psched.SplitArgs` | Psched/Psched.c:55-78 | the argument loop fills the task array with the values of the non-flag arguments and the flag array with the flags, both in order |
| `Psched.SplitOne` | Psched/Psched.c:69-77 | one argument extends the task array or the flag array, as it is a flag or not |
| `Psched.Run` | Psched/Psched.c:45-91 | status 1 with nothing reported when there are no arguments, no tasks or a processor count of zero or less; otherwise status 0 and each flag, in order, reports the value of the algorithm it selects |
| `Boggle.Letter` | Boggle/Boggle.c:131 | slot j of a node belongs to the lower-case letter 'a' + j |
| `Boggle.InitTrie` | Boggle/Boggle.c:116-124 | a fresh node ends no word and has all 26 slots empty |
| `Boggle.AddTrie` | Boggle/Boggle.c:126-138 | adding keeps every node at one slot per letter |
| `Boggle.AddTrieEffect` | Boggle/Boggle.c:126-138 | after addTrie a path exists exactly where one existed or where it is a prefix of the remainder; the remainder's node ends a word and stores the word; every other node keeps its mark and its word |
| `Boggle.EmptyFinds` | Boggle/Boggle.c:116-124 | below a fresh node only the empty path exists, and no path ends a word |
| `Boggle.SearchTrie` | Boggle/Boggle.c:148-159 | true exactly when the letter path of the word exists below the node |
| `Boggle.PrefixesFound` | Boggle/Boggle.c:126-159 | after adding a word, searchTrie finds every prefix of it |
| `Boggle.Lowered` | Boggle/Boggle.c:222-232 | lower-casing keeps the length and maps each character through tolower |
| `Boggle.FilteredIsWord` | Boggle/Boggle.c:215-236 | a line is kept exactly when it has at least one character before the newline and all of them are letters; what is kept is that part, lower-cased, so a non-empty lower-case word |
| `Boggle.FilterLine` | Boggle/Boggle.c:215-236 | the loop keeps the line exactly as the filter describes, and refuses it at the first non-letter |
| `Boggle.Dictionary` | Boggle/Boggle.c:204-213 | the trie built from the input keeps one slot per letter at every node |
| `Boggle.DictionaryPaths` | Boggle/Boggle.c:204-213 | in the dictionary a path exists exactly when it is empty or a prefix of a kept line |
| `Boggle.DictionaryWords` | Boggle/Boggle.c:204-213 | the paths that end a word are exactly the kept lines, and each such node stores its own path as its word |
| `Boggle.LastLine` | Boggle/Boggle.c:207-211 | one more input line adds its filtered word, and its prefixes, and nothing else |
| `Boggle.ParseInput` | Boggle/Boggle.c:204-213 | the loop over the lines builds the dictionary trie |
| `Boggle.ParseArgs` | Boggle/Boggle.c:161-202 | usage error for fewer than four or more than six arguments or for options other than -c, -t or -c -t in that order; otherwise the nr, nc, board-size and board-character errors in that order; accepted exactly when all checks pass, with -c and -t set as given and a board of nr x nc letters or blanks |
| `Boggle.Moves` | Boggle/Boggle.c:238-258 | validMoves fills the eight direction slots |
| `Boggle.ValidMoves` | Boggle/Boggle.c:238-258 | the array holds up, down, left, right and the four diagonals, each the neighbouring cell or -1 at an edge |
| `Boggle.Cell` | Boggle/Boggle.c:242-256 | cell row * nc + col lies in row row and column col |
| `Boggle.SlotIsStep` | Boggle/Boggle.c:242-256 | slot d is the cell one step in direction d, or -1 exactly when that step leaves the board |
| `Boggle.RowInRange` | Boggle/Boggle.c:242-244 | every cell lies in one of the nr rows |
| `Boggle.StepCell` | Boggle/Boggle.c:242-256 | a step of at most one row and one column from a cell, staying on the board, reaches an adjacent cell |
| `Boggle.StepOfCell` | Boggle/Boggle.c:242-256 | every cell is its offset in rows and columns away from cur |
| `Boggle.SlotAdjacent` | Boggle/Boggle.c:242-256 | each slot is -1 or an adjacent cell |
| `Boggle.MovesAdjacent` | Boggle/Boggle.c:238-258 | every slot validMoves fills is -1 or a cell touching cur |
| `Boggle.MovesCover` | Boggle/Boggle.c:238-258 | every cell touching cur is in some slot |
| `Boggle.MovesDistinct` | Boggle/Boggle.c:238-258 | no cell fills two slots, so no neighbour is walked twice from one cell |
| `Boggle.Use` | Boggle/Boggle.c:82-95 | under -t the cell stepped onto becomes unusable and every other cell keeps its flag; without -t the flags are unchanged; the number of cells is kept |
| `Boggle.ChildValid` | Boggle/Boggle.c:30-35 | the children of a valid node are valid |
| `Boggle.DirsGainPositive` | Boggle/Boggle.c:78-99 | the directions add to a count exactly when one of them does |
| `Boggle.DirsGainAtLeast` | Boggle/Boggle.c:78-99 | the directions together add at least what each one adds |
| `Boggle.GainIffWalk` | Boggle/Boggle.c:74-102 | walkTrie adds to the count of a node exactly when that node ends a word and a walk from cur spells its path |
| `Boggle.GainHasWalk` | Boggle/Boggle.c:74-102 | a count walkTrie adds comes from a walk spelling the path |
| `Boggle.WalkHasGain` | Boggle/Boggle.c:74-102 | every walk spelling a word adds to its count |
| `Boggle.WalkUsesCellsOnce` | Boggle/Boggle.c:64-95 | with -t a walk steps only on usable cells and never on one cell twice |
| `Boggle.PrependSize` | Boggle/Boggle.c:84-95 | putting one cell in front of each walk keeps their number |
| `Boggle.WalksAreWalks` | Boggle/Boggle.c:74-102 | the walks walkTrie explores are exactly the walks from cur spelling the path |
| `Boggle.InWalksIsWalk` | Boggle/Boggle.c:74-102 | every explored walk is a walk |
| `Boggle.WalkInWalks` | Boggle/Boggle.c:74-102 | every walk is explored |
| `Boggle.DirsWalksStart` | Boggle/Boggle.c:78-99 | a walk explored by the directions starts in one of them |
| `Boggle.DirsWalksHas` | Boggle/Boggle.c:78-99 | a walk starting in one of the directions is explored by them |
| `Boggle.GainCountsWalks` | Boggle/Boggle.c:74-102 | the count walkTrie adds at a word is the number of walks from cur spelling it |
| `Boggle.DirsGainCounts` | Boggle/Boggle.c:78-99 | the directions add the number of walks they start |
| `Boggle.DirGainCounts` | Boggle/Boggle.c:79-98 | one direction adds the number of walks starting with its cell |
| `Boggle.DirsWalksApart` | Boggle/Boggle.c:78-99 | the walks of different directions are different, so none is counted twice |
| `Boggle.DirWalksStart` | Boggle/Boggle.c:79-98 | the walks of a direction start with the cell in its slot |
| `Boggle.ExtendsBy` | Boggle/Boggle.c:84-93 | a path extends the path of child j exactly when it extends the parent by letter j |
| `Boggle.NoMove` | Boggle/Boggle.c:79 | a -1 slot adds nothing |
| `Boggle.LetterMove` | Boggle/Boggle.c:89-96 | a letter cell descends only into the child for its lower-cased letter |
| `Boggle.BlankMove` | Boggle/Boggle.c:80-88 | a blank cell descends into every child in turn |
| `Boggle.BlankDone` | Boggle/Boggle.c:81-88 | after the 26 letters a blank has added its whole direction |
| `Boggle.GainedSplit` | Boggle/Boggle.c:75-99 | walkTrie adds one at its own node when that ends a word, and what the directions add |
| `Boggle.Walk` | Boggle/Boggle.c:74-102 | walkTrie adds to each count what the walks from cur add, and leaves the usable cells as it found them |
| `Boggle.WalkDir` | Boggle/Boggle.c:79-98 | one direction adds what its walks add and restores the usable cells |
| `Boggle.WalkChild` | Boggle/Boggle.c:82-95 | the recursive call marks the cell used under -t, walks, and marks it usable again |
| `Boggle.AllTrue` | Boggle/Boggle.c:60-63 | avlb has one slot per cell |
| `Boggle.AllTrueHolds` | Boggle/Boggle.c:60-63 | every cell of a fresh avlb is usable |
| `Boggle.Start` | Boggle/Boggle.c:60-64 | the usable cells of a walk started at a cell cover the board |
| `Boggle.StartStep` | Boggle/Boggle.c:56-66 | child j of the root adds its walk from cell i exactly when the cell may stand for letter j |
| `Boggle.StartDone` | Boggle/Boggle.c:56-67 | after the 26 children a cell has added all its walks |
| `Boggle.Available` | Boggle/Boggle.c:60-63 | a fresh array with every cell usable |
| `Boggle.CountAll` | Boggle/Boggle.c:54-68 | main's loops leave at each path the number of walks on the board that spell it |
| `Boggle.StartsWalksStart` | Boggle/Boggle.c:55-68 | a walk counted for the first k cells starts at one of them |
| `Boggle.OccurrencesCount` | Boggle/Boggle.c:54-68 | the count main leaves at a word is the number of walks on the board spelling it |
| `Boggle.AllWalksAreWalks` | Boggle/Boggle.c:54-68 | the walks main counts are the cell sequences whose first cell may stand for the first letter and whose rest is a walk spelling the rest |
| `Boggle.StartsWalksHas` | Boggle/Boggle.c:55-68 | a walk from one of the first k cells is counted |
| `Boggle.OccurrencesIffWalk` | Boggle/Boggle.c:54-68 | a path is counted exactly when it ends a word and the board holds a walk spelling it |
| `Boggle.OccurrenceHasWalk` | Boggle/Boggle.c:54-68 | a counted path has a walk spelling it |
| `Boggle.WalkIsOccurrence` | Boggle/Boggle.c:54-68 | a walk spelling a word makes it counted |
| `Boggle.StartsPositive` | Boggle/Boggle.c:55-68 | the cells add to a count exactly when one of them does |
| `Boggle.Shown` | Boggle/Boggle.c:105-107 | at most one line is printed per word |
| `Boggle.OutputTrie` | Boggle/Boggle.c:104-114 | the lines outputTrie prints for a node and its children in letter order |
| `Boggle.OutputChildren` | Boggle/Boggle.c:110-112 | the loop over the children prints their lines in letter order |
| `Boggle.OutputWord` | Boggle/Boggle.c:105-109 | a node that ends a word prints its word with its count when it was found (without -c), or its word alone when it was not (with -c), and nothing otherwise |
| `Boggle.OutputChild` | Boggle/Boggle.c:110-112 | child i adds its lines after those of the children before it |
| `Boggle.ReportSelects` | Boggle/Boggle.c:104-114 | the lines printed below a node are exactly the ones selected by the words below it |
| `Boggle.ChildrenSelect` | Boggle/Boggle.c:110-112 | the lines of the first k children are the ones selected below them |
| `Boggle.SelectedBelowSplit` | Boggle/Boggle.c:110-112 | selection below k + 1 children is selection below k or below child k |
| `Boggle.SelectedAtChild` | Boggle/Boggle.c:111 | a line selected through child j is one selected below it |
| `Boggle.SelectedChild` | Boggle/Boggle.c:111 | selection at a path through child j is selection below that child |
| `Boggle.StrLessAfter` | Boggle/Boggle.c:110 | strings that agree on a prefix compare by their next letter |
| `Boggle.SortedJoin` | Boggle/Boggle.c:110-112 | two sorted runs, the first wholly before the second, join into a sorted run |
| `Boggle.ChildWords` | Boggle/Boggle.c:129-135 | the words below child j are the words whose paths go through letter j |
| `Boggle.ReportSorted` | Boggle/Boggle.c:104-114 | when every node stores its path, outputTrie prints its words in strictly increasing strcmp order, all extending the node's path |
| `Boggle.ChildrenSorted` | Boggle/Boggle.c:110-112 | the lines of the first k children are sorted and go on with letters before k |
| `Boggle.NextBlock` | Boggle/Boggle.c:110-112 | the lines of child j come after those of the children before it |
| `Boggle.DictionaryOutput` | Boggle/Boggle.c:69 | outputTrie on the dictionary prints the kept words in increasing order, each selected by its number of walks |
| `Boggle.Run` | Boggle/Boggle.c:48-72 | fails exactly when the arguments are refused; otherwise the lines are in strictly increasing order and are, without -c, the dictionary words found with their number of walks, and with -c the words never found |
| `Heaps.CmpStrict` | heaps/heaps.c:29-35 | cmp is a strict order in either direction: never both ways and transitive, and "may sit above" is transitive |
| `Heaps.Cmp` | heaps/heaps.c:29-35 | cmp never holds between equal values, and for different values it holds exactly when i > j in a max-heap and i < j in a min-heap |
| `Heaps.RootIsBest` | heaps/heaps.c:45-47 | the root of an ordered heap may sit above every element, so it is the largest (max-heap) or smallest (min-heap) |
| `Heaps.AncestorAbove` | heaps/heaps.c:45-47 | in an ordered heap the root may sit above every slot |
| `Heaps.Swapped` | heaps/heaps.c:20-27 | the two slots are exchanged and every other slot is kept |
| `Heaps.SwapPermutes` | heaps/heaps.c:20-27 | exchanging two slots of the heap keeps its elements |
| `Heaps.ChildOfParent` | heaps/heaps.c:92 | every slot but the root is the left or right child of slot (k - 1) / 2 |
| `Heaps.UpStart` | heaps/heaps.c:88-91 | writing x after an ordered heap leaves it ordered everywhere except possibly above the new slot |
| `Heaps.UpStep` | heaps/heaps.c:92-95 | swapping a slot with its parent when it comes first moves the disorder up to the parent |
| `Heaps.UpDone` | heaps/heaps.c:91-99 | the bubble-up loop ends with an ordered heap, at the root or when the parent does not come after |
| `Heaps.DownStart` | heaps/heaps.c:53 | moving the last value to the root of an ordered heap leaves it ordered except possibly below the root |
| `Heaps.DownStep` | heaps/heaps.c:56-75 | swapping a slot with the child that comes first moves the disorder down to that child |
| `Heaps.DownDone` | heaps/heaps.c:55-79 | when the slot may sit above its children the heap is ordered |
| `Heaps.SiftSwap` | heaps/heaps.c:63-71 | one swap of the sift-down loop keeps its invariant and the heap's elements |
| `Heaps.SiftStop` | heaps/heaps.c:65-73 | the sift-down loop may stop when the first child does not come before the slot |
| `Heaps.PopPermutes` | heaps/heaps.c:52-53 | moving the last value to the root and dropping the last slot removes exactly the root |
| `Heaps.Heap.constructor` | heaps/heaps.c:37-43 | an empty heap with maxlen n |
| `Heaps.Heap.Peek` | heaps/heaps.c:45-47 | peek on a non-empty heap returns one of its elements |
| `Heaps.Heap.PeekIsBest` | heaps/heaps.c:45-47 | peek returns an element that may sit above every element |
| `Heaps.Heap.Swap` | heaps/heaps.c:20-27 | the buffer after swap is the buffer with the two slots exchanged |
| `Heaps.Heap.Push` | heaps/heaps.c:83-101 | a full heap returns 0 and stays unchanged; otherwise push returns 1, adds x to the elements and keeps the heap ordered |
| `Heaps.Heap.BubbleUp` | heaps/heaps.c:91-99 | the bubble-up loop orders the heap and keeps its elements |
| `Heaps.Heap.Pop` | heaps/heaps.c:49-81 | pop returns the old root, which may sit above every element, removes exactly it, and keeps the heap ordered |
| `Heaps.Heap.SiftDown` | heaps/heaps.c:55-79 | the sift-down loop orders the heap and keeps its elements |
| `Heaps.Heap.TakeLast` | heaps/heaps.c:50-53 | moving the last value into the root removes exactly the old root and leaves the heap ordered everywhere but below the root |
| `Heaps.Heap.SiftStep` | heaps/heaps.c:56-78 | one turn of the sift-down loop either orders the heap or moves the gap down to a child, keeping the elements |
| `Heaps.Heap.SwapOrStop` | heaps/heaps.c:63-75 | the gap swaps with its better child when that child beats it and stops with the heap ordered otherwise |
| `Heaps.ExchangeSplits` | heaps/heaps.c:126-139 | pushing x onto the lower half and moving its top to the upper half keeps every lower value at most every upper value |
| `Heaps.ExchangeSplitsHigh` | heaps/heaps.c:115-151 | pushing x onto the upper half and moving its top to the lower half keeps the halves split |
| `Heaps.DoubleHeap.constructor` | heaps/heaps.c:166-171 | two empty heaps of n slots, the lower half a max-heap and the upper half a min-heap |
| `Heaps.DoubleHeap.PushD` | heaps/heaps.c:108-164 | x is added to the values; both heaps stay ordered, every lower value stays at most every upper value and the sizes stay within one of each other; the capacities and buffers of both heaps are kept |
| `Heaps.DoubleHeap.AddLow` | heaps/heaps.c:108-164 | pushing x onto the lower half, when it is no bigger and x is at most the upper half, keeps the double heap valid |
| `Heaps.DoubleHeap.AddHigh` | heaps/heaps.c:121-160 | pushing x onto the upper half, when it is no bigger and x is at least the lower half, keeps the double heap valid |
| `Heaps.DoubleHeap.MoveUp` | heaps/heaps.c:126-139 | when the lower half is bigger and x belongs in it, x goes in and the lower top moves up, keeping the double heap valid |
| `Heaps.DoubleHeap.ExchangeLow` | heaps/heaps.c:126-138 | the push and pop on the lower half return a largest of its values and x, and leave the rest |
| `Heaps.DoubleHeap.MoveDown` | heaps/heaps.c:115-151 | when the upper half is bigger and x belongs in it, x goes in and the upper top moves down, keeping the double heap valid |
| `Heaps.DoubleHeap.ExchangeHigh` | heaps/heaps.c:115-150 | the push and pop on the upper half return a smallest of its values and x, and leave the rest |
| `Heaps.DoubleHeap.MedianSplits` | heaps/heaps.c:179-190 | the lower heap holds the values at or below the first value median reads and the upper heap those at or above the second, the sizes within one of each other: the pair median averages is a median of the values pushed |
| `Heaps.DoubleHeap.Median` | heaps/heaps.c:179-190 | the value or values median reads are among the values pushed, and with an odd number of values it reads one value |
| `Heaps.MedianHalves` | heaps/heaps.c:179-190 | two split halves whose sizes differ by at most one, with the tops median reads, make those tops a median of their union |
| `Heaps.PushMedian` | heaps/heaps.c:197-200 | one turn of main's loop adds the value to the double heap, keeps it valid and reads a median of all values pushed so far |
| `Heaps.MedianStep` | heaps/heaps.c:197-200 | one turn of main's loop keeps the double heap holding exactly the values read, and adds the median of those values to the pairs reported |
| `Heaps.Medians` | heaps/heaps.c:192-204 | main reports, after each value read, a median of the values read so far |
| `Subst16.IsFlagSeq` | Subst16/Subst16.c:212-214 | true exactly when the argument starts with '-'; the empty string (only the NUL) is not a flag sequence |
| `Subst16.InitRule` | Subst16/Subst16.c:230-234 | a new rule keeps FROM and TO, scans in mode q and jumps nowhere after success or failure |
| `Subst16.LastFlagSkip` | Subst16/Subst16.c:298-300 | characters other than q, g and r do not change the mode |
| `Subst16.LastNumberSkip` | Subst16/Subst16.c:298-300 | characters other than the jump letter do not change its number |
| `Subst16.LastFlagThrough` | Subst16/Subst16.c:271-302 | reading two runs of flags is reading the second starting from the mode the first left |
| `Subst16.DigitsValueAppend` | Subst16/Subst16.c:276-279 | the digit loop stops at the first non-digit |
| `Subst16.LastNumberThrough` | Subst16/Subst16.c:271-302 | reading two runs of flags, split where no digit follows, is reading the second from the jump the first left |
| `Subst16.FlagLastWins` | Subst16/Subst16.c:289-297 | the last q, g or r of a flag sequence decides the mode |
| `Subst16.NumberLastWins` | Subst16/Subst16.c:272-288 | the last S (or F) decides the jump, with the number written right after it, 0 when no digit follows |
| `Subst16.FlagsDefault` | Subst16/Subst16.c:266-303 | FROM and TO never change, and the mode, S and F keep their values when the sequence does not mention them |
| `Subst16.ParseFlagSeq` | Subst16/Subst16.c:266-303 | the loop over the flag characters after '-' sets the mode, S and F the last mention of each decides |
| `Subst16.ReadNumber` | Subst16/Subst16.c:276-279 | the digit loop reads the decimal value of the digits at i and stops at the first non-digit or the end |
| `Subst16.TokensLength` | Subst16/Subst16.c:524-546 | a pattern matches no more characters than it is long, and exactly as many when it holds no '@' |
| `Subst16.StringLength` | Subst16/Subst16.c:524-546 | stringLength is the number of characters the pattern matches, "@@", "@." and '@' with any other character counting as listed |
| `Subst16.StringCompare` | Subst16/Subst16.c:470-511 | true exactly when the pattern and the text agree at every position both have, '.' agreeing with anything |
| `Subst16.NextCaret` | Subst16/Subst16.c:563-568 | -1 exactly when no '^' lies at or after i; otherwise the index of the first one |
| `Subst16.CaretIndex` | Subst16/Subst16.c:563-568 | caretIndex returns the first '^' at or after lastStop, or -1 |
| `Subst16.ExpandAppend` | Subst16/Subst16.c:385-396 | replacing the carets of two joined strings is replacing them in each |
| `Subst16.ExpandNoCaret` | Subst16/Subst16.c:390-396 | text without a caret is inserted unchanged |
| `Subst16.ExpandLength` | Subst16/Subst16.c:397-399 | each caret grows the insertion by the length of the matched text less one |
| `Subst16.ExpandThroughCaret` | Subst16/Subst16.c:597-607 | expanding through the next caret appends the plain text before it and the matched text |
| `Subst16.Scan` | Subst16/Subst16.c:364-366 | a match the loop finds starts at or after i and ends strictly before the end of the line |
| `Subst16.FirstMatch` | Subst16/Subst16.c:357-366 | a match parseLine finds starts at or after searchStart and ends before the end of the line |
| `Subst16.ScanIsFirst` | Subst16/Subst16.c:364-407 | the loop returns a start where FROM matches, with no match before it, and finds nothing only when no start below the bound matches |
| `Subst16.FirstMatchIsFirst` | Subst16/Subst16.c:357-410 | parseLine takes the first match at or after searchStart, and misses only when there is none within the bound |
| `Subst16.SearchMatch` | Subst16/Subst16.c:364-373 | the loop comparing FROM with the text at each start finds the first match |
| `Subst16.NoCaretLeft` | Subst16/Subst16.c:390-396 | when no caret follows the expanded part, the insertion is TO with every caret replaced |
| `Subst16.CaretStep` | Subst16/Subst16.c:385-396 | one turn of the caret loop expands one more caret of TO and resumes after the inserted text |
| `Subst16.CaretInRest` | Subst16/Subst16.c:563-568 | the caret found after the expanded part lies in the part not yet expanded |
| `Subst16.SliceAppend` | Subst16/Subst16.c:602-607 | cutting the insertion at a caret of its unexpanded part splits that part |
| `Subst16.Replacement.constructor` | Subst16/Subst16.c:151 | an empty replacement: nothing matched, nothing inserted |
| `Subst16.Replacement.Reset` | Subst16/Subst16.c:246-252 | start and both finishes go to 0, modified is set and success cleared; the new length and the insertion are left alone |
| `Subst16.Replacement.UpdateRule` | Subst16/Subst16.c:589-609 | for -1 nothing changes and -1 is returned; otherwise the caret is replaced by the matched text and the index after it is returned; only the insertion changes |
| `Subst16.Replacement.ExpandCarets` | Subst16/Subst16.c:385-396 | the caret loop leaves as insertion TO with every caret replaced by the matched text, and nothing else changes |
| `Subst16.Replacement.ParseLine` | Subst16/Subst16.c:354-410 | no match: modified is cleared and nothing else changes; a match: start, oldFinish, the expanded insertion, newFinish and newLength describe it, and modified and success are set |
| `Subst16.RewriteLine` | Subst16/Subst16.c:428-455 | an unmodified line comes back as it is; otherwise the line before the match, the insertion and the rest after the match, of length newLength |
| `Subst16.NextRule` | Subst16/Subst16.c:180-192 | after a success the S jump when there is one, after a failure the F jump when there is one, and the next rule otherwise |
| `Subst16.RescanNext` | Subst16/Subst16.c:167-178 | one turn of the -g / -r loop: a substitution resumes after the insertion (-g) or at its start (-r); no match ends the loop with the line as it is |
| `Subst16.QuickRule` | Subst16/Subst16.c:159-163 | a -q rule substitutes once at the first match, or leaves the line and fails |
| `Subst16.RunRule` | Subst16/Subst16.c:155-179 | the branch for one rule yields the rule's result and success flag |
| `Subst16.ScanOnce` | Subst16/Subst16.c:166-178 | one parseLine and rewriteLine: a substitution at the first match from searchStart, or the line unchanged with success kept |
| `Subst16.RescanLoop` | Subst16/Subst16.c:166-178 | the -g / -r loop substitutes until a scan finds nothing, success recording whether any did |
| `Subst16.ProcessLine` | Subst16/Subst16.c:153-193 | the rule loop applies rules from the first, following S and F jumps, until the index passes the last rule |
| `Subst16.RescanMoreFuel` | Subst16/Subst16.c:166-178 | more fuel does not change a -g / -r result that was found |
| `Subst16.RuleResultMoreFuel` | Subst16/Subst16.c:155-179 | more fuel does not change a rule's result that was found |
| `Subst16.LineResultMoreFuel` | Subst16/Subst16.c:153-193 | more fuel does not change a printed line |
| `Subst16.NoMatchNoChange` | Subst16/Subst16.c:155-179 | a rule whose FROM does not occur leaves the line as it is and fails |
| `Subst16.PlainRulesFinish` | Subst16/Subst16.c:153-193 | without -g, -r, S or F every rule runs once, in order, and the line is done |
| `Subst16.LastNumberAtLeast` | Subst16/Subst16.c:266-303 | a jump is -1 or a number read from digits |
| `Subst16.RuleAt` | Subst16/Subst16.c:322-326 | a rule parseArgs builds has jumps that are -1 or non-negative |
| `Subst16.RulesOf` | Subst16/Subst16.c:319-332 | one rule per three arguments |
| `Subst16.ParseArgs` | Subst16/Subst16.c:319-332 | the rules are built exactly when every third argument starts with '-', one per three arguments; otherwise exit status 2 |
| `Subst16.StuckStays` | Subst16/Subst16.c:152-196 | once a line outlasts the fuel, no later line is printed |
| `Subst16.Run` | Subst16/Subst16.c:130-199 | "fail!" with status 1 when the arguments are not whole rules, status 2 for a flag argument without '-', and otherwise every input line printed after the rule loop |
| `Subst16.CaretTruncation` | Subst16/Subst16.c:600 | with TO "^^" and matched text "ab", the insertion as written is "aba" where every caret replaced gives "abab" |
| `Subst16.CaretsAsWritten` | Subst16/Subst16.c:589-609 | with updateRule as written, an insertion without a caret is kept; after the first caret the insertion has strlen(TO) + strlen(match) - 1 characters however many carets follow, and the text before the first caret is kept |
| `Subst16.ScanMissesLineEnd` | Subst16/Subst16.c:364-366 | the strict loop bound misses a match ending at the last character: FROM "a" on a line "xa" without newline, and FROM "a." on "xa" and a newline |
| `Subst16.ExpandEscaped` | Subst16/Subst16.c:17-20 | the expansion the header documents, with "@^" a literal '^': TO without a caret is inserted unchanged |
| `Subst16.CaretsSplit` | Subst16/Subst16.c:17-20 | every '^' of TO is either escaped by '@' or stands for the matched text |
| `Subst16.ExpandEscapedLength` | Subst16/Subst16.c:17-20 | each escape drops its '@' and each free caret grows the insertion by the length of the matched text less one |
| `Subst16.ExpandEscapedNoEscape` | Subst16/Subst16.c:17-20 | without an escape the documented expansion is Expand, the full caret replacement that ExpandCarets models (not the truncated insertion of Subst16/Subst16.c:600) |
| `Subst16.CaretEscapeIgnored` | Subst16/Subst16.c:563-568 | caretIndex stops at the caret of "@^", so with matched text "x" the insertion is "@x", where the documented expansion gives "^" |

## Left out

- Input and output are not modelled as I/O. This covers getLine, fopen, scanf, printf and fputs, and the read loops of each main. Files are a map from name to lines. Standard input is a sequence of lines, and what is printed is the sequence of lines or records returned.
- Process exit through die or exit is modelled as an error result carrying the message or status.
- Memory ownership is not modelled. This covers malloc, free and every destroy function beyond "the structure becomes empty". It also covers pancake's queue p of allocated strings (pancake/pancake.c:72, 112-114, 192-202) and the malloc-failure branch of addQ (Merge16/Queue.c:80-83).
- WeplTree: Tree.c's bereaved, delKey and delFlag bookkeeping only decides what to free, and it is not modelled.
- WeplTree: the tree is modelled as a value. increment, delete, rotate and update return the rewritten tree instead of rewriting node fields in place, so aliasing between nodes is not captured. The same holds for Boggle's trie: addTrie and walkTrie return the new trie and the counts per path.
- Boggle.Walk: the counts walkTrie keeps in the nodes are modelled as a map from a node's path to its count.
- C's fixed-width integer overflow is not modelled. Task sums and loads in Psched, counts and weights in Words16, and the S/F numbers of parseFlagSeq are unbounded integers.
- PancakeHashtable.HashState: hash computes `*key<<shift` on a char promoted to a 32-bit int, with shift up to 56 (pancake/Hashtable.c:145-148). From a shift of 32 on that is undefined behaviour in C. The model shifts the 64-bit code of the character instead, wrapping around at 64 bits, and the table relies only on the hash being a fixed function into [0, size).
- Merge16.ParsePos: pos is an unbounded natural number. C stores strtol's long result into an int (Merge16/Merge16.c:211), which saturates and then truncates for more digits than fit.
- Merge16.ParsePosLen: pos and len are unbounded natural numbers. C stores strtol's results into ints (Merge16/Merge16.c:211, 221), so "-0,4294967296" gives len 0 in C and 4294967296 here.
- Argument conversions done by atoi and strtol are inputs, not parsed, in Psched (Psched/Psched.c:53, 70), Boggle (Boggle/Boggle.c:186-189) and Words16's -set. pancake's strtol is modelled for decimal digits.
- Heaps.DoubleHeap.MedianSplits: the floating-point value median computes and its %.1f printing are not modelled. The model states which element, or which pair of elements, median averages.
- Heaps.Heap.constructor: init allocates n/2+1 slots while setting maxlen to n (heaps/heaps.c:39-41). The model allocates the n slots maxlen promises.
- Heaps.DoubleHeap.PushD: it requires room for one more value in each heap. main sizes both heaps for all n values, so this always holds there.
- Heaps.Medians: the reading of n and of the values with scanf, and the %.1f printing of each median, are not modelled. Medians takes the values as a sequence and returns, for each, the pair of values median averages.
- Psched.Sort: the inner loop reads sortedvalues[j-1] before testing j > 0 (Psched/Psched.c:119). The model tests the bound first.
- Psched.Run: a processor count below zero is refused with status 1, like zero. In C it would declare an array of negative length (Psched/Psched.c:83, 218).
- Subst16.Replacement.ParseLine: the substring buffer is allocated with sizeof applied to a number (Subst16/Subst16.c:363-364), which is too small for long patterns. The model compares FROM with the text in place.
- Subst16.Scan: the match loop's bound is strict (Subst16/Subst16.c:365), and it is modelled as written. A match that ends at the last character of the line is not found. This misses a match in two cases: on a final line that lacks its newline (Merge16/Merge16.c:274 tests for such lines), a match that ends at the line's last character; and a match of a FROM whose last position is '.', which on a line ending in a newline can only match that newline (FROM "a." on "xa" and a newline). ScanMissesLineEnd shows both.
- Subst16.RunSpec: the -g / -r loops and the rule loop of main need not terminate, for example with an S jump back to the same rule. They are bounded by a fuel parameter, and a line that outlasts it ends the run as Stuck with the lines printed so far. RescanMoreFuel, RuleResultMoreFuel and LineResultMoreFuel show that fuel never changes a result once one is found.
- Subst16.CaretIndex: the '@' escape of '^' that the header promises (Subst16/Subst16.c:20) is not implemented: caretIndex stops at every '^', so "@^" inserts '@' and the matched text. The model keeps that behaviour in CaretIndex, ExpandCarets, ParseLine and Run; the documented expansion is ExpandEscaped (see Findings), and nothing else uses it.
- Subst16.Replacement.ExpandCarets: it models the intended caret expansion, every '^' of TO replaced by the whole matched text. updateRule as written cuts the insertion after each caret (Subst16/Subst16.c:600); that behaviour is CaretsAsWritten (see Findings).
- Subst16.Replacement.UpdateRule: it replaces the caret by the matched text without the cut to strlen(TO) + strlen(match) - 1 characters of Subst16/Subst16.c:600, which loses text once TO has two or more carets.
- Subst16.Replacement.ParseLine: its insertion is TO with every caret expanded, as ExpandCarets promises, not the truncated insertion of Subst16/Subst16.c:600.
- Subst16.Run: every line is rewritten with the intended caret expansion; with two or more carets in TO, the program as written prints a shorter insertion.
- Psched.OptCore: optimality is stated for tasks that are not negative. The pruning relies on a new task never lowering the maximum load, which a negative task can do.
- PancakeSearch.Sort: C compares plain char, which is signed on common platforms (pancake/pancake.c:409), so bytes of 0x80 and above sort before ASCII; the model sorts by code point. The sorted copies only feed the strcmp equality test (pancake/pancake.c:267), and two strings with the same characters give equal sorted copies under either order, so the result of the test is the same.
- PancakeMain.Search: the search is proved sound (a reported path is a valid sequence of flips of at most MAXLENGTH from INITIAL to GOAL) but not complete: that a path is found whenever one of at most MAXLENGTH flips exists, and that it is a shortest one, are not stated. Proving it would need the breadth-first invariant that the queue holds every configuration in order of distance.
- Subst16.CaretsAsWritten: updateRule as written, with a matched text of length 0 and two or more carets, would read a character that was never set. That case is not modelled.
- The memsets of the two sort buffers in parseArgs clear only their first byte (pancake/pancake.c:263-264). sort writes every character that is later compared, so the model leaves the memsets out.
- Header files (LinkedList.h, Hashtable.h, Tree.h) give the struct layouts used here. getLine.h and Queue.h are not part of this model beyond the behaviour their callers rely on.

## Findings

| source | as written | input that shows it | evidently intended | confidence | as-written member | corrected member |
|---|---|---|---|---|---|---|
| Subst16/Subst16.c:20, 563-568 | caretIndex stops at every '^', and nothing looks at an '@' in TO, so an escaped caret is still replaced | TO "@^" with matched text "x": the insertion is "@x" | "@^" inserts a literal '^': "^", length strlen(TO) - escapes + free carets x (strlen(match) - 1) | not executed | `Subst16.CaretEscapeIgnored` | `Subst16.ExpandEscaped` |
| Subst16/Subst16.c:600 | each caret replacement cuts the insertion to strlen(TO) + strlen(match) - 1 characters, whatever its current length | TO "^^" with matched text "ab": the insertion becomes "aba" | every caret replaced by the matched text: "abab", length strlen(TO) + carets x (strlen(match) - 1) | not executed | `Subst16.CaretTruncation` | `Subst16.Replacement.ExpandCarets` |
