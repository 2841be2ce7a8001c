# Algorithms of the TinyOS tree, modelled and proved in Dafny

The self-contained C and Java algorithms of this TinyOS repository, modelled with their branches, constants
and error paths, and proved. `dafny verify dfyconfig.toml` checks everything.

Code that works in place keeps that form: the hash table is an array of linked entries, the sample stores,
the display, the heap and the printer are objects whose methods update fields, Shellsort and the string
reversal work on arrays. Each such method is proved equal to a function on values, and the theorems are about
those functions.

| files | models |
|---|---|
| `HashTableSpec`, `HashTable`, `HashTableProperties`, `HashTableRuns` | the chained hash table of the simulator, with both ways of growing |
| `SinglePrecision` | the load limit of the table, computed as the code does |
| `HashTableAsWritten` | the same table with line 108 of its growth as it stands |
| `HashTableDuplicates` | what becomes of duplicate keys |
| `SampleHistory`, `Node` | the sliding window of samples of one mote |
| `ScopeSpec`, `Oscilloscope` | the oscilloscope display: all stores, the mote table, the viewport, and runs of messages and user operations |
| `Shellsort` | the in-place sort of the byte radio, pass by pass |
| `CrcSpec`, `CrcAgreement`, `Gf2Polynomials`, `CrcProperties`, `CrcOrder`, `CrcLoop` | three implementations of CRC-16 and the polynomial arithmetic behind them (ITU-T Recommendation V.41, section 2) |
| `HeapSpec`, `Heap` | the priority queue, with its pop as written and as meant |
| `NumberText`, `Printf` | integer printing, and the parsing of width and precision |
| `Scale` | `scale32`, multiplication by a fraction in 32 bits |
| `Sequences`, `Arithmetic`, `Options` | definitions that several of these share |

Main results:

- Hash table: in every run that never inserts a live key, from creation on, every call answers as a finite map would,
  whatever allocations fail. In every run whatsoever, duplicate keys included, calls answer as lists of values would
  that growth reverses: growing into a new table reverses every key, growing in place exactly those whose chain index
  changes, and an insertion makes the table grow exactly when it is 65 percent full, or, for seven of the longest
  lengths, a few entries earlier, as single precision rounds. Both growths keep every entry exactly once. All this
  holds provided that line 108 of `hashtable.c` clears the memory it is meant to clear. With that line as written, a
  run of either kind ends with the right table if and only if no growth went through realloc, except where the slot
  that the line reads happens to point to the memory it should have cleared.
- Sample store and display: a store answers from its window's start on with what the messages say, so old array
  contents never show, and which samples the window drops is characterised exactly. After every run the table lists
  exactly the motes heard from, in order, and the viewport contains the newest sample; its exact position and every
  mote's color follow from the events. Of what a mote sent since its last reboot nothing on the screen has been lost,
  unless messages have a single reading and the view is at its widest, scale 8, and there samples can be lost.
- Shellsort: the passes are those with the halved gaps; every pass keeps every gap order the array had, and the swaps
  never exceed the inversions.
- CRC: the loop computes the remainder of division by x^16 + x^12 + x^5 + 1; it detects every odd error and every
  burst of 16 bits in messages of any length, misses a burst of 17 bits only if it is the polynomial itself, and
  misses two wrong bits only at distances divisible by 32767, so never in messages of up to 4095 bytes. The three
  implementations agree on every message.
- Heap: a pushed item passes strictly larger ones only, and where a push or either pop leaves every item is determined
  exactly. The pop as written restores order if and only if the displaced last item fits under the root's least child,
  and a run of such pops returns every heap of n items by priority if and only if n is at most 5; the pop that was
  meant always restores order, so pushing and popping everything sorts.
- Printing: for every integer conversion, signed or not, with or without a width and a precision, what is printed
  reads back as the argument in the base and case of the letter, with the width asked for except in one case that is
  characterised exactly.
- `scale32`: correct if and only if one intermediate value and the result fit 32 bits; what it computes otherwise.

Inputs the code takes from its surroundings are parameters: whether each allocation succeeds (flags), the hash and
equality functions of the caller (an equivalence that the hash respects, where a theorem needs it), the messages
received, and the user's operations on the display.

Where code and documentation disagree, the model follows the code, and says when the documentation holds:

- `tos/lib/tossim/hashtable.c:108` is meant to clear the slots that realloc added, but gives `memset` the pointer
  read from the first of them. If that slot is NULL the program writes through NULL. If it is not, the table gains
  entries that were never inserted, unless the slot points into the added slots so that they are cleared after all.
  So growth through realloc comes out right as written only by that accident (`ExpandRight`, `RunRight`,
  `ListRunRight`, and `NewTableFails` for a run that shows it). The run theorems of `HashTableProperties` and
  `HashTableDuplicates`, and the `HashTable` object, take the line as it was meant; for runs in which no growth goes
  through realloc they hold of the code as written too.
- `tos/lib/tossim/hashtable.h:98` says that every change of size reverses the retrieval order of duplicates. That is
  so for growth into a new table; growth in place keeps the order of chains whose index does not change
  (`RetrievalGrows`, and `GrowthKeepsDuplicates` for a table that shows it).
- `apps/MCCTable/original/priority_queue.c:44-49` compares the children with the old content of the hole instead of
  the item that will fill it (`PopAsWrittenOrder`). Up to five items still come out by priority, so the program's own
  `main` does as it should; with six or more the third pop can already be wrong (`PopAsWrittenSorts`, and
  `PopAsWrittenOutOfOrder` for pushing 1 to 7).
- `tos/system/scale.h:5-6` asks for a * b to fit the type, which is not enough
  (`ScaleCorrectForAll`, `DocumentedBound`, `DocumentedBoundFails`).
- `tos/lib/printf/generic_printf.h:124` leaves the minus sign out of the width when the precision exceeds the
  number of digits (`PrintedWidth`, and `PrintedTooWide` for an input that shows it).

## Model

| member | source | states |
|---|---|---|
| `HashTableProperties.CreatedRunRefines` | tos/lib/tossim/hashtable.c:30-215 | with line 108 clearing what it is meant to: for every run of insert, search, remove and count on a table of any initial length that never inserts a live key, all replies are those of a finite map, whatever allocations fail |
| `HashTableProperties.RunRefines` | tos/lib/tossim/hashtable.c:131-215 | the same from any table that represents a map; the final table represents the final map |
| `HashTableProperties.StepValid` | tos/lib/tossim/hashtable.c:72-215 | with line 108 as meant, every call, duplicates and failures included, keeps count = number of entries, length = primes[primeindex], and every entry in the chain of its hash |
| `HashTableProperties.NewRepresents` | tos/lib/tossim/hashtable.c:30-55 | a new table represents the empty map |
| `HashTableProperties.InsertRefines` | tos/lib/tossim/hashtable.c:137-161 | with line 108 as meant, inserting a key that is not live adds exactly its binding, grown or not; it fails, changing no binding, exactly when the entry cannot be allocated |
| `HashTableProperties.RemoveRefines` | tos/lib/tossim/hashtable.c:163-215 | search answers with the binding or NULL; remove deletes exactly that binding |
| `HashTableProperties.MatchIsBinding` | tos/lib/tossim/hashtable.c:164-181 | the chain of a key has an entry for it exactly when the key is live, and the first such entry is its binding |
| `HashTableProperties.GrowthPlaces` | tos/lib/tossim/hashtable.c:84-124 | after either growth, the in-place one with cleared slots, every entry is in the chain of its hash for the new length |
| `HashTableProperties.GrowthConserves` | tos/lib/tossim/hashtable.c:84-124 | neither growth, the in-place one with cleared slots, loses, adds or repeats an entry |
| `HashTableProperties.FreshReverses` | tos/lib/tossim/hashtable.c:87-97 | growth into a new table exactly reverses the entries of each hash value |
| `HashTableProperties.InPlaceOrder` | tos/lib/tossim/hashtable.c:109-123 | growth in place keeps the order of the entries of a hash value whose index stays, and exactly reverses it otherwise |
| `HashTableProperties.InPlaceNeedsEmptyTail` | tos/lib/tossim/hashtable.c:109-123 | the relinking loop alone: over any content of the added slots it keeps exactly the old entries if and only if they head empty chains |
| `HashTableAsWritten.ExpandRight` | tos/lib/tossim/hashtable.c:72-128 | growth with line 108 as written, over any content of the added slots before and after the line: it survives with exactly the old entries if and only if it does not go through realloc, or the first added slot was not NULL and all added slots end up empty; then it is the growth that was meant |
| `HashTableAsWritten.RunRight` | tos/lib/tossim/hashtable.c:72-215 | the code as written, for every run without duplicate keys and any content of the added slots: it reaches the end with the finite map's table if and only if every growth through realloc met that condition, and then all replies are the map's |
| `HashTableAsWritten.CreatedRunRight` | tos/lib/tossim/hashtable.c:30-215 | the same from creation on |
| `HashTableAsWritten.ListRunRight` | tos/lib/tossim/hashtable.c:72-215 | the same for runs of any calls, duplicate keys included, against lists of values |
| `HashTableAsWritten.NewTableFails` | tos/lib/tossim/hashtable.c:102-108 | 36 insertions into a new table, with memory for realloc but not for malloc and cleared added slots, write through NULL |
| `HashTableDuplicates.RunTracks` | tos/lib/tossim/hashtable.h:92-99 | with line 108 as meant, for every run of any calls, duplicate keys included: replies are those of lists of values, one per key, that insertion extends at the front, removal shortens there, and each growth, at 65 percent, reverses or keeps |
| `HashTableDuplicates.CreatedRunTracks` | tos/lib/tossim/hashtable.c:30-215 | the same from creation on, with any initial length |
| `HashTableDuplicates.RetrievalOrder` | tos/lib/tossim/hashtable.c:137-215 | search gives the first entry in retrieval order, remove takes it away, insertion puts a new first |
| `HashTableDuplicates.RetrievalGrows` | tos/lib/tossim/hashtable.h:95-99 | growth into a new table reverses every key's order; growth in place, with line 108 as meant, reverses it exactly when the key's chain index changes |
| `HashTableDuplicates.GrowthKeepsDuplicates` | tos/lib/tossim/hashtable.h:98-99 | a table with two entries for one key whose order growth in place, with line 108 as meant, keeps and growth into a new table reverses |
| `HashTableDuplicates.PushElsewhere` | tos/lib/tossim/hashtable.c:154-159 | an inserted entry leaves the order of every other key alone |
| `HashTableDuplicates.WithoutElsewhere` | tos/lib/tossim/hashtable.c:202-208 | so does an unlinked one |
| `HashTableProperties.RunRoomy` | tos/lib/tossim/hashtable.c:143-150 | in every run with memory, line 108 as meant, the count stays within the load limit until the last prime |
| `HashTableSpec.PrimesGrow` | tos/lib/tossim/hashtable.c:15-25 | each of the 26 lengths, from 53 on, is about twice the one before, and the load limits strictly increase |
| `HashTableSpec.LoadLimitIs` | tos/lib/tossim/hashtable.c:143 | the load limit, plus what single precision takes off seven of the longest lengths, is the least integer not below 0.65 of the length; one more entry passes it exactly when the table is that full |
| `SinglePrecision.CodeLimits` | tos/lib/tossim/hashtable.c:126 | for every length, the length as a single precision number times 0.65 as one, rounded to one and then up, is the load limit |
| `ChainedHashTable.MixValues` | tos/lib/tossim/hashtable.c:59-68 | values of the mixing step, among them two words with the same one |
| `ChainedHashTable.HashTable.Create` | tos/lib/tossim/hashtable.c:30-55 | NULL exactly on a size over 2^30 or a failed allocation; else an empty table whose length is the least prime above minsize |
| `ChainedHashTable.RehashFresh` | tos/lib/tossim/hashtable.c:87-97 | the loops over linked chains leave the new array holding the fresh-table function of the old chains, with the same entries and no sharing |
| `ChainedHashTable.RehashInPlace` | tos/lib/tossim/hashtable.c:109-123 | the same for relinking within one array, including entries moved to chains still to be scanned |
| `ChainedHashTable.HashTable.Expand` | tos/lib/tossim/hashtable.c:72-128 | with line 108 as meant, the new state for each combination of allocation results, with the same entry objects |
| `ChainedHashTable.HashTable.Insert` | tos/lib/tossim/hashtable.c:137-161 | the object's new state and result are those of the insertion function, whose growth takes line 108 as meant |
| `ChainedHashTable.HashTable.Search` | tos/lib/tossim/hashtable.c:163-181 | walking the links gives the value of the search function |
| `ChainedHashTable.HashTable.Remove` | tos/lib/tossim/hashtable.c:183-215 | unlinking gives the state of the removal function, the value search would give, and no new entries |
| `HashTableRuns.ServeAll` | tos/lib/tossim/hashtable.c:131-215 | with line 108 as meant, any calls made on the linked object give the replies and the state of the run on values |
| `HashTableRuns.CreateAndServe` | tos/lib/tossim/hashtable.c:30-215 | with line 108 as meant, create, then any calls that never insert a live key: the object's replies are a finite map's |
| `SampleHistory.SampleIsLast` | apps/Oscilloscope/java/Node.java:93-100 | the reference answer for x: the reading of the last message that starts at or before x, or -1 if it does not reach x |
| `SampleHistory.SampleBeforeAll` | apps/Oscilloscope/java/Node.java:93-100 | -1 when every message starts after x |
| `SampleHistory.SlideKeeps` | apps/Oscilloscope/java/Node.java:38-70 | one message's effect on the window: shape kept, room made, and either extended, or squished with start + length - INCREMENT at the new data, or restarted |
| `SampleHistory.SlideExactly` | apps/Oscilloscope/java/Node.java:38-70 | exactly when the window starts over, stays or squishes: it stays if and only if the new samples lie after its start and end within MAX_SIZE of it, and grows no more than to the next INCREMENT |
| `SampleHistory.WindowShape` | apps/Oscilloscope/java/Node.java:15-20 | after any messages the length is a multiple of INCREMENT within INCREMENT .. MAX_SIZE and the window holds the last message |
| `SampleHistory.Retained` | apps/Oscilloscope/java/Node.java:45-70 | a sample stays in the window over any run whose messages since it started no more than MAX_SIZE - INCREMENT after it |
| `SampleHistory.UpdateKeeps` | apps/Oscilloscope/java/Node.java:45-81 | one message keeps the answer for every stored sample up to MAX_SIZE - INCREMENT before it |
| `SampleHistory.DroppedExactly` | apps/Oscilloscope/java/Node.java:45-70 | one message drops a stored sample if and only if it ends more than MAX_SIZE after the window's start and starts more than MAX_SIZE - INCREMENT after the sample |
| `SampleHistory.StoredExactly` | apps/Oscilloscope/java/Node.java:38-70 | over any run: a sample is not before the window if and only if some message starts at or before it and no later one that squishes leaves it more than MAX_SIZE - INCREMENT behind |
| `SampleStore.Node.SetEnd` | apps/Oscilloscope/java/Node.java:35-81 | the window becomes that of the slide function, and every slot before the new data holds what the history says, -1 where it says nothing |
| `SampleStore.Node.Update` | apps/Oscilloscope/java/Node.java:83-91 | the object's history grows by the message, its window and contents are again those of the history |
| `SampleStore.Node.GetData` | apps/Oscilloscope/java/Node.java:93-100 | -1 before the window, from its start on the reference answer: nothing stale shows |
| `SampleStore.Node.MaxX` | apps/Oscilloscope/java/Node.java:102-105 | the end of the last message |
| `ScopeSpec.RunShows` | apps/Oscilloscope/java/Oscilloscope.java:61-124 | after every run: motes strictly increasing, parallel to colors, exactly those heard from since the last clear, with exactly the messages heard; viewport from gx0 >= 0, as wide as its scale, containing the largest sample number |
| `ScopeSpec.StepInvariant` | apps/Oscilloscope/java/Window.java:248-255 | each message, clear, recolor or rescale keeps that invariant |
| `ScopeSpec.OnScreenIsExact` | apps/Oscilloscope/java/Graph.java:176-178 | after every run, from the left edge of the view on, every sample a mote sent since its last reboot, and any other the store kept, is answered as its messages say, unless messages have one reading and the scale is 8 |
| `ScopeSpec.ScreenExactly` | apps/Oscilloscope/java/Graph.java:228-234 | for given NREADINGS and scale, every sample on the screen since a mote's last reboot is exact in every run if and only if NREADINGS is more than 1 or the scale at most 7 |
| `ScopeSpec.KeptIsExact` | apps/Oscilloscope/java/Node.java:38-100 | for messages in any order: a sample is answered as they say if none starts at or before it, or one does that no later one leaves more than MAX_SIZE - INCREMENT behind |
| `ScopeSpec.LostExactly` | apps/Oscilloscope/java/Node.java:38-100 | the converse too: a sample is answered as the messages say if and only if they say nothing of it or it is stored |
| `ScopeSpec.CurrentIsKept` | apps/Oscilloscope/java/Node.java:38-81 | nothing sent since the last reboot is dropped within MAX_SIZE - INCREMENT of the newest sample |
| `ScopeSpec.RebootToZero` | apps/Oscilloscope/java/Node.java:35-37 | for a mote that goes forward, or reboots and is heard from sample 0, that is the whole screen |
| `ScopeSpec.RecenterFrames` | apps/Oscilloscope/java/Graph.java:203-216 | from any position, recentering contains max, at the three-quarter point unless that would show negative numbers |
| `ScopeSpec.RunView` | apps/Oscilloscope/java/Graph.java:203-234 | the view from the start and after every event of a run: a change of scale recenters on the newest sample heard, a message or clear does so only when that is not on the screen, nothing else moves the view |
| `ScopeSpec.Widths` | apps/Oscilloscope/java/Graph.java:229-231 | the widths of the nine scales |
| `ScopeSpec.ListedOrder` | apps/Oscilloscope/java/Window.java:93-105 | listing a new mote keeps the list strictly increasing and adds just that mote |
| `ScopeSpec.ListedShows` | apps/Oscilloscope/java/Window.java:93-105 | the new mote gets the next color of the cycle and every other mote keeps its own |
| `ScopeSpec.RecoloredShows` | apps/Oscilloscope/java/Window.java:78-82 | setting a row's color changes that mote's and no other's |
| `ScopeSpec.RunColors` | apps/Oscilloscope/java/Window.java:41-105 | after every run: the n-th mote listed since the start, clears or not, has color n mod 7 of the cycle until the user picks one for its row, and no other |
| `OscilloscopeDisplay.MoteTable.NewNode` | apps/Oscilloscope/java/Window.java:93-107 | the search loop and the two insertions are the listing function |
| `OscilloscopeDisplay.Data.Reach` | apps/Oscilloscope/java/Data.java:27-36 | growing the index reaches the mote and keeps every store |
| `OscilloscopeDisplay.Data.Update` | apps/Oscilloscope/java/Data.java:24-43 | exactly one mote's history grows, by the message; the table is told exactly when the mote is new |
| `OscilloscopeDisplay.Data.GetData` | apps/Oscilloscope/java/Data.java:45-50 | the store's answer, -1 for an unknown mote |
| `OscilloscopeDisplay.Data.NodeMaxX` | apps/Oscilloscope/java/Data.java:52-58 | the end of the mote's last message, 0 for an unknown mote |
| `OscilloscopeDisplay.Data.MaxX` | apps/Oscilloscope/java/Data.java:60-75 | the largest over all motes, 0 without any |
| `OscilloscopeDisplay.Oscilloscope.MessageReceived` | apps/Oscilloscope/java/Oscilloscope.java:65-77 | the objects stay in the state of the run, which is one message longer |
| `OscilloscopeDisplay.Oscilloscope.ClearData` | apps/Oscilloscope/java/Window.java:248-255 | the same for a clear: new stores, empty table, color cycle kept, viewport moved |
| `OscilloscopeDisplay.Oscilloscope.SetScale` | apps/Oscilloscope/java/Graph.java:228-234 | the same for a change of scale |
| `OscilloscopeDisplay.Oscilloscope.PickColor` | apps/Oscilloscope/java/Window.java:78-82 | the same for a recoloring |
| `OscilloscopeDisplay.Oscilloscope.Drawn` | apps/Oscilloscope/java/Graph.java:151-178 | what the objects answer is what a store of the messages since the last clear answers, and for visible samples since the last reboot exactly what the messages say, unless messages have one reading and the scale is 8 |
| `GapOrder.PassKeepsGap` | tos/lib/byte_radio/shellsort.h:12-18 | sorting with gap g keeps a sequence h-sorted, for all g and h |
| `GapOrder.PassOnce` | tos/lib/byte_radio/shellsort.h:13-18 | what a pass leaves, each class of places gap apart sorted, is unique |
| `GapOrder.SortingKeepsDominance` | tos/lib/byte_radio/shellsort.h:12-18 | if each element of one sequence is at most its partner in another, that holds after both are sorted |
| `GapOrder.SwapRemovesInversion` | tos/lib/byte_radio/shellsort.h:14-18 | swapping a pair that is out of order lowers the number of inversions |
| `ByteRadioShellsort.Pass` | tos/lib/byte_radio/shellsort.h:13-18 | one pass sorts each class of places gap apart, keeps every h-order there was, permutes, and pays for its swaps with inversions |
| `ByteRadioShellsort.Shellsort` | tos/lib/byte_radio/shellsort.h:8-19 | makes exactly one pass for each of size / 2, size / 4 .. 1 in turn, and ends with a sorted permutation after at most as many swaps as the input has inversions |
| `CrcProperties.CrcIsRemainder` | tos/lib/tosboot/crc.h:43-67 | from register 0 the CRC of m is the only r of degree below 16 such that m(x) x^16 + r(x) is a multiple of x^16 + x^12 + x^5 + 1 |
| `CrcProperties.RunningRemainder` | tos/lib/tosboot/crc.h:43-67 | from any register c, the remainder of c(x) x^(8n) + m(x) x^16 |
| `CrcProperties.ValueStep` | tos/lib/tosboot/crc.h:59-64 | one turn of the loop multiplies by x modulo the polynomial |
| `CrcProperties.CrcLinear` | tos/lib/tosboot/crc.h:53-67 | the CRC of a sum of registers and messages is the sum of the CRCs |
| `CrcProperties.SameCrcIffDivides` | tos/lib/tosboot/crc.h:53-67 | equal-length messages collide, from any register, exactly when the polynomial divides their difference |
| `CrcProperties.OddErrorsDetected` | tos/lib/tosboot/crc.h:53-67 | messages of any length that differ in an odd number of bits have different CRCs |
| `CrcProperties.BurstsDetected` | tos/lib/tosboot/crc.h:53-67 | different messages that differ only inside 16 consecutive bits have different CRCs |
| `CrcOrder.Bursts17` | tos/lib/tosboot/crc.h:43-67 | messages that differ inside 17 consecutive bits collide exactly when they are equal or differ by the polynomial itself |
| `CrcOrder.OrderOfX` | tos/lib/tosboot/crc.h:43-67 | x^d is 1 modulo the polynomial exactly for multiples of 32767 |
| `CrcOrder.TwoBitErrors` | tos/lib/tosboot/crc.h:43-67 | messages that differ in exactly two bits, d apart, collide exactly when 32767 divides d |
| `CrcOrder.TwoBitErrorsDetected` | tos/lib/tosboot/crc.h:43-67 | in messages of up to 4095 bytes every error of two bits is detected |
| `CrcProperties.ResidueZero` | tos/lib/tosboot/crc.h:53-67 | two more bytes take the register to 0 exactly when they are its high and its low byte |
| `CrcProperties.ImplementationsAgree` | tos/system/crc.h:82-98 | the loop-free, bitwise and table-driven forms give the same running value on every message from every register |
| `CrcAgreement.FastAgrees` | tos/system/crc.h:91-98 | the loop-free byte step is eight turns of the loop |
| `CrcAgreement.TableIsEightSteps` | tos/chips/xe1205/crc.h:44-77 | each of the 256 words is eight turns of the loop on its index |
| `CrcAgreement.TableAgrees` | tos/chips/xe1205/crc.h:79-83 | the table-driven byte step is eight turns of the loop |
| `TosbootCrc.CrcByteLoop` | tos/lib/tosboot/crc.h:53-67 | the do-while loop makes exactly eight turns |
| `TosbootCrc.CrcMessage` | tos/lib/tosboot/crc.h:43-67 | a caller's loop over a message computes the running CRC that the theorems are about |
| `HeapSpec.PushCorrect` | apps/MCCTable/original/priority_queue.c:15-30 | a push adds exactly its item and keeps heap order |
| `HeapSpec.PushRaises` | apps/MCCTable/original/priority_queue.c:20-28 | a pushed item passes exactly the strictly larger items above its slot, each of which moves down one level; every other slot is unchanged |
| `HeapSpec.RaisedOnce` | apps/MCCTable/original/priority_queue.c:20-28 | that determines every slot |
| `HeapSpec.ChooseIs` | apps/MCCTable/original/priority_queue.c:42-49 | a child is picked only if smaller than what its parent is compared as, then the least, the left one of two equals |
| `HeapSpec.PopSinks` | apps/MCCTable/original/priority_queue.c:32-58 | from any contents, for both pops: along the least children, while they are smaller than what the slot is compared as, each moves up one level, and the last item takes the slot where that ends; every other slot is unchanged |
| `HeapSpec.SunkOnce` | apps/MCCTable/original/priority_queue.c:32-58 | that determines every slot |
| `HeapSpec.PopBag` | apps/MCCTable/original/priority_queue.c:32-58 | from any contents either pop removes exactly one occurrence of the root |
| `HeapSpec.PopAsMeantOrders` | apps/MCCTable/original/priority_queue.c:32-58 | comparing with the displaced item restores heap order |
| `HeapSpec.PopAsWrittenMoves` | apps/MCCTable/original/priority_queue.c:40-56 | on a heap the pop as written moves at most one level: the root's least child up, the last item into its slot |
| `HeapSpec.PopAsWrittenOrder` | apps/MCCTable/original/priority_queue.c:40-56 | afterwards only pairs below slot 2 or 3 can be out of order; none is if and only if the last item is at most the items below that slot; the root is least regardless |
| `HeapSpec.PopAsWrittenOutOfOrder` | apps/MCCTable/original/priority_queue.c:32-58 | pushing 1 to 7 and popping as written gives 1, 2, 3, 5 with 4 left inside |
| `HeapSpec.PopAsWrittenSorts` | apps/MCCTable/original/priority_queue.c:32-72 | n pops as written return every heap of n items in nondecreasing priority if and only if n is at most 5 |
| `PriorityQueue.Heap.Push` | apps/MCCTable/original/priority_queue.c:15-30 | grows to twice the size when needed, adds exactly the item, keeps heap order, and leaves every slot where a push puts it |
| `PriorityQueue.Heap.PopAsWritten` | apps/MCCTable/original/priority_queue.c:32-58 | NULL exactly when empty, else the root's data and the slots of the as-written function |
| `PriorityQueue.Heap.PopAsMeant` | apps/MCCTable/original/priority_queue.c:32-58 | removes exactly the root, a least item, keeps heap order, and leaves every slot where the sinking item does |
| `PriorityQueue.PushAllPopAll` | apps/MCCTable/original/priority_queue.c:60-72 | n pushes and n pops as meant return the same items in nondecreasing priority |
| `PriorityQueue.PopAllAsWritten` | apps/MCCTable/original/priority_queue.c:69-71 | the loop of pops returns the data of exactly the items that were inside, by the priorities of the run of pops as written |
| `PriorityQueue.PushAllPopAllAsWritten` | apps/MCCTable/original/priority_queue.c:60-72 | n pushes and n pops as written return the data of exactly the given items, up to five of them in nondecreasing priority |
| `NumberText.NumeralReads` | tos/lib/printf/generic_printf.h:111-122 | the digits written, in base 8, 10 or 16, read back as the number |
| `NumberText.NumeralLength` | tos/lib/printf/generic_printf.h:111-122 | no more digits than the number needs |
| `NumberText.DigitRoundTrip` | tos/lib/printf/generic_printf.h:113-118 | the sixteen digits, in small or capital letters, and their values |
| `NumberText.BodyReads` | tos/lib/printf/generic_printf.h:100-143 | sign, zeros and digits read back as the argument; unsigned conversions modulo 2^32 |
| `NumberText.PrintedWidth` | tos/lib/printf/generic_printf.h:124-142 | body length max(digits, precision) plus sign; total max(width, body) unless the number is negative and width > precision > digits, and then exactly one more than the width |
| `NumberText.PrintedTooWide` | tos/lib/printf/generic_printf.h:124-137 | -5 with width 5 and precision 3 takes six characters |
| `NumberText.ParseRefuses` | tos/lib/printf/generic_printf.h:208-253 | -1 exactly for fields that are not digits with at most one dot; what is echoed is the rest from the first character that does not belong |
| `NumberText.ParsePrinted` | tos/lib/printf/generic_printf.h:208-253 | parsing a printed width, alone or with a printed precision, gives the numbers back |
| `NumberText.ParseReads` | tos/lib/printf/generic_printf.h:208-253 | a field that is not refused gives the number before the dot and the one after it, or the number and 0; an empty one with the flag set 0 and 3 |
| `NumberText.PrefixBelow` | tos/lib/printf/generic_printf.h:229-231 | no intermediate value of the parse exceeds the final one |
| `NumberText.FormattedReads` | tos/lib/printf/generic_printf.h:299-357 | every integer conversion, with no width, a printed width w, or a printed width w and precision p: o in base 8, u, d and i in base 10, x and p in base 16 with small letters, X with capital ones; spaces, a minus sign only for d and i, then only digits of the base that read as the argument, in max(w, max(p, digits) + sign) characters, one more exactly for a negative number with w > p > digits |
| `NumberText.FormattedRefuses` | tos/lib/printf/generic_printf.h:326-330 | a refused field is answered with its end from the first character that does not belong, and the letter |
| `NumberText.SentParts` | tos/lib/printf/generic_printf.h:46-55 | characters are sent one by one, a line feed with a return before it |
| `GenericPrintf.StrRev` | tos/lib/printf/generic_printf.h:81-97 | reverses the string in the buffer in place |
| `GenericPrintf.WriteDigits` | tos/lib/printf/generic_printf.h:111-122 | the digit loop leaves the reversed numeral in the buffer |
| `GenericPrintf.Printer.PrintHexOct` | tos/lib/printf/generic_printf.h:100-143 | sends exactly the spaces and body of the printing function, counts exactly those, and lowers left_val by the spaces |
| `GenericPrintf.Printer.FormatVal` | tos/lib/printf/generic_printf.h:208-253 | both globals, the result, the echo and the counter are those of the parse function |
| `GenericPrintf.Printer.Convert` | tos/lib/printf/generic_printf.h:299-357 | one whole integer conversion, error branch included |
| `Scaling.ScaleCorrect` | tos/system/scale.h:13-20 | scale32 is x * a / b rounded to nearest if and only if (x mod b) * a + b / 2 and the result fit 32 bits |
| `Scaling.ScaleAlways` | tos/system/scale.h:13-20 | in every case: the division of x * a + b / 2 less the whole words that the intermediate value holds, modulo 2^32 |
| `Scaling.ScaleCorrectForAll` | tos/system/scale.h:13-20 | for given a and b it is right for every x whose result fits if and only if a * (b - 1) + b / 2 < 2^32 |
| `Scaling.DocumentedBound` | tos/system/scale.h:4-11 | the documented bound on a * b suffices when a is at least half of b |
| `Scaling.DocumentedBoundFails` | tos/system/scale.h:4-11 | for a = 1 and b = 2^32 - 1, within the documented bound, a result that fits comes out wrong |
| `Scaling.ScaleIsRounding` | tos/system/scale.h:7-11 | under the bound on a and b the result is within one half of x * a / b and monotone in x |

## Left out

- ChainedHashTable.HashTable.Expand: clears the slots that realloc adds, where `hashtable.c:108` does not; the code as written is modelled on values in `HashTableAsWritten`. realloc is modelled as a copy to a new array.
- HashTableProperties.CreatedRunRefines: takes `hashtable.c:108` as it was meant; `HashTableAsWritten.CreatedRunRight` takes it as written.
- HashTableProperties.RunRefines: the same; `HashTableAsWritten.RunRight` takes the line as written.
- HashTableProperties.StepValid: the same; as written a growth through realloc keeps none of this.
- HashTableProperties.InsertRefines: the same, where the insertion grows the table through realloc.
- HashTableProperties.RunRoomy: the same, for growth through realloc.
- HashTableDuplicates.RunTracks: the same; `HashTableAsWritten.ListRunRight` takes the line as written.
- HashTableDuplicates.CreatedRunTracks: the same.
- HashTableDuplicates.RetrievalGrows: the same for the in-place half.
- HashTableDuplicates.GrowthKeepsDuplicates: the same for the in-place half.
- HashTableRuns.ServeAll: the same, because the object's growth is the corrected one.
- HashTableRuns.CreateAndServe: the same.
- HashTableProperties.GrowthPlaces: the same for the in-place half.
- HashTableProperties.GrowthConserves: the same for the in-place half; `InPlaceNeedsEmptyTail` covers any content of the slots.
- HashTableAsWritten.ExpandRight: of the memory that line 108 overwrites when the slot is not NULL, only the added slots are modelled: whether the first was NULL before the line, and the entries they head after it.
- ChainedHashTable.HashTable.Insert: growth through realloc is the corrected one; the 32-bit wrap of `entrycount` is not modelled, because it would take 2^32 live entries.
- SinglePrecision.CodeLimits: single precision is that of IEEE 754, with the product rounded to it; a compiler that keeps more digits gets the exact limits for more of the longest lengths. That the lengths are prime is not proved.
- `hashtable_destroy` and `freekey`: releasing memory; removal forgets the entry.
- SampleStore.Node.Update: the 32-bit range of `messageId * NREADINGS` is not modelled; counts are 16-bit fields of a message.
- OscilloscopeDisplay.Oscilloscope.MessageReceived: without the sampling-period exchange of `periodUpdate`, which does not touch the data.
- OscilloscopeDisplay.Oscilloscope.Drawn: exactness leaves out one reading a message at scale 8, where `ScreenExactly` shows that it fails.
- ScopeSpec.OnScreenIsExact: the same.
- `setYAxis`, drawing, tick marks and screen coordinates: floating point and output.
- OscilloscopeDisplay.Oscilloscope.PickColor: requires an existing row, as the table widget does.
- ByteRadioShellsort.Shellsort: elements are integers rather than 16-bit words, which the code only compares and moves; `size` is the length of the array.
- PriorityQueue.Heap.Push: realloc always succeeds, because the code does not check it.
- GenericPrintf.Printer.PrintHexOct: `long` is 32 bits, and the body must fit the 40-character buffer, which the code does not check.
- GenericPrintf.Printer.FormatVal: `left_val` and `right_val` are unbounded; `PrefixBelow` shows that no step overflows when the final value fits.
- GenericPrintf.Printer.Convert: one integer conversion; the scan of the format string, the `%c`, `%s`, `%f` and `%l` conversions and `float_print` are not modelled.
- The nesC components: the headers in this tree hold only their types and comments.
- Register and enumeration headers, `manchester.h` and other finite tables: they would add only easy members.
