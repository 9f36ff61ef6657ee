# A verified model of rf-gateway

rf-gateway is a C daemon that bridges a 25-byte radio link to UDP and WebSocket clients. This
project models its four parts with the most intricate state in Dafny 4.11, in the imperative form
the C code has, and proves what they are for.

- **JSON tokenizer** (`jsmn.h`, built as `config.c` builds it: neither `JSMN_STRICT` nor
  `JSMN_PARENT_LINKS`). `JsmnSpec` is the tokenizer as a transition system over loop-head states,
  `Jsmn` the loops themselves over a parser object and a token array. `JsonText` holds RFC 8259
  documents (sections 2 to 7) as trees that carry their own white space, with their text and their
  preorder tokens, and `JsonTokens` proves that the tokenizer, which keeps no stack, produces
  exactly those tokens. `JsmnRuns` and `JsmnSpans` are about arbitrary text: which texts are
  accepted, counting mode, resuming, and the shape of the token array; `JsmnOutcomes` says in
  characters what a string and a bare word are and where a run ends with which code. `JsmnQuotes`
  reads brackets outside quotation marks without the tokenizer and compares.
- **Insertion-ordered hash map** (`hashmap.c`). `OrderedMap` holds ordered maps as sequences of
  entries, what a run of operations means, what resizing costs, and what a set and a merge do when
  memory is short. `Histories` is about whole series of calls, each of which may be short of memory.
  `HashMap` is the class whose entries lie at once in a chain per bucket and in the doubly linked
  order list; each method is proved against `OrderedMap`. Whether an allocation finds memory is an
  input of the call that makes it.
- **Doubly linked deque** (`list.c`): `Deque`, a heap structure proved against sequences.
- **Radio layer** (`rf.c`): `Crc16` and `Fnv1a` (the two hash loops and their algebra), `Frames`
  (sealing, opening and answering a frame), `Escapes` and `Corruption` (which damaged frames pass
  the receive check), `Network` (gateways that send to each other), `Broadcast` (gateways that all
  hear what is sent) and `Gateway` (the send path, the receive path and device registration over byte
  buffers and the hash map). `Wire` and `Addresses` say byte by byte what is sent and answered, under
  which key, and what address a serial number has.

`CTypes` has the two types they share: 32-bit numbers and pointers that may be null.

`dafny verify dfyconfig.toml` checks the whole project.

## Conventions

- A `char` of a JSON text stands for one byte of it. Texts are shorter than 2^31 bytes, so that
  positions fit the C `int` fields.
- `uint8_t` and `uint16_t` values of the radio layer are bit-vectors and wrap around; `uint32_t`
  values are numbers below 2^32, multiplied modulo 2^32 where the C code multiplies. The memory
  image of a `uint32_t` or `uint16_t` is little-endian.
- Random bytes, received bytes, the contents of an uninitialised transmit buffer and the outcome of
  each allocation are inputs. For one set the outcome is `Memory` (enough, none for an entry, none for
  the buckets of a resize), for a merge a sequence of these and whether there is room to begin with.
- AES-CBC is an abstract pair of functions that keep the length of the 16-byte window and undo each
  other for the same key and iv.
- Handlers run one after the other; the C code has no locks.

## Where the code differs from what one would expect of it

- *Brackets outside strings.* The tokenizer accepts `[a[]`: the bare word `a[` swallows a bracket
  (`JsmnQuotes.UnbalancedTextIsAccepted`). It also accepts `[a"]`, whose quotation mark it takes for
  part of a word (`JsmnQuotes.QuotedWordIsAccepted`). An accepted text whose bare words hold no
  quotation mark has balanced brackets outside quotation marks if and only if no bare word holds an
  opening bracket (`JsmnQuotes.BalancedOutsideQuotes`). The brackets that the main loop itself meets
  are always balanced (`JsmnRuns.Accepts`).
- *Cost of resizing.* At most three relinked entries per set hold in every history without merges in
  which at most 50 resizes find no memory, and 50 is exact (`Histories.ThreePerSet`): 97 sets of
  distinct keys, 51 of which find no memory for their resize, relink 292 entries
  (`Histories.StarvedRelinks`). A bound for every history, merges included, is
  `Histories.HistoriesRelink`.
- *Damaged frames.* The checksum is stored low byte first (`rf.c:176`, `rf.c:305`), so covered bytes
  and checksum are not one codeword. With the length byte intact, odd numbers of flipped bits and
  bursts of up to twelve bits are always noticed, and of all bursts of up to sixteen bits exactly
  twelve, at the end of data and checksum, are not (`Corruption.BurstPasses`); every frame with data
  has a damaged twin within thirteen bits that passes (`Corruption.ThirteenBitsEscape`). Exactly which
  damage passes is `Corruption.PassesAgain`. When the length byte is damaged, a single flipped bit can
  pass (`Corruption.OneFlipInTheLengthEscapes`).
- *`errno` after `hashmap_set`.* The comment at `hashmap.c:124-125` says that a non-zero `errno`
  means the set failed. When only the resize failed, the value has been stored nevertheless
  (`HashMap.Map.Set`), as for the thirteenth key of a fresh map (`Histories.StoredDespiteError`). The
  comment holds if and only if the key is known or no resize is due
  (`OrderedMap.ErrorMeansUnchanged`).
- *Iterating over a list.* The documented loop stops at the first null value, not at the end of the
  list (`Deque.Traverse`).
- *Two secrets.* The send path and the answer use the gateway's own key for a device whose serial
  number has a non-zero top nibble, the receive path always uses the stored device's key. The
  network theorems therefore ask that the receiver's entry holds the secret with which the sender
  sends.

## Model

| member | source | states |
|---|---|---|
| Jsmn.Parser.constructor | jsmn.h:459-463 | a new parser is at position 0 with no tokens and no superior token |
| Jsmn.Parser.AllocToken | jsmn.h:106-119 | fails exactly when the array is full and then changes nothing; otherwise blanks the next token and leaves all others alone |
| Jsmn.Parser.FillToken | jsmn.h:124-130 | sets one token and no other |
| Jsmn.Parser.NewToken | jsmn.h:177-182 | appends one filled token, or changes nothing when the array is full |
| Jsmn.Parser.ParsePrimitive | jsmn.h:135-188 | return code, position, new token and untouched tokens are those of the word scan; on an error the position is rewound and nothing has changed |
| Jsmn.Parser.ParseHex | jsmn.h:239-253 | consumes the hexadecimal digits of an escape, or reports the first wrong one |
| Jsmn.Parser.ParseEscape | jsmn.h:224-259 | passes an escape, or fails, exactly as the string scan does; which escapes those are is JsmnOutcomes.StringScan |
| Jsmn.Parser.ParseString | jsmn.h:193-263 | the same as ParsePrimitive for strings: the token excludes the quotation marks, an error rewinds |
| Jsmn.Parser.OpenContainer | jsmn.h:281-307 | adds an open token as a child of the superior one and makes it superior, or fails for lack of room |
| Jsmn.Parser.CloseContainer | jsmn.h:308-360 | the backward scans close the innermost open token if the kind matches, and make the next open one superior |
| Jsmn.Parser.TakeBracket | jsmn.h:281-360 | the bracket cases are one step of the transition system |
| Jsmn.Parser.TakeText | jsmn.h:361-370 | so are the string case and the default case, in counting mode one step of the count |
| Jsmn.Parser.Separate | jsmn.h:379-396 | after a comma a superior key gives way to the innermost open container |
| Jsmn.Parser.Iterate | jsmn.h:275-441 | one pass of the main loop is one step of the transition system, in counting mode one step of the count |
| Jsmn.Parser.Parse | jsmn.h:268-453 | the whole call returns the code of the specified run and leaves the parser and the array in its final state; without an array it returns the count |
| JsmnSpec.Step | jsmn.h:275-441 | the position strictly grows, tokens are never lost and never exceed the array, and the superior index stays a token index or -1 |
| JsmnSpec.Run | jsmn.h:268-453 | returns an error code or the number of tokens, and keeps the superior index in range |
| JsmnSpec.ScanPrimitive | jsmn.h:143-165 | a scan that succeeds has passed only printable characters and stands at a delimiter or the end |
| JsonTokens.ParsesEveryDocument | jsmn.h:268-453 | for every JSON value of RFC 8259, whose white space, digits and escapes are defined without the tokenizer, and every white space around its parts, with room for every node, the tokenizer returns the node count and exactly the preorder tokens: kind, start, end and size of each |
| JsonTokens.RunValue | jsmn.h:361-370 | a printed value in the middle of a text appends the tokens of its tree, counts once in the superior token and leaves all earlier tokens alone |
| JsonTokens.Continue | jsmn.h:379-396 | at a comma directly in a container, whatever value came before, that container becomes superior again |
| JsonTokens.ScanBody | jsmn.h:203-260 | the string scan runs through every string body that section 7 of RFC 8259 allows to its closing quotation mark |
| JsmnRuns.Accepts | jsmn.h:308-360 | for arbitrary text and array size, a run from a fresh parser succeeds if and only if there is no lexical error, the array holds the count, and the brackets the loop meets form a balanced word of two kinds |
| JsmnRuns.AcceptsFrom | jsmn.h:337-358 | the same from any loop head, with the open tokens as the initial stack: the tokens with end -1 implement the stack of a recogniser |
| JsmnRuns.StepIsPush | jsmn.h:281-358 | one pass of the loop acts on the open tokens as push and pop act on a stack |
| JsmnRuns.CountAgrees | jsmn.h:173-176 | a successful run returns the count of counting mode; an array of at least that size never runs out, a smaller one never succeeds |
| JsmnRuns.CountAgreesFrom | jsmn.h:284-286 | the same from any loop head; and the outcome does not depend on how much room is left |
| JsmnRuns.Resumes | jsmn.h:177-181 | after running out of tokens, calling again with a larger array that keeps the old tokens ends as if the larger array had been there from the start |
| JsmnRuns.ResumesRepeatedly | jsmn.h:109-111 | the same for any number of calls with arrays of growing size |
| JsmnOutcomes.StringScan | jsmn.h:203-263 | a string lexeme ends at the first quotation mark behind characters and the eight escapes or \u with four hexadecimal digits; it is invalid (-2) exactly when such characters lead to another escape, and unfinished (-3) exactly when they lead to the end |
| JsmnOutcomes.WordScan | jsmn.h:143-169 | a bare word is printable ASCII up to the end, white space, a colon, a comma or a closing bracket; it is invalid (-2) exactly when it leads to another character |
| JsmnOutcomes.RunEnds | jsmn.h:268-453 | a run from a fresh parser returns -1 exactly where the array is full and the next lexeme needs a token, -2 exactly at an invalid lexeme or a closing bracket without its opening one, -3 exactly at an unfinished string or at the end with a bracket open, and otherwise the number of tokens; it leaves the parser there |
| JsmnOutcomes.CountEnds | jsmn.h:284-286 | counting mode returns the code of the first lexical error, and without one the number of tokens needed |
| JsmnOutcomes.CommaMeans | jsmn.h:379-396 | a comma changes the superior token only, only if it is a string or a bare word, and only to the last open container |
| JsmnSpans.StepKeepsShape | jsmn.h:275-441 | every pass keeps: tokens lie in the text with the delimiters of their kind, starts strictly increase, spans nest or are disjoint |
| JsmnSpans.StepKeepsPairs | jsmn.h:308-360 | every pass keeps: the text inside a closed container has matching brackets, the text behind an open one leaves exactly the later open tokens unmatched |
| JsmnSpans.RunKeepsPairs | jsmn.h:443-452 | both survive any run on arbitrary text, and after success every token is closed |
| JsmnSpans.SizesAddUp | jsmn.h:291-299 | in every run the token sizes plus the tokens created without a superior token grow with the number of tokens |
| JsmnSpans.FreshRun | jsmn.h:268-453 | from a fresh parser, on arbitrary text: shape, pairing, sizes plus roots equal to the number of tokens, at most the array size, and the return value is that number |
| JsmnSpans.BalancedOutsideStrings | jsmn.h:422-433 | with strings taken as the tokenizer takes them: an accepted text has balanced brackets outside them if and only if no bare word holds an opening bracket |
| JsmnQuotes.ReadingsAgree | jsmn.h:193-263 | on a text without lexical errors whose bare words hold no quotation mark, reading brackets outside quotation marks character by character gives the brackets outside the tokenizer's strings |
| JsmnQuotes.BalancedOutsideQuotes | jsmn.h:422-433 | of an accepted text whose bare words hold no quotation mark, the brackets outside quotation marks are balanced if and only if no bare word holds an opening bracket |
| JsmnQuotes.UnbalancedTextIsAccepted | jsmn.h:143-165 | `[a[]` is accepted with two tokens although its brackets outside quotation marks are not balanced |
| JsmnQuotes.QuotedWordIsAccepted | jsmn.h:143-165 | `[a"]` is accepted with two tokens although its brackets outside quotation marks are not balanced and no bare word holds an opening bracket |
| OrderedMap.SetMeans | hashmap.c:108-126 | setting a key gives it the value, changes no other key, keeps keys distinct and a known key's place; a new key goes last |
| OrderedMap.RemoveMeans | hashmap.c:223-230 | removing a key removes it only and keeps the order of the others |
| OrderedMap.RunsAreMaps | hashmap.c:127-274 | after any run of sets, removes and clears a lookup finds the last set of the key that nothing later has undone |
| OrderedMap.MergeMeans | hashmap.c:276-284 | a merge is the union of both maps, in which the other map wins |
| OrderedMap.MergeKeys | hashmap.c:285-302 | the keys after a merge are the old keys, then the new keys in the other map's order |
| OrderedMap.MergeIntoEmpty | hashmap.c:71-83 | merging into an empty map copies entries and order |
| OrderedMap.MergeWithItself | hashmap.c:285-302 | merging a map with itself changes nothing, at any stage |
| OrderedMap.RelinksAreAmortized | hashmap.c:149-166 | in every run on a fresh map with n sets, f failed and r > 0 successful resizes, all resizes relink fewer than 2n + r + f r - 12 entries, hence at most 3n if r + f r <= n + 12, and at most 3n + f r anyway; r is logarithmic in n; if no resize failed, the load stays at or below .75 |
| OrderedMap.ThreeSuffice | hashmap.c:149-166 | every run of load operations with at most 50 failed resizes relinks at most 3n entries |
| OrderedMap.StepKeepsLean | hashmap.c:149-166 | what every operation keeps while at most 50 resizes have failed: entries relinked so far and entries the map can hold before the next resizes stay below what three per set pay for |
| OrderedMap.CostBalances | hashmap.c:161-166 | what each operation does to the potential max(0, 2 size - 3/4 capacity) |
| OrderedMap.SetWithMemory | hashmap.c:127-169 | a set reports an error exactly when the key is new and there is no memory for its entry or for the resize that it makes due; the value is there afterwards unless there was none for the entry; with enough memory the buckets double exactly when more than .75 of them would be taken |
| OrderedMap.ErrorMeansUnchanged | hashmap.c:124-168 | that a set which reports short memory has stored nothing holds if and only if the key is known or no resize is due |
| OrderedMap.MergeWithMemory | hashmap.c:285-302 | a merge with room and with memory for every set succeeds, and one that succeeds had room and memory for every new entry |
| OrderedMap.MergeHappens | hashmap.c:285-302 | whatever memory there is, a merge finds some of it and has the effect that goes with it |
| OrderedMap.MergedLoad | hashmap.c:285-302 | after a merge with memory there are as many buckets as both maps had entries, or as before if they sufficed, or twice as many if more than .75 of them would be taken; how many entries were relinked |
| OrderedMap.StageIsMerge | hashmap.c:293-299 | sets of the other map's entries, one after the other and all with memory, give the merged map, and the load grows by the new keys alone |
| OrderedMap.MergeStaysRoomy | hashmap.c:285-302 | a load at or below .75 stays there through a merge that finds its memory |
| Histories.HistoriesMean | hashmap.c:93-302 | any history of set, remove, clear and merge calls as the methods of the map specify them, from a fresh map, whatever memory each finds: keys stay distinct, size counts them, and every lookup finds the last set that took effect and that nothing later has undone |
| Histories.EveryRunHappens | hashmap.c:93-302 | whatever is called and whatever memory there is for each call, a history follows, and what each call finds is determined by the memory there is |
| Histories.NothingFails | hashmap.c:93-302 | with memory for everything that a call may ask for, no call fails |
| Histories.HistoryEntries | hashmap.c:93-302 | the entries after such a history are those of the ordered map after what the calls and the memory they found say: a set without memory for its entry does nothing, one of which only the resize failed takes effect, and so do the entries merged before memory ran out |
| Histories.HistoriesRelink | hashmap.c:149-302 | n sets and m merges that offered o entries, with f failed and r successful resizes of inserts, have relinked at most 3n + 6o + f (r + 4m) entries; r is logarithmic in n + o; if no resize failed, the load is at or below .75 |
| Histories.ThreePerSet | hashmap.c:149-166 | every history without merges and with at most f failed resizes relinks at most 3n entries if and only if f is at most 50 |
| Histories.HistoryLoad | hashmap.c:149-166 | the load of a history without merges is that of a run of operations with as many sets and as many failed resizes |
| Histories.HistorySteps | hashmap.c:285-302 | the load of any history is that of a run of inserts, overwrites, removes, clears and reservations with as many failed resizes |
| Histories.StarvedRelinks | hashmap.c:161-166 | 97 sets of distinct keys, 51 of which find no memory for their resize, relink 292 entries |
| Histories.StoredDespiteError | hashmap.c:161-166 | the thirteenth key of a fresh map is stored although its resize fails |
| HashMap.Map.Create | hashmap.c:19-39 | null exactly if there is no memory for the header or none for the buckets; a created map is empty, consistent, and has 16 buckets |
| HashMap.Map.Locate | hashmap.c:231-240 | the walk along one bucket's chain finds the entry with the key, and the entry before it, or shows that no entry of the whole map has the key |
| HashMap.Map.Get | hashmap.c:187-199 | returns what the ordered map holds for the key |
| HashMap.Map.Contains | hashmap.c:209-221 | tells whether the ordered map has the key, also with a null value |
| HashMap.Map.Set | hashmap.c:127-169 | evicts the old value and refines the ordered map's set at the memory there is: without memory for an entry a new key changes nothing, without memory for a due resize it is stored all the same, otherwise it is stored and a due resize done; errno tells exactly the first two; chains and order list stay consistent in every case |
| HashMap.Map.Append | hashmap.c:141-168 | where there is memory a new entry joins both link structures, and the buckets double when the load test says so; the outcome is determined by the memory there is |
| HashMap.Map.Remove | hashmap.c:231-274 | evicts the value and refines the ordered map's remove: the entry leaves its chain and the order list |
| HashMap.Map.Clear | hashmap.c:93-106 | empties the map and keeps its buckets |
| HashMap.Map.Resize | hashmap.c:367-389 | where there is memory rebuilds every chain from the order list, keeps entries and order, counts the relinked entries; where there is none nothing changes |
| HashMap.Map.Merge | hashmap.c:285-302 | for two maps, refines the merge of ordered maps and leaves the other map as it was; the exact load afterwards; on failure, which prefix of the other map has been merged and why it stopped there; both are determined by the memory there is |
| HashMap.Map.MergeSelf | hashmap.c:285-302 | the same call with the same map twice: fails exactly if it needs more buckets and there is no room; entries and order stay, the buckets grow to twice the size if they were fewer and nothing else changes |
| HashMap.Map.Clone | hashmap.c:71-83 | null exactly if some allocation found no memory; otherwise a clone has equal entries in equal order and shares no memory with the original |
| HashMap.Cursor.Next | hashmap.c:334-350 | yields the next entry of the order list; the index is its position |
| HashMap.Traverse | hashmap.c:304-323 | the documented loop visits every entry once, in insertion order, each with its position |
| HashMap.BucketedMeans | hashmap.c:128-128 | the entries of a chain are those of the order list whose key is the bucket's number modulo the number of buckets |
| HashMap.ChainAt | hashmap.c:128-129 | in a consistent map the chain of every bucket links exactly the entries of the order list whose key falls into it, newest first |
| HashMap.BucketedAround | hashmap.c:236-260 | how the chains of all buckets change when one entry leaves the order list |
| Deque.List.Push | list.c:105-126 | appends the item exactly if there is memory for a node, and otherwise changes nothing |
| Deque.List.Pop | list.c:135-154 | removes and returns the last item, null for an empty list |
| Deque.List.Unshift | list.c:163-183 | puts the item in front exactly if there is memory for a node |
| Deque.List.Shift | list.c:194-213 | removes and returns the first item, null for an empty list |
| Deque.List.Clear | list.c:66-77 | empties the list |
| Deque.List.First | list.c:215-217 | returns the first item of a list that is not empty |
| Deque.List.IsEmpty | list.c:219-222 | tells whether the list is empty |
| Deque.List.Concat | list.c:86-96 | appends the other list's items in order and leaves that list as it was; succeeds exactly if there is memory for every node, and otherwise appends the items before the first without |
| Deque.List.Clone | list.c:41-57 | null exactly if some allocation found no memory; otherwise a clone has the same items and shares no nodes |
| Deque.List.WalksAgree | list.c:105-213 | walking through prev from the tail gives the reverse of walking through next from the head |
| Deque.Cursor.Next | list.c:231-247 | yields the next item and counts |
| Deque.Traverse | list.c:249-267 | the documented loop visits the items before the first null one, each with its position; the whole list if and only if no item is null |
| Crc16.Compute | rf.c:336-349 | the loop computes the fold of the byte step over the covered bytes |
| Crc16.CrcDivides | rf.c:336-349 | for every byte string the byte-at-a-time shift and xor is the remainder of long division by x^16+x^12+x^5+1 with preset 0xFFFF (ITU-T V.41, section 2) |
| Crc16.StepIsEightFeeds | rf.c:343-345 | one byte step of the loop is eight steps of the bit-serial register |
| Crc16.StepInjective | rf.c:343-345 | for a fixed byte, different checksum states stay different |
| Crc16.FeedXor | rf.c:341-346 | the register is linear over xor of state and data |
| Crc16.BurstsAreDetected | rf.c:341-346 | different messages of one length whose differences lie within 16 consecutive bits never share a checksum |
| Crc16.CrcKeepsParity | rf.c:336-349 | the checksum has the bit parity of the data |
| Crc16.OddFlipsAreDetected | rf.c:246-248 | any odd number of flipped bits across data and stored checksum makes the stored checksum wrong |
| Fnv1a.Compute | rf.c:358-367 | the loop computes the fold of the FNV-1a step |
| Addresses.HashInBytes | rf.c:358-367 | the hash of any bytes, in numbers: from 2166136261, each byte in turn is xored into the lowest byte of the state, which is then multiplied by 16777619 modulo 2^32 |
| Addresses.AddressInBytes | rf.c:140-142 | the address of a device is that of the four bytes of its serial number, lowest first |
| Addresses.AddressOfOne | rf.c:140-142 | the address of serial number 1 is 0xFB69B604 |
| Addresses.AddressOfFourBytes | rf.c:140-142 | the address of serial number 0x01020304 is 0x9B35D555 |
| Fnv1a.StepBijective | rf.c:363-365 | for a fixed byte the step has an inverse on the 32-bit states |
| Fnv1a.StepTellsBytes | rf.c:363-365 | for a fixed state the step is injective in the byte |
| Fnv1a.OneByteNeverCollides | rf.c:358-367 | inputs of one length that differ in exactly one byte have different hashes |
| Frames.OpensWhatWasSealed | rf.c:236-248 | a sealed frame opened with the sender's key and iv passes the checksum and has the sender's addresses, control, counter, random byte, command, length and data |
| Frames.U32InMemory | rf.c:162-163 | reading a stored address back gives the address |
| Corruption.PassesAgain | rf.c:246-248 | a damaged frame with its length byte intact passes the receive check if and only if the difference of the covered bytes, fed to a register preset to zero, leaves the difference of the stored words |
| Corruption.OddFlipsFail | rf.c:246-248 | with the length byte intact, an odd number of flipped bits across covered bytes and checksum fails the check |
| Escapes.ShortErrorsThatPass | rf.c:246-248 | a non-zero difference of data bits and stored bits within sixteen places leaves the stored word in the register if and only if it is one of twelve in the last 32 bits |
| Corruption.BurstPasses | rf.c:246-248 | with the length byte intact, a burst of up to sixteen bits across covered bytes and checksum, in the order in which they are sent, passes the check if and only if it is one of those twelve |
| Corruption.ShortBurstFails | rf.c:246-248 | no burst of up to twelve bits there passes |
| Corruption.BurstFails | rf.c:246-248 | and any change of covered bytes within 16 consecutive bits, if the checksum is intact too |
| Corruption.ThirteenBitsEscape | rf.c:246-248 | for every frame with data that passes, damage within thirteen bits at the end of data and checksum passes too |
| Corruption.OneFlipInTheLengthEscapes | rf.c:246-248 | two frames that differ in one bit of the length byte and both pass |
| Frames.AnswersAreFinal | rf.c:256-298 | no command that is sent as an answer is answered |
| Network.SentArrives | rf.c:161-180 | a packet sent to an addressee that agrees on the secret opens there: checksum right, every field the sender's, counter that of the sender's entry |
| Network.SealedOpens | rf.c:302-318 | the same for any frame built by a gateway, answers included |
| Network.AnswerIsFinal | rf.c:251-318 | an answer is addressed to the source of the frame it answers, is readable there and is not answered again |
| Network.AnswerArrives | rf.c:251-318 | the requester opens an answer that comes from the addressee, is encrypted if and only if the request was, and carries the request's counter with the top bit set and the command and data that belong to the request's command |
| Wire.IsAnswered | rf.c:231-302 | a frame from a known device is answered if and only if, opened with the device's key, its two checksum bytes behind the data are right and byte 11 is 0x01, 0x02, 0x03, 0x84 or 0x85 |
| Wire.AnswerIs | rf.c:251-318 | the answer byte by byte: addresses, counter with the top bit set, command 0x81, 0x82, 0x82, 0x04 or 0x04 with four bytes 0x11, 0x22, 0x33, 0x44 or none, checksum, zeros; encrypted exactly if the request was, under the device's key if the top four bits of its serial number are zero and else under the gateway's |
| Wire.UnknownIsIgnored | rf.c:233-234 | a frame whose bytes 4 to 7 name no known device is not answered |
| Wire.SendInBytes | rf.c:153-183 | what is sent for a packet byte by byte: own address, counter, random byte, the packet's other bytes, checksum low byte first; bytes 9 to 24 encrypted exactly if the top bit of byte 8 is set, under the device's key if the top four bits of its serial number are zero and else under the gateway's |
| Network.CorruptedIsIgnored | rf.c:246-268 | a received frame that, once opened, differs from one with a right checksum is not answered if its length byte is intact and the difference is an odd number of bits or a burst of at most twelve across covered bytes and checksum, or a burst of at most sixteen in the covered bytes alone |
| Network.BurstIsIgnored | rf.c:246-298 | a received frame that, once opened, differs from one with a right checksum within sixteen sent bits and not in its length byte stays unanswered if and only if the damage is not one of the twelve or the command has no answer |
| Network.EscapeIsAnswered | rf.c:246-268 | a frame damaged within thirteen bits across the end of its data is answered if its command has an answer, as the intact one would be |
| Network.FlippedLengthIsAnswered | rf.c:246-268 | a poll without data and the same with one bit of its length byte flipped are both answered |
| Network.DeliveryLightens | rf.c:251-318 | every delivery strictly decreases the weighted number of frames in the air and leaves only readable frames |
| Network.OnlySilenceIsFinal | rf.c:213-221 | the air is stuck if and only if it is empty |
| Network.NetworkFallsSilent | rf.c:201-333 | in any history of a network of agreeing gateways there are at most twice as many deliveries as there were frames, whatever the order |
| Broadcast.SealedIsClear | rf.c:174-180 | every gateway that knows the source with the sending secret can read a frame that was sealed |
| Broadcast.AnswerIsHushed | rf.c:231-298 | an answer is readable for every gateway that hears it, addressee or not, and none answers it |
| Broadcast.HearingLightens | rf.c:231-318 | every transmission, whichever gateways it reaches, lowers the number of frames in the air plus the answers they can still get; by exactly 1 if and only if it reaches all who answer it |
| Broadcast.BroadcastsFallSilent | rf.c:201-333 | in any history in which every gateway in range that knows the source with the sending secret may answer, there are at most 1 + |net| transmissions for each frame there was, and after that many the air is empty; no agreement about secrets is needed |
| Gateway.CheckBuffer | rf.c:246-248 | comparing two bytes of the buffer decides the receive check |
| Gateway.SealBuffer | rf.c:174-181 | stores the checksum, then encrypts the window in place, as specified by the sealing of frames |
| Gateway.DecryptBuffer | rf.c:236-239 | decrypts the window in place if the control byte says so |
| Gateway.WriteReply | rf.c:251-303 | writes exactly the specified answer, or tells that there is none |
| Gateway.Gateway.ViewMeans | rf.h:9-17 | what the network model sees of a gateway is its own address and secret and each stored device's serial number, secret and counter |
| Gateway.Gateway.Lookup | rf.c:233-233 | finds the device stored under an address |
| Gateway.Gateway.HandleFrame | rf.c:213-331 | one round of the receive loop sends exactly what the network model's receive step says |
| Gateway.Gateway.Transmit | rf.c:166-183 | fills in the counter and advances it, copies, draws the random byte and seals |
| Gateway.Gateway.Enqueue | rf.c:153-199 | status, frame sent and counters are those of the network model's send step: exactly the addressee's counter advances, modulo 256 |
| Gateway.Gateway.AddDevice | rf.c:140-151 | the address is the hash of the serial number in memory, the device is set in the map under it unless it is new and there is no memory for an entry, and what is released is the device that was stored there |
| Gateway.AddressesDiffer | rf.c:142-142 | serial numbers that differ in one byte have different addresses |
| Gateway.RegisteredHas | rf.c:140-151 | after any series of calls, whatever memory there is for each, the map has an address if and only if for some call with it there was memory for the entry |
| Gateway.StaysRetrievable | rf.c:140-151 | while devices are added whose serial numbers differ from its own in one byte, an added device is retrievable if and only if its address was known or there was memory for the entry |
| Gateway.AddedAgain | rf.c:144-149 | adding a serial number that is stored again replaces that entry, in its place and whatever memory is left, and no lookup under any other address changes |

## Left out

- Gateway.Gateway.HandleFrame: covers every round in which something was received, on whatever the receive buffer then holds, except frames whose opened length byte is above 10: their data and checksum do not fit the 25-byte format.
- Gateway.Gateway.Enqueue: covers packets for which the same holds; the packet is not freed in the model, and `len` lies between 0 and 256.
- Wire.SendInBytes: covers packets that Gateway.Gateway.Enqueue covers; Wire.IsAnswered and Wire.AnswerIs cover frames that Gateway.Gateway.HandleFrame covers.
- Gateway.Gateway.AddDevice: says which device is released, but its memory stays in the model, so what follows when the very same object is added twice, and released while it is in the map, is not captured.
- HashMap.Map.Merge: for two maps that share no memory, the case of one map given twice is HashMap.Map.MergeSelf; `capacity * 2` and the sum of two sizes do not overflow in the model.
- HashMap.Map.Get: together with contains, set and remove it shares one model of the walk along a chain, which the C code writes out four times.
- HashMap.Map.Remove: the key field of an entry is constant in the model; the C code zeroes it just before the memory is released, and the release itself is not modelled.
- Deque.List.Concat: for two distinct lists; the C loop does not end when a list is appended to itself.
- Deque.List.Clone: uses the loop of Concat, which the C code repeats.
- Network.NetworkFallsSilent: each frame is delivered once, to its addressee; delivery to every gateway in range is Broadcast.BroadcastsFallSilent.
- Broadcast.BroadcastsFallSilent: of the gateways in range it covers those whose entry for the source holds the sending secret, and all that know the source of an unencrypted frame; what a gateway with another secret makes of an encrypted frame depends on AES.
- `hashmap_destroy`, `list_destroy`, the iterators' `destroy` and every other release of memory.
- The `JSMN_STRICT` and `JSMN_PARENT_LINKS` branches, which this build does not compile.
- The packet queue: its only push is compiled out (`rf.c:169-170`), so the non-empty branch of `C_POLL` cannot be reached; `rfSendPacket` is not used.
- `config.c`: mostly `sscanf`, `strndup`, Base64 decoding and file reading.
- `ws.c`, `udp.c`, `rfgw.c`, `rfInit`, `rfOpen` and `rfDeInit`: sockets, threads, handshakes and process start-up.
- `crypto.c`: AES-CBC itself is in OpenSSL.
- Concurrent access of the threads to the gateway's state.
