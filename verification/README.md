# Yedis, verified

A Dafny model of the path a request takes through Yedis, from the bytes of a connection to the bytes of the reply, and
proofs of what that path promises. `dafny verify dfyconfig.toml` checks everything.

- **Parser** (`RespParser`, `ProtoParse`, `RespText`, `RespGrammar`, `RespExtension`, `RespEnds`, `RespResume`,
  `RespRefusals`, `RespRequests`). The resumable parser of the Redis serialization protocol (RESP, arrays and bulk
  strings), as an object proved against functions on its saved state. The proofs give the language it accepts and the
  texts it refuses, each as an if-and-only-if on the bytes, that a text is refused soon after no continuation can make
  it a request and never before, the exact texts after which resuming differs from one call, the round trip with the
  encoder, prefix-freeness and pipelining. The places where the code departs from its intent are kept, and for each
  the exact condition under which it does harm is proved on the bytes, with a concrete input beside it: digits that
  run out before a CR are answered Ok with a position past the end; a wait in the count line leaves the position
  behind the star; numbers wrap to 32 bits; and the guard of the body compares in `int`, so that a length above
  INT_MAX - 2 makes the parser read behind the buffer (the answer `Overrun`, which is not one of the source) and a
  distance above INT_MAX makes it wait for bytes that are there.
- **Reply buffer and formatter** (`ReplyBuffers`, `RespFormat`, `EndToEnd`). The buffer is a byte queue under every
  operation, with the cost of its growth; formatting into it and parsing its bytes gives the strings back.
- **Keyspace** (`Keyspace`, `KeyspaceRuns`, `CommandLaws`, `YStrings`, `YObjects`, `YStores`, `CommandEffects`,
  `YLists`, `YSets`, `YStringCommands`, `YCommands`, `YSortedSets`). `Keyspace` says what each command means on a map
  from keys to values. The objects hold tagged words and payloads in an explicit heap with ownership; `ExecCommand`
  proves that the objects do what the meaning says, command by command, and `ConsumeAll` that the consumer's loop on
  the objects gives the store and the replies of the abstract run. Runs of commands are then reasoned about on the
  meaning, as laws between the commands a client sends and the replies it gets.
- **Queue** (`TaskManagers`, `Servers`). The monitor between connection threads and the one consumer, as a transition
  system whose steps are single lock operations, waits, wake-ups and queue updates. The consumer runs `Keyspace`
  commands, so serial execution, reply order, absence of lost wake-ups, of deadlock and termination are proved of the
  keyspace itself; `ServeInterleaving` carries this over to the store object.
- **Poller and hex dump** (`Pollers`, `HexDumps`). The epoll registry, with the exact conditions under which its
  three-state indexes stay right, and the chunked dump into a fixed buffer, which fits, is never cut and can be
  decoded.

Where code and documentation disagree the model follows the code:

- The protocol example in the repository's README (line 49, `*$3...`) is not a request the parser accepts; counts are
  decimal lines as in the protocol.
- The type errors of the set commands are sent without CR LF and twice (src/YSet.cpp:34, 64, 86, 101, 121), and SCARD,
  SMEMBERS and SPOP on a missing key reply the null bulk followed by that text.
- LPOP, RPOP and LRANGE on a missing key or a wrong type send nothing, and LRANGE with a bound that is no integer
  sends nothing and answers ok. LLEN of a wrong type says `Unknown command`.
- The strings SET takes for integers include octal and hexadecimal ones, leading white space and a plus sign; GET
  returns their decimal.
- The poller's delivery writes the events that happened into the field that also holds the events of interest
  (net/Channel.h:37), so the masks of kernel and channel can differ afterwards.

## Model

| member | source | states |
|---|---|---|
| RespParser.DigitsEnd | src/YedisParser.cpp:39-46 | The position found is the end of the digit run: only digits before it, none at it |
| RespParser.ParseStr | src/YedisParser.cpp:127-152 | An Ok answer adds exactly one parameter and clears the pending length; any other answer adds none and never moves the position back |
| RespParser.ParseStrlist | src/YedisParser.cpp:103-125 | Wait is answered only while parameters are missing; the state stays usable unless the answer is Error |
| RespParser.ParseRequest | src/YedisParser.cpp:70-101 | The position never moves back, and after Ok and Wait the saved state is one the parser can be called in again |
| ProtoParse.YProtoParse.constructor | src/YedisParser.h:44-48 | A fresh parser is in the initial state |
| ProtoParse.YProtoParse.Reset | src/YedisParser.cpp:7-17 | After a reset the visible state is the initial one, whatever stale strings (at most three) stay allocated, so no stale string can reach a later answer |
| ProtoParse.YProtoParse.GetIntUntilCRLF | src/YedisParser.cpp:19-68 | The digit loop answers Ok, Wait or Error, the value in 32 bits and the position exactly as the specification's scan does, with the position two past the end when the digits run out; without Ok the position stays |
| ProtoParse.YProtoParse.ParseMulti | src/YedisParser.cpp:88-101 | The count line; on Wait and Error behind the star the position stays behind it |
| ProtoParse.YProtoParse.ParseStrlen | src/YedisParser.cpp:174-192 | The length line; without Ok the position is put back in front of the dollar sign |
| ProtoParse.YProtoParse.ParseStrval | src/YedisParser.cpp:154-172 | The body, behind the guard as the source computes it in int: Wait, or Overrun when the guard lets the parser read behind the buffer, Error when CR LF is not where the length says, otherwise the body in its slot |
| ProtoParse.YProtoParse.ParseStr | src/YedisParser.cpp:127-152 | Length and body into the next slot, or resumption of a body whose length is known |
| ProtoParse.YProtoParse.ParseStrlist | src/YedisParser.cpp:103-125 | The loop fills slot after slot over stale strings and on Ok leaves the vector with the parameters alone |
| ProtoParse.YProtoParse.ParseRequest | src/YedisParser.cpp:70-86 | The object does from every saved state and position what the abstract parser does; on Ok its vector is exactly the parameters |
| RespExtension.ExtensionStability | src/YedisParser.cpp:70-192 | An answer given within the buffer, Ok or Error, stays the same when bytes are added behind it; a Wait that lost no star resumes to the one-shot answer |
| RespEnds.GuardExactIff | src/YedisParser.cpp:158 | The guard tells whether body and CR LF are there if and only if the distance to the end and the length plus two both fit an int, or both do not |
| RespEnds.StrvalReadsInsideIff | src/YedisParser.cpp:158-163 | A body whose length is at most INT_MAX - 2 is read within the buffer when the distance to its end fits an int, and when the distance is below INT_MAX only such a body is |
| RespEnds.OverrunsIff | src/YedisParser.cpp:70-172 | With a distance to the end below INT_MAX, a call reads behind the buffer if and only if the unread text, after fewer parts than announced, announces a length above INT_MAX - 2, or an earlier call had read one |
| RespRequests.OverrunExample | src/YedisParser.cpp:158-163 | Seventeen concrete bytes for which it does |
| RespEnds.RunsOutIff | src/YedisParser.cpp:39-67 | The returned position passes the end if and only if the unread text runs out in digits: a header, or fewer parts than announced (after a pending body and the header, if any) and then a dollar, with at least three bytes of sign and digits up to the end |
| RespEnds.RefusedIff | src/YedisParser.cpp:19-192 | From every saved state, a call answers Error if and only if the unread text is refused: where a count is due, or a string behind fewer good ones than announced, stand three bytes or more with another tag, no line of sign and digits behind it, or a number below -1; or the two bytes behind a body, also one left pending, are there and not CR LF |
| RespResume.RequestRunOut | src/YedisParser.cpp:39-67 | Every answer whose position passes the end of the buffer is spoiled by the next byte: by CR to Wait, by another non-digit to Error |
| RespEnds.RunsOutInDigits | src/YedisParser.cpp:39-67 | Such a text ends in two digits |
| RespResume.AnswerFinalIff | src/YedisParser.cpp:19-125 | Ok or Error is final for every continuation if and only if the text did not run out in the digits of a number |
| RespResume.AnswerNotFinalExample | src/YedisParser.cpp:39-67 | A concrete answer that is not final: `*000` is answered Ok, `*0001` Wait |
| RespResume.ResumeTransparentIff | src/YedisParser.cpp:70-125 | Chunk independence, exactly: resuming after Wait equals one call on everything, for all continuations, if and only if the text neither runs out in digits nor is cut behind the star of a header that can still become one |
| RespResume.StarCutIff | src/YedisParser.cpp:88-125 | The cut behind the star, said about the bytes, is the case where the star is lost and a later byte can show it |
| RespResume.HarmfulCutExamples | src/YedisParser.cpp:39-101 | The two ways it fails, on concrete well-formed input: a header cut behind its CR ends in Error, a length 1000 cut behind 100 is read as 100 |
| RespResume.FeedIsOneShot | src/YedisParser.cpp:70-125 | Any number of growing buffers, resumed from the saved fields and position, give the outcome of one call when the text up to each cut is no harmful cut and announces no length too large |
| RespResume.CleanWhenNotCutBehindDigits | src/YedisParser.cpp:70-125 | A rule on bytes for senders: the count line in one piece, no cut right behind a digit, no length too large |
| RespGrammar.AcceptsExactlyMessages | src/YedisParser.cpp:19-192 | In a buffer whose distances fit an int, the parser takes n bytes with these parameters if and only if those bytes are a message of an independently defined language with these bodies (signs, empty numerals, wrapped numbers and length -1 included), given four bytes in the buffer |
| RespGrammar.Complete | src/YedisParser.cpp:19-192 | Every text of that language, wherever it stands and whatever follows, is accepted with its bodies |
| RespGrammar.Sound | src/YedisParser.cpp:19-192 | Whatever is accepted within a buffer, of any size, is a text of that language |
| RespRefusals.ErrorIsHopeless | src/YedisParser.cpp:19-192 | A text answered Error, unless it runs out in digits, neither begins with a message nor is the beginning of one |
| RespRefusals.WaitIsHopeful | src/YedisParser.cpp:19-192 | Where the parser waits, the text but for at most three bytes at its end begins some message, unless it ran out in digits |
| RespRefusals.HopelessIsRefused | src/YedisParser.cpp:19-192 | A text that neither begins with a message nor is the beginning of one is answered Error as soon as any three more bytes are there, unless these make it run out in digits or announce a length too large |
| RespText.AccumulateValue | src/YedisParser.cpp:38-45 | The digit loop computes the number its digits denote, modulo 2^32 as a two's complement int |
| RespRequests.HeaderReadsBack | src/YedisParser.cpp:38-67 | A printed decimal line reads back as the number wrapped to 32 bits |
| RespRequests.HeaderReadsBackIff | src/YedisParser.cpp:43-44 | It reads back as itself if and only if the number fits an int |
| RespRequests.HeaderWrapsExample | src/YedisParser.cpp:43-44 | The count 4294967299 is read as 3 |
| RespRequests.RoundTrip | src/YedisFormate.cpp:44-83 | An encoded request at any place of a buffer whose distances fit an int parses from the initial state to exactly its strings, with the position right behind it |
| RespRequests.EncodingPrefixFree | src/YedisFormate.cpp:44-83 | No encoded request, of any size, is a proper prefix of another one, or of it with other strings |
| RespRequests.ProperPrefixIff | src/YedisParser.cpp:70-192 | A proper prefix of an encoded request makes the parser wait if and only if it does not show the whole length of a string above INT_MAX - 2 bytes; otherwise the parser reads behind the buffer |
| RespRequests.ProperPrefixWaits | src/YedisParser.cpp:70-192 | With strings of at most INT_MAX - 2 bytes every proper prefix waits, also one that cuts a number |
| RespRequests.PipelineRoundTrip | src/YedisParser.cpp:7-125 | A concatenation of encoded requests, parsed and reset in turn, gives back those requests in order and touches nothing behind them |
| ByteStrings.DecValueOfDecNat | src/YedisFormate.cpp:55 | A printed decimal denotes the number printed |
| ByteStrings.DecNatOfDecValue | src/YString.cpp:52 | Digits without a leading zero are the decimal that printing their value gives |
| EndToEnd.FormatThenParse | src/YedisFormate.cpp:44-83 | A request formatted into a reply buffer, with any bytes behind it, is read by a parser object from the buffer's bytes as exactly its strings |
| EndToEnd.FeedParser | src/YedisParser.cpp:70-125 | The parser object, fed with a growing buffer, ends with the answer, state and position of one call on the whole input when the cuts are harmless |
| EndToEnd.ParsePipeline | src/YedisParser.cpp:7-86 | One parser object, reset after each request, returns the requests of a pipeline in order |
| EndToEnd.IntReplyReadsBack | src/YedisFormate.cpp:8-17 | The bytes of an integer reply read back as its number in 32 bits |
| EndToEnd.RangeReplyReadsBack | src/YList.cpp:268-304 | The bytes LRANGE replies parse to exactly the items of the Redis slice |
| EndToEnd.MembersReplyReadsBack | src/YSet.cpp:96-112 | The bytes SMEMBERS replies parse to the members of the set, each once |
| ReplyBuffers.ReplyBuffer.constructor | base/ReplyBuffer.h:8-10 | A fresh buffer holds nothing |
| ReplyBuffers.ReplyBuffer.ReadAll | src/TaskManager.cpp:63 | The bytes handed to the connection are the whole queue |
| ReplyBuffers.ReplyBuffer.PushData | base/ReplyBuffer.cpp:14-20 | Appends all bytes, or none when the buffer is at its maximum; the queue before them is unchanged; growth follows the growth functions and keeps the amortised bound |
| ReplyBuffers.ReplyBuffer.PushDataAt | base/ReplyBuffer.cpp:22-38 | Writes behind the queue without changing it |
| ReplyBuffers.ReplyBuffer.AdjustWritePtr | base/ReplyBuffer.h:15 | Makes the bytes behind the queue part of it |
| ReplyBuffers.ReplyBuffer.PeekData | base/ReplyBuffer.cpp:40-46 | Takes a prefix off the queue: old content equals bytes taken followed by new content |
| ReplyBuffers.ReplyBuffer.PeekDataAt | base/ReplyBuffer.cpp:48-62 | Reads at an offset as much as there is |
| ReplyBuffers.ReplyBuffer.AssureSpace | base/ReplyBuffer.cpp:65-92 | Growing and compacting keep the queue, terminate, and leave room whenever content and request stay within the maximum; the copying done is what the growth functions say |
| ReplyBuffers.ReplyBuffer.Shrink | base/ReplyBuffer.cpp:94-119 | Gives memory back without touching the queue, unless not tight and half in use |
| ReplyBuffers.ReplyBuffer.Clear | base/ReplyBuffer.cpp:121-124 | Empties the queue |
| ReplyBuffers.ReplyBuffer.Swap | base/ReplyBuffer.cpp:127-132 | The two queues change places, also for a buffer swapped with itself |
| ReplyBuffers.GrownSize | base/ReplyBuffer.cpp:65-82 | Growth never shrinks, and reaches every need up to the maximum |
| ReplyBuffers.AmortisedGrowth | base/ReplyBuffer.cpp:65-82 | Over any block lengths, twice the final size of the growth functions is at most max(128, three times the sum), and their copying at most 3 x (final size - 64) |
| ReplyBuffers.PushBlocks | base/ReplyBuffer.cpp:14-92 | Blocks pushed one by one into a new buffer object: its content is their concatenation, its size and the bytes copied are those of the growth functions, so both bounds hold of the object |
| RespFormat.FormatInt | src/YedisFormate.cpp:7-22 | Appends the integer reply, which fits the 32-byte scratch array, and returns its length |
| RespFormat.FormatSingle | src/YedisFormate.cpp:24-36 | Appends a simple string and returns its length |
| RespFormat.PreFormatMultiBulk | src/YedisFormate.cpp:44-59 | Appends the array header and returns its length |
| RespFormat.FormatBulk | src/YedisFormate.cpp:61-83 | Appends the bulk string, also an empty one, and returns its length |
| RespFormat.FormatEmptyBulk | src/YedisFormate.cpp:91-94 | The constant is the bulk string of no bytes |
| RespFormat.FormatNull | src/YedisFormate.cpp:97-107 | Appends the null bulk |
| RespFormat.FormatNullArray | src/YedisFormate.cpp:110-120 | Appends the null array |
| RespFormat.FormatOK | src/YedisFormate.cpp:123-133 | Appends the simple string OK |
| RespFormat.Format1 | src/YedisFormate.cpp:136-148 | The constant is the integer reply of 1 |
| RespFormat.Format0 | src/YedisFormate.cpp:151-163 | The constant is the integer reply of 0 |
| YStrings.StrtolOfCanonical | src/YString.cpp:7-22 | strtol in base 0 reads a canonical decimal to its end, with its decimal value |
| YStrings.StringToLongOfDec | src/YString.cpp:7-55 | Printing a long and reading it back gives it back, for every long |
| YStrings.SetGetSameIff | src/YString.cpp:7-55 | SET then GET returns the same bytes if and only if the string is not taken for an integer or is a canonical decimal |
| YStrings.IntegerTextsIff | src/YString.cpp:7-22 | A string is stored as the integer n if and only if it has one to twenty bytes, white space, at most one sign, perhaps the mark 0x, and then only digits of base 16 behind a mark, 8 behind a leading zero, 10 otherwise, denoting n within a long |
| YStrings.NormaliseIdempotent | src/YString.cpp:7-55 | What GET returned, set again, changes nothing, and keeps the integer |
| YStrings.ChangedExamples | src/YString.cpp:7-55 | Concrete strings that come back changed: leading space, plus sign, octal, hexadecimal |
| KeyspaceRuns.AdjustedSliceIsRedisRange | src/YList.h:42-55 | For every list and all signed bounds the adjusted indexes stay within the list and delimit exactly the items whose position, counted from the tail when negative, lies between the bounds |
| KeyspaceRuns.NoEmptyKeptIff | src/YList.cpp:48-59 | A command leaves no empty list or set behind if and only if it is not a creating push or SADD without values on a new key |
| KeyspaceRuns.AbortExample | src/YList.cpp:137 | LPUSH without values, then LPOP: the assertion in pop fails |
| KeyspaceRuns.RunsNeverEmptyNorAbort | src/YList.cpp:126-156 | Over every run of commands that carry values no list or set is ever empty and the assertion in pop never fails |
| KeyspaceRuns.OtherKeysUntouched | src/YedisStore.cpp:133-139 | No command touches another key than its own |
| KeyspaceRuns.WrongTypeUnchanged | src/YedisStore.cpp:108-130 | A command on a key of the wrong type answers the type error and leaves the whole store alone; only SET changes a key's type |
| CommandLaws.PushedThenPoppedAtHead | src/YList.cpp:19-156 | The replies of one LPUSH of n values and n LPOPs are the new length and the values as bulk strings, last one first, and the store is what it was |
| CommandLaws.PushedAtHeadPoppedAtTail | src/YList.cpp:19-156 | The replies of one LPUSH of n values to a new key and n RPOPs are n and the values as bulk strings in argument order, and the key is gone |
| CommandLaws.PopsAtHead | src/YList.cpp:90-156 | The replies of any number of LPOPs are the first items as bulk strings in order; the others stay, and an emptied list loses its key |
| CommandLaws.PopsAtTail | src/YList.cpp:90-156 | The replies of any number of RPOPs are the last items as bulk strings, last one first; the others stay, and an emptied list loses its key |
| CommandLaws.PushThenRangeAndLength | src/YList.cpp:19-304 | After a push, LRANGE 0 -1 sends the old items with the new ones in front reversed or behind in order, and the push and LLEN reply how many these are |
| CommandLaws.RangeReplies | src/YList.cpp:268-304 | LRANGE sends the items between its bounds, both included, counted from the head or the tail; bounds outside are cut to the list, and crossed ones send an empty array |
| CommandLaws.SetThenGet | src/YString.cpp:25-98 | SET and then GET reply OK and the text, or the decimal of the integer it is taken for, whatever the key held; no other key changes |
| CommandLaws.LastSetWins | src/YString.cpp:25-98 | After two SETs GET replies what the second set |
| CommandLaws.SetNxThenGet | src/YString.cpp:25-117 | SETNX and then GET reply 1 and the new text when the key was missing, 0 and the old one when it was there, with the store unchanged |
| CommandLaws.SAddThenCardAndMembers | src/YSet.cpp:59-112 | SADD replies by how much the set grew, SCARD how many strings SMEMBERS sends, and these are the old members and the values, each once; on a new key both numbers are that of the distinct values |
| CommandLaws.SPopTakesOne | src/YSet.cpp:115-146 | SPOP replies a member as a bulk string; the set then lacks exactly this one, and the last one takes the key with it |
| CommandLaws.MissingKeyReplies | src/YList.cpp:45-304 | What GET, the pushes that do not create, the pops, LLEN and LRANGE reply and answer when the key is missing, with the store unchanged |
| CommandLaws.MissingSetReplies | src/YSet.cpp:17-146 | SCARD, SMEMBERS and SPOP of a missing key reply the null bulk followed by the type error without line end |
| CommandLaws.WrongTypeReplies | src/YSet.cpp:17-146 | Of a key of another type every command leaves the store alone and answers the type error; the set commands send its text twice without line end, GET and the pushes `no such key`, LLEN `Unknown command`, the pops and LRANGE nothing |
| CommandLaws.OddReplies | src/YList.cpp:268-304 | LRANGE with a bound that is no integer sends nothing and answers ok, and an unknown command is told so |
| CommandLaws.AnswersOkIff | src/YedisStore.cpp:98-131 | A command answers ok if and only if it always does, or its key holds the type it works on (for SPOP with a member), or its key is missing and it creates one |
| KeyspaceRuns.RunConserves | src/YList.cpp:19-156 | Over any run in which SET does not overwrite the key, the values held and those of pushes that replied an integer equal, with multiplicity, the bulk strings that pops replied and the values held at the end |
| KeyspaceRuns.RunAppend | src/YedisCommand.cpp:35-48 | A run extended by a command ends in that command's effect on the store the run left |
| YLists.Push | src/YList.cpp:19-68 | The list object gets the values one by one at its end, created only when asked to; the reply is the new length; errors leave the store as it was |
| YLists.PushAll | src/YList.cpp:48-59 | The push loop through the list's pointer: LPUSH leaves the values reversed in front, RPUSH in order behind |
| YLists.Pop | src/YList.cpp:126-156 | Takes one end off the list, and the key when it was the last item |
| YLists.PopCommand | src/YList.cpp:90-123 | Replies the value popped, and nothing at all on an error |
| YLists.LLenCommand | src/YList.cpp:158-182 | The length, 0 for a missing key, and an unknown-command text for a wrong type |
| YLists.AdjustIndexes | src/YList.h:42-55 | The sequence of updates through references computes the adjusted bounds |
| YLists.Walk | src/YList.cpp:195-218 | The walk from the nearer end arrives at the index after at most half the list's length of iterator moves |
| YLists.Index2Iterator | src/YList.cpp:185-220 | Each iterator asked for is set to its index by such a walk, the other is left alone |
| YLists.GetRange | src/YList.cpp:222-246 | Range length, first and last iterator denote exactly the items between the bounds, and the list's end when the bounds cross |
| YLists.LRangeCommand | src/YList.cpp:268-304 | Replies the Redis slice as an array of bulk strings; a missing key or a bound that is no integer gets no reply |
| YSets.GetSet | src/YSet.cpp:21-39 | The set object, or null with the first half of the error reply |
| YSets.CreateOrGetSet | src/YSet.cpp:41-57 | The set object, created empty for a new key; null for another type |
| YSets.SAddCommand | src/YSet.cpp:59-79 | Adds the values; the reply is the growth of the set, also with repeated values |
| YSets.InsertAll | src/YSet.cpp:67-75 | The counter of successful insertions is the growth in size |
| YSets.SCardCommand | src/YSet.cpp:81-94 | The size of the set, or the doubled error reply |
| YSets.SMembersCommand | src/YSet.cpp:96-112 | An array of all members, each once, in an order the hash table chooses |
| YSets.SPopCommand | src/YSet.cpp:115-146 | Replies an arbitrary member and removes it, with the key when it was the last |
| YSets.NextMember | src/YSet.cpp:105-110 | Whatever order the rest takes, the next member fits a reply that any order fits |
| YStringCommands.SetStringValue | src/YString.cpp:25-39 | Stores the string as integer or text; an exclusive set leaves an existing key alone |
| YStringCommands.SetCommand | src/YString.cpp:57-64 | SET overwrites any value and replies OK |
| YStringCommands.SetNxCommand | src/YString.cpp:100-117 | SETNX replies 1 when it set the key and 0 when it left it alone |
| YStringCommands.GetDecodeString | src/YString.cpp:41-55 | The text of a raw or integer-encoded string |
| YStringCommands.GetCommand | src/YString.cpp:66-98 | The bulk of the text, the null bulk for a missing key, an error line for another type |
| YCommands.ExecCommand | src/YedisCommand.cpp:35-48 | The store object with its owned payloads refines the abstract keyspace for every command: same store, result and reply bytes, other databases untouched |
| YCommands.Consume | src/TaskManager.cpp:57-64 | One round of the consumer with a reply buffer of its own: the store object and the bytes sent are those of the command's meaning |
| YCommands.ConsumeAll | src/TaskManager.cpp:47-86 | The consumer's loop on the store object, for any commands that carry values: it never stops at the assertion in pop, no list or set is ever left empty, and the final store and all replies are those of the abstract run |
| YObjects.Heap.Delete | src/YedisCommon.cpp:147-174 | Only an address in use can be freed, which moves it for good from the used to the freed ones; every caller is proved not to free twice |
| YObjects.YObject.constructor | src/YedisCommon.cpp:9-36 | A new object has the encoding of its type and no payload |
| YObjects.YObject.FreeValue | src/YedisCommon.cpp:147-174 | Frees exactly the payload owned, by its kind |
| YObjects.YObject.Reset | src/YedisCommon.cpp:111-115 | Frees the old payload and takes the new word |
| YObjects.YObject.Clear | src/YedisCommon.cpp:43-51 | Gives the payload back; the ownership of all others stays |
| YObjects.YObject.Destroy | src/YedisCommon.cpp:38-41 | The destructor frees the payload; the others are owned as before |
| YObjects.YObject.MoveFrom | src/YedisCommon.cpp:132-145 | The target takes over payload, type and encoding, its old payload is freed once, the source becomes invalid; a self-move frees the object's payload |
| YObjects.YObject.CreateString | src/YedisCommon.cpp:53-70 | A string object holding its integer or its text |
| YObjects.YObject.CreateList | src/YedisCommon.cpp:72-78 | A new owned empty list, every payload in use untouched |
| YObjects.YObject.CreateSet | src/YedisCommon.cpp:80-85 | A new owned empty set, every payload in use untouched |
| YObjects.YObject.CreateHash | src/YedisCommon.cpp:87-92 | A new owned empty hash, every payload in use untouched |
| YObjects.YObject.CreateSSet | src/YedisCommon.cpp:94-99 | A new owned empty sorted set, every payload in use untouched |
| YObjects.OneOwnerOrFreed | src/YedisCommon.cpp:132-174 | While ownership holds, every address ever handed out is either freed or held by exactly one live object of the right kind |
| YObjects.MoveInto | src/YedisStore.cpp:133-139 | Assigning over an existing or new entry gives it the temporary's value, keeps all other values and leaks nothing |
| YObjects.DestroyOne | src/YedisStore.cpp:63-68 | Erasing an entry frees its payload and keeps all other values |
| YObjects.WriteThrough | src/YList.cpp:48-59 | Updating a payload in place through its pointer changes that object's value only |
| YStores.YStore.Init | src/YedisStore.cpp:16-27 | The number of databases is clamped; on every call the databases within it keep their contents, missing ones are empty, those beyond it are destroyed with their payloads, and the store stays usable if and only if the database in use is still there |
| YStores.YStore.constructor | src/YedisStore.cpp:10-14 | A store without databases, keys and payloads |
| YStores.YStore.SelectDB | src/YedisStore.cpp:30-45 | Switches only to an existing database, returns the old number or -1, and changes no content |
| YStores.YStore.GetObject | src/YedisStore.cpp:52-61 | The entry of the current database, or null |
| YStores.YStore.ExistsKey | src/YedisStore.cpp:70-74 | Whether the current database has the key |
| YStores.YStore.GetKeyType | src/YedisStore.cpp:76-84 | The type of the value under the key, invalid for a missing one |
| YStores.YStore.GetValueByType | src/YedisStore.cpp:108-130 | The error the abstract lookup gives, and on success the entry whose cast is then right |
| YStores.YStore.SetValue | src/YedisStore.cpp:133-139 | The current database gets the value under the key, the old payload is freed, no other entry or database changes |
| YStores.YStore.DeleteKey | src/YedisStore.cpp:63-68 | Removes the key and frees its payload; false when there is none |
| YStores.YStore.Holding | src/YedisStore.cpp:108-130 | What a key's object holds is what the abstract store has under the key, so that the cast after a successful lookup by type is right |
| YSortedSets.BucketsPartition | src/YSortedSet.cpp:57-63 | While the two indexes agree, the bucket sizes add up to the number of members |
| YSortedSets.FirstScoreWins | src/YSortedSet.cpp:65-91 | A member keeps the score it had, a new one gets the score of its first pair, no other member appears |
| YSortedSets.FirstScoreOfCommand | src/YSortedSet.cpp:74-87 | A member that ZADD names and the set lacked gets the score written before its first mention |
| YSortedSets.OnlyNamedMembers | src/YSortedSet.cpp:74-87 | Only members the command names are added |
| YSortedSets.AddedInTurn | src/YSortedSet.cpp:65-91 | Two ZADDs in a row equal one with the pairs of both, so the first score wins over whole runs |
| YSortedSets.YSortedSet.FindMember | src/YSortedSet.cpp:52-55 | Whether the member has a score |
| YSortedSets.YSortedSet.AddMember | src/YSortedSet.cpp:57-63 | Both indexes get the member and still agree: a member has a score exactly when it lies in that score's bucket, no bucket is empty |
| YSortedSets.YSortedSet.ZAdd | src/YSortedSet.cpp:65-91 | An odd number of words is a syntax error that changes nothing; otherwise the indexes agree, the pairs are added and the reply is the growth, also when a member occurs twice |
| YSortedSets.YSortedSet.AddPairs | src/YSortedSet.cpp:74-87 | The counter of the loop is the growth in size |
| TaskManagers.StepCoordinated | src/TaskManager.cpp:35-86 | Every step keeps the mutexes with their holders, the queue within 30 and every sleeper's reason to sleep |
| TaskManagers.SerialExecution | src/TaskManager.cpp:35-86 | For any number of threads, any submissions and every interleaving, pushes equal executed commands and then the queue; store and replies are those of running that log one by one; each thread's commands stand in it in its order |
| TaskManagers.RepliesInSubmissionOrder | src/TaskManager.cpp:57-66 | A connection served by one thread gets one reply per executed command, in submission order, each the serial execution's reply |
| TaskManagers.NoLostWakeUp | src/TaskManager.cpp:18-70 | In every reachable state the queue holds at most 30 commands; with the queue mutex free a sleeping consumer means an empty queue and a sleeping producer one of 30; at most one producer sleeps |
| TaskManagers.NotStuck | src/TaskManager.cpp:35-86 | No deadlock: while anything is pending some thread can do real work, although a waiting producer keeps the other mutex, unless the assertion in pop is about to fail |
| TaskManagers.WorkDecreases | src/TaskManager.cpp:35-86 | Every step of real work lowers a measure |
| TaskManagers.EveryRunDrains | src/TaskManager.cpp:35-86 | Without new submissions and spurious wake-ups every run is finite, and one that cannot go on has executed everything in push order, unless the assertion in pop is about to fail |
| TaskManagers.NeverCrashes | src/TaskManager.cpp:35-86 | When every submission carries the values its command needs, no interleaving reaches that assertion |
| TaskManagers.CrashExample | src/TaskManager.cpp:57-66 | Two concrete submissions that do reach it |
| Servers.Rerun | src/TaskManager.cpp:35-86 | A run can be taken again with other choices of the hash tables: threads and queue behave the same, store and replies are those of the other choices |
| Servers.ServeInterleaving | src/TaskManager.cpp:47-86 | For every interleaving, a store object that consumes the commands it executes ends with the store, and sends the replies, of that interleaving under the choices its own hash tables make |
| Pollers.UpdateKeepsPlacedIff | net/EpollPoller.cpp:68-124 | The update keeps new channels out of map and kernel set, added ones in both and deleted ones in the map alone if and only if the kernel does not refuse a registration |
| Pollers.RemoveKeepsPlacedIff | net/EpollPoller.cpp:126-147 | Removal keeps that if and only if it does not meet an added channel with an empty mask |
| Pollers.ChangeKeepsWaitingIff | net/EpollPoller.cpp:68-124 | A mask change followed by the update keeps it, with a non-empty mask for every added channel, if and only if a registration has a mask and consent and a deregistration has consent |
| Pollers.ChangeKeepsSyncIff | net/EpollPoller.cpp:155-168 | Kernel and channel masks stay equal if and only if the kernel consents or has nothing to do |
| Pollers.AllDelivered | net/EpollPoller.cpp:52-66 | While indexes are right the early return drops no report |
| Pollers.PollKeepsSyncIff | net/EpollPoller.cpp:52-66 | Delivering reports leaves kernel and channel masks equal if and only if every channel is reported with its whole mask, because delivery overwrites the interest mask |
| Pollers.PollOverwritesExample | net/EpollPoller.cpp:63 | A channel that waits for two kinds of events and is reported with one: its mask forgets the other, the kernel does not |
| Pollers.RunStaysPlaced | net/EpollPoller.cpp:68-147 | Over every run of safe mask changes, removals and polls from an empty poller all indexes are right at every moment |
| Pollers.LeakExample | net/EpollPoller.cpp:68-147 | A channel registered without a mask and removed stays in the kernel, and the next channel with its descriptor is refused and yet marked as added |
| Pollers.ChangeTakesEffect | net/EpollPoller.cpp:68-124 | A mask change the kernel accepts: a channel whose descriptor is free or its own then waits for the new events in the kernel, except that an added one left with none leaves the kernel and stays mapped; a channel whose descriptor another holds is refused; all other channels stay as they were |
| Pollers.RefusedChange | net/EpollPoller.cpp:68-124 | A change the kernel refuses leaves the kernel set as it was and, unless it was a registration, everything but the mask |
| Pollers.RemoveForgets | net/EpollPoller.cpp:126-147 | From a waiting registry a mapped channel with an empty mask, added or deleted, is after removal not mapped, its index is kNew, its descriptor is free in map and kernel, and every other channel is untouched |
| Pollers.DescriptorReused | net/EpollPoller.cpp:68-147 | After that any channel with this descriptor registers successfully, is mapped and added, and waits in the kernel for its events |
| Pollers.RemoveSpares | net/EpollPoller.cpp:126-140 | Removal does nothing to a channel that still waits for something or is not mapped |
| Pollers.StopsAtFirstStale | net/EpollPoller.cpp:52-66 | Delivery stops at the first report of a channel that is not mapped, and nowhere before |
| Pollers.EPollPoller.UpdateChannel | net/EpollPoller.cpp:68-124 | The three-state branches change map, kernel set and index as the registry functions say, and report success exactly when the kernel call was made and taken |
| Pollers.EPollPoller.RemoveChannel | net/EpollPoller.cpp:126-147 | Forgets a mapped channel with an empty mask and does nothing otherwise |
| Pollers.EPollPoller.HasChannel | net/EpollPoller.cpp:149-153 | Whether this very channel is mapped under its descriptor |
| Pollers.EPollPoller.FillActiveChannels | net/EpollPoller.cpp:52-66 | Delivers, in order, the reports before the first stale one, writing each over its channel's mask |
| HexDumps.CellsLength | base/AsyncLog.cpp:309-344 | A chunk takes two bytes a byte, one more each sixteen, at most twelve more each row |
| HexDumps.PaddedReadsBack | base/AsyncLog.cpp:301-307 | The digits of a row number denote it, and there are six of them or as many as it needs |
| HexDumps.TitleExample | base/AsyncLog.cpp:274 | The title gives the address and then the size |
| HexDumps.FormLog | base/AsyncLog.cpp:309-344 | A chunk of up to 512 bytes is written whole and terminated within the 1544-byte buffer, the running length equals the string length at every strcat, the guard never cuts it, and the row number advances by its rows modulo 2^32 |
| HexDumps.Strcat | base/AsyncLog.cpp:331 | Appends at the string's end within the buffer |
| HexDumps.ReadChunks | base/AsyncLog.cpp:264-344 | A reader of any number of chunks gets the bytes back, in rows of 32 that no chunk boundary breaks, numbered on from the first in 32 bits, each in groups of sixteen |
| HexDumps.DumpReadsBack | base/AsyncLog.cpp:264-344 | Reading the whole text, title included, gives the bytes dumped, the row numbers from 0 and the groups of sixteen, for every size |
| HexDumps.OutputBinary | base/AsyncLog.cpp:264-299 | The line logged is the title and all chunks, and reads back as the input in its numbered rows |

## Left out

- Sockets, accepting, event loops, threads as such and the session: `send` is a history of sent bytes, `epoll_ctl` an
  abstract kernel set that may refuse, and the session's ignoring of the parse result is not modelled.
- The choice of a hash table: SMEMBERS visits the members in an arbitrary order and SPOP draws an arbitrary member, where
  the source loops over random buckets.
- HGET and HSET, and ZADD as a command of the keyspace: hashes and sorted sets occur in the store as typed objects whose
  contents are not modelled there; the sorted set is proved as an object of its own.
- Missing arity checks: commands carry the words whose absence would be read out of bounds; LPUSH, RPUSH and SADD without
  values are modelled.
- Undefined behaviour of C++: `push` is taken to return ok at its end, ZADD has a sorted set under its key, data pointers
  are null only for no bytes, and the SADD counter stays within an int.
- Allocation failure, `errno` other than range errors, the capacity assertion and debug output of the buffer, and the
  clock and LRU fields.
- Floating point: scores are values of any type with equality, so NaN is excluded, and `atof` is any function.
- Declared functions of the sorted set without a body (ranks, ranges, removal) and `formatMultiBulk`.
- The command table (src/YedisRegisterCmd.cpp): dispatch is over a datatype of commands.
- The rest of the log: formatting, clocks, file names and rolling.
- RespParser.ParseRequest: what happens after a read behind the buffer. Signed overflow and narrowing casts are read as two's
  complement wrap-around, as the usual compilers do.
- RespRequests.RoundTrip: the distance from the position to the end of the buffer fits an int, here and wherever `Measurable`
  is required, because the source's guard casts it; `GuardExactIff` says what happens beyond.
- RespFormat.FormatBulk: room in the reply buffer is a precondition, here and for all replies, because past the maximum
  size the source's assertion would stop it.
- YSortedSets.YSortedSet.ZAdd: the two maps are modelled by contents, without the order of the scores.
- Pollers.RunStaysPlaced: channels are known from the start of a run, as new ones; `epoll_wait` reports each registered
  channel at most once.
- HexDumps.FormLog: the row number wraps at 2^32 as printed; the source's int overflows after 2^31 rows.
- YLists.Index2Iterator: the doubled index does not overflow a long, which holds for lists below 2^62 items.
