# Verification of the flow-reassembly engine

The program listens on a network device, follows HTTP POST uploads to one port, puts the body of each
upload together again from its packets, and hands the content of the multipart body to a message queue.
This project models the part of it that decides what comes out, in four layers, and proves properties of
each layer and of the whole.

* **Ring queue** (`Ring.dfy`): a class over an array, specified by the sequence it stores. `Spsc.dfy`
  models the same code a second time, load by load and store by store, for one producing and one consuming thread.
* **Node pool** (`Pool.dfy`): a class over the ring that hands out and takes back nodes; a pointer to a
  node is its offset in the array. The ownership argument is in module `Allocation`.
* **Flow engine**: `Sniffer.dfy` is the class with table, age list, pool and buffers, updated in place.
  Its methods are proved against the steps on values in `FlowEngine.dfy`, and the theorems are about those:
  `FlowPolicy.dfy` (what every run keeps, the clear policy), `FlowRefinement.dfy` (the simpler engine without
  nodes and buffers), `FlowDelivery.dfy` and `Upload.dfy` (from the first frame of an upload to its message),
  `FlowOrigin.dfy` (whose bytes a message holds), `Interleave.dfy` (the two threads). `Multipart.dfy` says which bytes of a buffer are sent.
* **Header scanner**: `HttpParse.dfy` has the loop with its cursors, arrays and flag byte, proved against a
  specification on values; `HttpTurns.dfy` says in bytes what it does at each word, `HttpCursor.dfy` which bytes of
  a packet make it fail or set a field, and `HttpPrint.dfy` what becomes of printed requests (RFC 7230, sections 3.1.1, 3.2 and 3.3.2).

`Bytes.dfy` holds the word loads of the scanners, `FlowKey.dfy` the keys of the flow table, `Split.dfy` the
splitting of the device list.

Every limit of the code is in the model: 16-bit counters beside a 512 KiB buffer, 32-bit products and
indices, the 3 bytes each scan reads beyond its end, the `atoi` of a 64-bit C library (saturating, then cut to 32 bits).

## Where a property holds only under a condition

* `Resize` copies the lower half of wrapped data without scaling by the element size. It keeps the contents
  if and only if the data is not wrapped, the tail is 0, or an element is one byte (`ResizeKeepsContents`).
* The scan over a complete body reads 3 bytes behind it, which an earlier flow may have left in the node, and
  takes the last blank line. The content of the last part is delivered if and only if it brings in no further
  blank line, and the body does not end in a line break or those bytes do not begin with a line break or two
  dashes (`SendsLastPart`, `UploadArrives`). What is sent instead is in `SendsBehindBlankLine` (a blank line in the
  content), `SendsNothingAfterBreak` and `SendsTailAfterBreak` (a content that ends in a line break).
* Every slice of a body is scanned as if it were a header. One is dropped if the scan meets, in the uploaded text,
  a `GET ` or `POST` whose target has no slash (`POSTER`) or a `Refe` with no scheme behind it (`Reference`), or if
  it announces an application body (`PassesExactly`, `FirstWordRefuses`). The start of the body that
  comes with the header is scanned too: a refusal in it drops the packet, a length header in it, as of a part,
  replaces the length of the request (`HeaderAccepted`), and it must have no further delimiter (`FirstSliceIsBody`);
  other part headers do no harm (`PartHeaderIsHarmless`). If a slice is dropped, or the start has a further
  delimiter, the upload does not complete (`UploadStalls`). If the length is not that of the body modulo 2^16, the
  frame that completes the body does not end the flow (`UploadEndsExactly`).
* Nothing follows a header over two packets: where the first one is cut inside a line the flow begins with no bytes,
  and the end of the header counts as body (`FirstSliceExactly`, `CutHeaderMisses`).
* Completion is only tested when a slice comes to a flow that is already there. An upload whose whole body comes
  with its header is not sent while no further frame of its flow comes (`OpeningNeverCompletes`, `UploadStalls`).
* A flow that waits, or that never meets its length, stays in the table as long as each clear spares it; a clear
  spares it if and only if it does not act or at least half of the flows and one more are older
  (`ClearLeaves`, `WaitingRun`, `StaysUntilCleared`).
* Expected and received length are kept modulo 2^16, although bodies up to the buffer size are admitted. A
  longer body ends its flow at the first slice that meets its length modulo 2^16 (`CompletesExactly`,
  `BodyArrives`), and no message ever has 2^16 bytes (`EveryMessageIsShort`).
* Joining the pieces of `split` gives the string back for every string if and only if the delimiter has no
  border (`JoinsBackExactly`); for the one-character delimiter in use it does.
* A completing frame keeps the pool consistent if and only if its flow has not been cleared since it was
  looked up, or no flow is left (`ReleaseKeepsExactly`). From every state with two flows the bad order of steps is
  possible (`ClearedWhileFinishing`, `DuplicateIsReachable`).

The documentation calls the clear policy LRU. The code never moves an entry of its list when a flow is used,
so the order is the order of creation (`OldestFirst`); the model follows the code.

## Model

| member | source | states |
|---|---|---|
| Ring.Queue.constructor | src/Queue.hpp:9-21 | A new queue of any positive size is empty. |
| Ring.Queue.EnQueue | src/Queue.hpp:37-50 | Appends at the end and returns true exactly if fewer than `size - 1` elements are stored; otherwise returns false and changes nothing. |
| Ring.Queue.DeQueue | src/Queue.hpp:55-68 | Takes the oldest element and returns it, exactly if there is one. |
| Ring.Queue.GetFront | src/Queue.hpp:115-127 | Returns the oldest element without taking it, exactly if there is one. |
| Ring.Queue.Count | src/Queue.hpp:72-87 | The number of stored elements, across the wrap-around. |
| Ring.Queue.IsEmpty | src/Queue.hpp:98-102 | True exactly if nothing is stored. |
| Ring.Queue.IsFull | src/Queue.hpp:106-110 | True exactly if all slots but one are taken. |
| Ring.Queue.Clear | src/Queue.hpp:162-166 | Nothing is stored afterwards. |
| Ring.Queue.Resize | src/Queue.hpp:130-159 | Refused exactly if the new size is not above the count. Otherwise the count stays, the elements that are copied in full stay in order, and all contents stay if the data did not wrap, the tail is 0 or an element is one byte. |
| Ring.CopyBytes | src/Queue.hpp:145-150 | A copy of so many bytes carries over the elements that lie in it completely, in order, and leaves what was before the target place alone. |
| Ring.ResizeKeepsContents | src/Queue.hpp:142-151 | Byte by byte: whatever the new memory held, the contents survive, if and only if the data did not wrap, the tail is 0 or an element is one byte (the second copy of the wrapped branch is not scaled by the element size). |
| Ring.StoredPush | src/Queue.hpp:42-48 | Writing the slot at the tail and moving the tail appends one element to what is stored; the write alone changes nothing stored. |
| Ring.StoredPop | src/Queue.hpp:63-66 | Moving the head drops the first stored element. |
| Ring.NextSlot | src/Queue.hpp:40-42 | The remainder in 32-bit arithmetic is the step round the ring. |
| Spsc.FifoInEveryInterleaving | src/Queue.hpp:3-4 | One producer and one consumer, any interleaving of their loads and stores: the values of the successful calls to DeQueue followed by the stored values are the values of the successful calls to EnQueue, in order; a call fails exactly if the ring was full (empty) when the other thread's index was read. |
| Spsc.NoSlotShared | src/Queue.hpp:47-47 | No slot is written while the consumer reads it, and the value read is the value that stood there when reading began. |
| Spsc.MovesRefineQueue | src/Queue.hpp:37-68 | Each single load or store is, seen through the contents, nothing, an append (the store of the tail) or the removal of the first element (the store of the head), and the bound holds throughout. |
| Spsc.RunKeeps | src/Queue.hpp:3-4 | The invariant behind this, at every point of every run. |
| Spsc.ProducerKeeps | src/Queue.hpp:42-49 | The producer's moves keep the invariant and only its last store changes the contents. |
| Spsc.ConsumerKeeps | src/Queue.hpp:58-67 | The consumer's moves keep the invariant and only its last store changes the contents. |
| Spsc.EnQueueReturns | src/Queue.hpp:37-50 | From every state, wherever the consumer stands, a call of EnQueue can run to its end: with true and the element appended if there is room, with false and nothing changed if there is none. |
| Spsc.DeQueueReturns | src/Queue.hpp:55-68 | Likewise a call of DeQueue: it hands out the first element if there is one. |
| Pool.FixedContainer.constructor | src/FixedContainer.hpp:6-26 | All nodes are free, in the order of their indices. |
| Pool.FixedContainer.GetNode | src/FixedContainer.hpp:68-78 | Hands out the node that has been free longest, exactly if one is free. |
| Pool.FixedContainer.FreeNode | src/FixedContainer.hpp:80-99 | Refuses a pointer outside the array, and any pointer when every node is free; otherwise the node becomes the last free one. |
| Pool.FixedContainer.UsedNodesCount | src/FixedContainer.hpp:56-60 | Used and free nodes add up to the size. |
| Pool.FixedContainer.IsEmpty | src/FixedContainer.hpp:38-42 | True exactly if no node is used. |
| Pool.FixedContainer.IsFull | src/FixedContainer.hpp:44-48 | True exactly if no node is free. |
| Pool.FixedContainer.Clear | src/FixedContainer.hpp:127-135 | All nodes are free again in the order of their indices, wherever the ring stood. |
| Pool.FixedContainer.Fill | src/FixedContainer.hpp:131-134 | The filling loop lays down all indices in order. |
| Allocation.PoolIsAllocator | src/FixedContainer.hpp:68-99 | For every sequence of GetNode and FreeNode in which only owned nodes are freed: free indices are distinct and in range, free and used nodes make up the pool, no node is live twice, no release fails, and nodes go out in the order in which they were laid down and came back. |
| Allocation.PartitionCount | src/FixedContainer.hpp:56-60 | If free and used nodes split the pool, their numbers add up to its size. |
| Allocation.TakeKeeps | src/FixedContainer.hpp:68-78 | Taking the first free node keeps the split. |
| Allocation.GiveKeeps | src/FixedContainer.hpp:80-99 | A used node can be freed: there is room for it, and the split is kept. |
| Allocation.GiveTwice | src/FixedContainer.hpp:94-97 | Freeing a node nobody owns puts it into the free list twice. |
| FlowKey.KeysInjective | include/flowdef.h:81-86 | Two flows have the same key exactly if source address, source port and destination address agree. |
| FlowKey.NeverTruncated | include/flowdef.h:81-86 | A key has at most 23 characters, so nothing is cut off in its buffer. |
| FlowKey.KeyFields | include/flowdef.h:81-86 | A key is three fields between bars, which read back as the source port in host order in decimal, the source address and the destination address in hexadecimal. |
| Numerals.DigitsRoundTrip | include/flowdef.h:83-85 | A decimal or hexadecimal numeral reads back as its number. |
| Numerals.DigitsLength | include/flowdef.h:82-85 | A number below the k-th power of the base has at most k digits. |
| Split.Split | include/StringUtils.h:55-70 | For a delimiter that is not empty, or an empty text, the loop appends the pieces between successive matches and ends. |
| Split.EmptyNeverEnds | include/StringUtils.h:59-67 | With an empty delimiter and a text that is not empty the loop stands at the first character in every round, so it never ends. |
| Split.JoinsBackExactly | include/StringUtils.h:55-70 | For any delimiter: joining the pieces gives every string back if and only if no proper beginning of the delimiter is also an ending of it. |
| Split.SplitAtCharacter | src/sysconfig.cpp:54-57 | For a one-character delimiter the pieces contain no delimiter, are one more than the delimiters, and joined with it give the string back. |
| Split.JoinsBackIfReached | include/StringUtils.h:58-67 | Joining gives a string back exactly if the last match is the delimiter that was appended to it. |
| Split.BorderLosesText | include/StringUtils.h:58-67 | For a delimiter with a border, a string whose text is lost. |
| Bytes.FieldMatches | src/packet_sniffer.cpp:315-319 | A loaded word, byte-reversed, equals a case label exactly if the four bytes at that place are those of the label. |
| Bytes.LastAt | src/packet_sniffer.cpp:312-335 | A scan that overwrites its result on each match ends with the last match, or 0. |
| Bytes.Wrap16Is | include/flowdef.h:92-93 | What a 16-bit counter stores fits it and differs from the assigned value by a multiple of 2^16. |
| Bytes.SpliceAt | src/packet_sniffer.cpp:205-205 | A copied byte stands at its place, every other byte is what it was. |
| HttpParse.ParseHttp | src/http_parse.cpp:14-318 | With six NUL bytes behind the data every read lies in the buffer and every write in its field array, the loops end, the recorded lengths stay below the array sizes, and result and fields are those of the specification `Parse`. |
| HttpParse.OnWord | src/http_parse.cpp:29-314 | The switch on the word at the cursor does what `TurnAt` says. |
| HttpParse.CopyField | src/http_parse.cpp:125-129 | The copying loops write what stands before the first stop byte, at most one less than the array holds. |
| HttpParse.CopyText | src/http_parse.cpp:226-237 | Copying a field and terminating it; an empty field leaves the array alone. |
| HttpParse.PastSpaces | src/http_parse.cpp:223-224 | The first byte at or behind the cursor that is no space; everything before it is a space. |
| HttpParse.CopyEnd | src/http_parse.cpp:125-129 | Copying ends at the first stop byte or when the room is used up; no stop byte is copied. |
| HttpParse.ParseFrom | src/http_parse.cpp:27-318 | The cursor strictly advances, so the loop ends, and the recorded lengths stay below 256, 60 and 60. |
| HttpParse.SkipSpaces | src/http_parse.cpp:223-224 | The cursor goes to the first byte that is no space and stays in the buffer. |
| HttpParse.OnTarget | src/http_parse.cpp:107-135 | In place as `TargetTurn` on values: a target that is absolute or has no slash is rejected and nothing changes, else it is copied without its slash. |
| HttpParse.OnGet | src/http_parse.cpp:33-97 | In place as `GetTurn` on values: the path is recorded, the first flag bit set, and a query moves the cursor on by one. |
| HttpParse.OnPost | src/http_parse.cpp:98-138 | In place as `PostTurn` on values: the path is recorded. |
| HttpParse.OnContent | src/http_parse.cpp:139-162 | In place as `ContentTurn` on values: Content-Type and Content-Length are told apart; anything else only moves the cursor. |
| HttpParse.OnValue | src/http_parse.cpp:164-212 | In place as `TypeTurn` or `LengthTurn` on values: the first type is recorded with its class, every length is recorded. |
| HttpParse.ClassifyType | src/http_parse.cpp:182-204 | Comparing the first word of the zero-padded buffer gives the class of the value, also for values shorter than a word. |
| HttpParse.OnHost | src/http_parse.cpp:213-241 | In place as `HostTurn` on values: the host is recorded. |
| HttpParse.OnRefer | src/http_parse.cpp:242-283 | In place as `ReferTurn` on values: the site is recorded, or the packet rejected and nothing changed. |
| HttpParse.OnAgent | src/http_parse.cpp:284-309 | In place as `AgentTurn` on values: the cursor moves and the array of this field is filled. |
| HttpTurns.NothingRecorded | src/packet_sniffer.cpp:76-76 | The scan of a packet begins with zero bytes in all arrays and no length and no type recorded. |
| HttpTurns.GetTurnExactly | src/http_parse.cpp:33-97 | `GET ` with room behind it and a slash: the path up to CR, NUL, space or 255 bytes replaces the path array and is ended by a zero byte, its length is recorded unless it is empty, the first flag bit is set, and the cursor goes to the stop byte, one further if the array then holds a question mark. |
| HttpTurns.PostTurnExactly | src/http_parse.cpp:98-138 | `POST`, a byte and a slash: the same for the path; no flag, and the cursor goes to the stop byte. |
| HttpTurns.TargetRefused | src/http_parse.cpp:52-55 | Any other target leaves the scanner with false. |
| HttpTurns.ValueRead | src/http_parse.cpp:164-178 | Behind the colon of a Content header: after any number of spaces, none included, the word up to CR, NUL or space is read, cut at 255 bytes, and the cursor goes to the place behind it. |
| HttpTurns.TypeIs | src/http_parse.cpp:182-204 | The class is 1 if and only if the value begins with the bytes of `mult`, 2 if and only if with those of `appl`, else 0. |
| HttpTurns.TypeTurnExactly | src/http_parse.cpp:145-205 | A Content header with its colon at the thirteenth byte: its class is recorded and both low flag bits set, unless both are set already. |
| HttpTurns.LengthTurnExactly | src/http_parse.cpp:151-209 | A Content header with `th:` from the thirteenth byte on: the length is what `atoi` reads from its word. |
| HttpTurns.OtherContentExactly | src/http_parse.cpp:159-162 | Of any other Content header twelve bytes are jumped over. |
| HttpTurns.HostTurnExactly | src/http_parse.cpp:213-241 | The host behind the spaces, up to CR, NUL or 59 bytes, replaces the host array; the second flag bit is set. |
| HttpTurns.RefererTurnExactly | src/http_parse.cpp:242-283 | The site stands seven bytes behind the spaces if the fifth is a colon, else eight if the sixth is one; up to slash, CR, NUL or 59 bytes it replaces the array; the third flag bit is set. |
| HttpTurns.RefererRefused | src/http_parse.cpp:262-266 | Without such a colon the scanner is left with false. |
| HttpTurns.AgentTurnExactly | src/http_parse.cpp:284-309 | The agent, up to CR, NUL or 127 bytes, is written to the front of its array, without a zero byte behind it. |
| HttpTurns.NothingToDo | src/http_parse.cpp:27-312 | Where none of the words stands, or one stands too close to the end, the cursor goes on by one byte and nothing is recorded. |
| HttpTurns.AtoiExactly | src/http_parse.cpp:208-208 | Blanks, a sign or none, and digits: the value is held in 64 bits and cut down to the 32-bit value that differs from it by a multiple of 2^32. |
| HttpCursor.RefusesExactly | src/http_parse.cpp:42-266 | A turn of the loop leaves with false exactly at a GET or POST whose target has no slash and at a Refe with no colon where a scheme would end, judged by the bytes alone. |
| HttpCursor.TurnTouches | src/http_parse.cpp:31-313 | A turn changes path, host, type and length only at the words that set them. |
| HttpCursor.ScanVerdict | src/http_parse.cpp:27-318 | A scan, from any point and in any state, succeeds if and only if none of the cursor positions it visits refuses. |
| HttpCursor.ScanKeeps | src/http_parse.cpp:27-318 | What no visited position sets is at the end of a scan what it was at its start. |
| HttpCursor.FirstTypeWins | src/http_parse.cpp:180-205 | From any point of any packet: flag bits are only gained, and once a type is recorded nothing later changes it. |
| HttpCursor.ScanLength | src/http_parse.cpp:206-209 | The length at the end of a scan is that of the last visited position with a length header, read there by atoi, or else the one from before. |
| HttpCursor.ScanType | src/http_parse.cpp:180-205 | The type at the end of a scan is that of the first visited position with a type header, unless a GET and a Host before it have set both flag bits; or else the one from before. |
| HttpPrint.ParseOfPrint | src/http_parse.cpp:27-318 | For a printed POST request line and any list of Host, Content-Type, Content-Length, User-Agent, Referer and inert lines, with any number of spaces behind the colons, and any two bytes or more behind them, be it an empty line and a body or a line that is cut off: parsing succeeds if and only if the scan meets no refusal in those bytes. The path without its slash and the last host come back unless the scan meets another one there. The length is the last one met there, or else that of the lines; the class is that of the first type of the lines, or else of the first one met there. |
| HttpPrint.ParseInAnyOrder | src/http_parse.cpp:27-318 | With one Host, one Content-Type and one Content-Length line, in any order among other lines, exactly these values come back, if the scan meets no refusal and no further path, host or length behind the header. |
| HttpPrint.PartHeaderIsHarmless | src/http_parse.cpp:139-162 | The headers of a part (RFC 7578, sections 4.2 and 4.4), Content-Disposition and Content-Type, cause no refusal and set no path, host or length. |
| HttpPrint.LineRead | src/http_parse.cpp:139-309 | From the start of a printed line, with any number of spaces behind its colon, the scanner reaches the start of the next one with exactly that line's effect. |
| HttpPrint.AtoiRoundTrip | src/http_parse.cpp:208-208 | A printed number below 2^31 is read back. |
| HttpPrint.NumberPrinted | src/http_parse.cpp:208-208 | Numbers are printed in decimal, digit by digit. |
| HttpPrint.HeaderTypeStands | src/http_parse.cpp:184-188 | The type of a printed request header stands whatever bytes follow it. |
| HttpPrint.SkipText | src/http_parse.cpp:310-313 | Text is passed over without effect in which none of the six words begins, except Content headers that are neither like Content-Type nor like Content-Length. |
| Multipart.Selected | src/packet_sniffer.cpp:338-354 | Whichever branch sends, and for any bytes, the range sent lies in the received bytes. |
| Multipart.SentExactly | src/packet_sniffer.cpp:312-371 | For any bytes, with the last blank line at s, the last delimiter at e and the last end of a delimiter at l, each 0 if there is none: nothing is sent without a delimiter or without a byte behind s + 4; else the bytes from s + 4 to e if they are in order; else those from l + 4 on, or nothing if there are none. |
| Multipart.SelectsPayload | src/packet_sniffer.cpp:312-362 | For a prefix, a blank line, a payload, a delimiter and a tail: the range selected is the payload's if and only if no later blank line and no later delimiter begins in the scanned part. |
| Multipart.SendsPayloadUnlessStraddled | src/packet_sniffer.cpp:312-362 | If no later marker lies among the received bytes, the payload is sent if and only if none reaches over into the three bytes behind them. |
| Multipart.SendsLastPart | src/packet_sniffer.cpp:302-372 | For every printed multipart body (RFC 7578, section 4; RFC 2046, section 5.1.1): the content of the last part is sent if and only if it brings in no further blank line, and the body ends in its closing delimiter or the bytes behind its final line break do not complete a marker. |
| Multipart.LaterBlankLine | src/packet_sniffer.cpp:312-362 | With a further blank line in the content other bytes are sent or none, also where the lengths agree by accident. |
| Multipart.SendsBehindBlankLine | src/packet_sniffer.cpp:312-362 | Of a last content with a blank line in it, what comes behind its last one is sent, if and only if the leftover bytes do not complete a marker. |
| Multipart.SendsNothingAfterBreak | src/packet_sniffer.cpp:343-350 | A last content that ends in a line break, in a body that ends in one: nothing is sent, or, with two dashes left behind the body, the closing delimiter. |
| Multipart.SendsTailAfterBreak | src/packet_sniffer.cpp:343-354 | The same in a body that ends in its closing delimiter: the bytes behind the last `--` and line break are sent, from the fifth byte of the body on if there is none. |
| Multipart.SendsTailOutOfOrder | src/packet_sniffer.cpp:343-354 | If the header came behind the body, what follows the last end of a delimiter is sent. |
| FlowEngine.Counts | src/packet_sniffer.cpp:461-467 | Used nodes, flows in the table and entries of the age list are equally many, and there is room to free a used node. |
| FlowEngine.HandleFrame | src/packet_sniffer.cpp:116-230 | A frame keeps list, table and pool coupled. |
| FlowEngine.Open | src/packet_sniffer.cpp:167-192 | Opening a flow keeps them coupled. |
| FlowEngine.Complete | src/packet_sniffer.cpp:221-229 | Ending a flow keeps them coupled. |
| FlowEngine.Continue | src/packet_sniffer.cpp:196-230 | A further slice keeps them coupled. |
| FlowEngine.Removed | src/packet_sniffer.cpp:228-228 | Removing a key from the age list takes out exactly that key. |
| FlowEngine.Drop | src/packet_sniffer.cpp:472-483 | After k rounds of the clearing loop the first k entries are gone from the list, nodes and log are untouched, and the flows left have the nodes they had. |
| FlowEngine.FirstSliceExactly | src/packet_sniffer.cpp:243-275 | For every packet, whatever it ends with: the flow begins with what stands behind the line break of the last delimiter behind the first byte, and with nothing if there is none. |
| FlowPolicy.EveryRunIsCoupled | src/packet_sniffer.cpp:167-192 | In every run of frames and clears, whatever the nodes held at the start: the age list names the flows of the table once each, flows have distinct nodes, these are exactly the nodes that are not free, and the counts agree. |
| FlowPolicy.StrayFrameExactly | src/packet_sniffer.cpp:116-160 | A frame that the filters stop changes nothing; one without a type and without a flow changes nothing but the log, into which it goes whole if it begins with `{"os` and ends with `}`. |
| FlowPolicy.NewFrameExactly | src/packet_sniffer.cpp:161-193 | One with a type and without a flow opens it if its length is below 512 KiB and a node is free: the first free node, the length cut to 16 bits, the first slice at the beginning of the buffer, the key at the end of the list; nothing else changes. |
| FlowPolicy.NextFrameExactly | src/packet_sniffer.cpp:196-229 | One whose flow is there writes all its bytes behind those counted and counts them in 16 bits; if the counter then is not the expected length nothing else happens, else the flow is gone, its node free, and what its buffer selects is sent. |
| FlowPolicy.ClearPolicy | src/packet_sniffer.cpp:458-487 | A clear that acts removes exactly the first used/2 + 1 flows of the age list; the others keep order, nodes and contents; the freed nodes go to the end of the free list, oldest flow first. |
| FlowPolicy.ClearMakesRoom | src/packet_sniffer.cpp:461-467 | After a clear, whether it acted or not, a node is free; after one that acted less than half the pool is used. This holds for every pool size, also where 4 times the size overflows 32 bits. |
| FlowPolicy.OldestFirst | src/packet_sniffer.cpp:189-191 | In every run the age list is in order of creation; no use of a flow moves it. |
| FlowPolicy.DropFrees | src/packet_sniffer.cpp:480-482 | Clearing k flows frees the nodes of the first k of the list, in that order. |
| FlowRefinement.EveryRunRefines | src/packet_sniffer.cpp:148-230 | Every run is a run of an engine that knows no nodes and no buffers, only an ordered list of flows with the slices each has received. |
| FlowRefinement.RunSimulates | src/packet_sniffer.cpp:148-230 | The same from any coupled state. |
| FlowRefinement.FrameSimulates | src/packet_sniffer.cpp:148-230 | One frame; only the three bytes behind a flow's own have to be told to the simpler engine. |
| FlowRefinement.ClearSimulates | src/packet_sniffer.cpp:458-487 | One clear. |
| FlowRefinement.GrownHolds | src/packet_sniffer.cpp:197-206 | Another slice is laid over the flow's image at its length modulo 2^16, and no write comes near the end of the buffer, so the clamp never shortens a slice. |
| FlowRefinement.BufferHoldsSlices | src/packet_sniffer.cpp:204-206 | The counter of a node is the flow's total modulo 2^16; below 2^16 the buffer holds exactly the flow's slices, one after the other. |
| FlowRefinement.CompletesExactly | src/packet_sniffer.cpp:211-217 | A slice ends its flow if and only if it brings the total to the expected length modulo 2^16. |
| FlowRefinement.OpeningNeverCompletes | src/packet_sniffer.cpp:178-193 | The frame that opens a flow never ends it and sends nothing. |
| FlowRefinement.ImageIsOwn | src/packet_sniffer.cpp:204-206 | Which slice a byte of a flow's image comes from depends on the lengths of the slices alone: it is the last one written over its place, also beyond 2^16 bytes; a place belongs to the image if and only if there is one. |
| FlowRefinement.IsolatedUnlessStraddled | src/packet_sniffer.cpp:313-315 | What an earlier owner left in the node changes nothing unless it completes a marker at the very end. |
| FlowRefinement.Image | src/packet_sniffer.cpp:204-206 | The bytes a flow has put into its node: their number is the total below 2^16 and at least 2^16 beyond, and the counter always lies within them. |
| FlowRefinement.ImageIsConcat | src/packet_sniffer.cpp:204-206 | Below 2^16 bytes the image is the concatenation of the slices. |
| FlowDelivery.BodyArrives | src/packet_sniffer.cpp:148-230 | A frame that opens a flow, any frames of this and other flows, clears that spare this one, and the frame that brings the flow to its length modulo 2^16: nothing is sent for the flow before; then exactly what its bytes select, once; the flow is gone from table and list and its node is free. |
| FlowDelivery.WaitingRun | src/packet_sniffer.cpp:196-217 | While fewer bytes than expected have come, the flow keeps node, bytes and expected length, whatever other flows do and whichever other flows are cleared. |
| FlowDelivery.OtherFrame | src/packet_sniffer.cpp:148-230 | A frame of another flow changes neither the entry nor the node nor the messages of this one. |
| FlowDelivery.ClearLeaves | src/packet_sniffer.cpp:458-487 | A clear spares a flow if and only if it does not act or the flow is not among the oldest half and one; a flow it spares is untouched, the node of any other is free. |
| FlowDelivery.Finishes | src/packet_sniffer.cpp:211-229 | The completing slice sends what the body selects, and frees the node. |
| FlowDelivery.StaysUntilCleared | src/packet_sniffer.cpp:211-217 | A flow whose total never meets its length modulo 2^16 stays and counts on, and nothing is sent for it, in every run of frames and clears in which each clear spares it. |
| FlowDelivery.StaysExactly | src/packet_sniffer.cpp:211-217 | A flow is in the table all the way through a run if and only if every clear spares it and none of its slices brings the total to the expected length modulo 2^16. |
| FlowDelivery.EndsExactly | src/packet_sniffer.cpp:167-217 | A frame ends a flow that has been there since it was opened if and only if it brings all that has come to the announced length modulo 2^16; nothing is sent for the flow before, and if it does not end, nothing then. |
| FlowDelivery.EveryMessageIsShort | include/flowdef.h:90-95 | No run sends a message of 2^16 bytes or more, although buffer and length check admit longer bodies. |
| FlowOrigin.EveryFlowIsTraced | src/packet_sniffer.cpp:167-206 | In every run, each flow in the table was opened by a frame of its own, and its node begins with the image of exactly what its own frames have brought since. |
| FlowOrigin.EveryMessageIsOwn | src/packet_sniffer.cpp:148-230 | Each message of the log of each run was sent by one frame of its own flow: it is that frame, whole, or one range of the image of what the flow received up to that frame since it was last opened, by a frame of its own. |
| FlowOrigin.ByteIsOwn | src/packet_sniffer.cpp:302-372 | So each byte of each message of each run stands in the frame that sent it or was brought by a frame of the same flow since that flow was last opened, never left by an earlier owner of the node, nor by an earlier upload under the same key; the lengths of the frames say by which. |
| FlowOrigin.StepSends | src/packet_sniffer.cpp:221-222 | An event adds a message only if it is an accepted frame of that flow. |
| Upload.UploadArrives | src/packet_sniffer.cpp:116-230 | From the bytes of the request and of every further frame to the message: a printed request for a multipart body whose stated length is that of the body modulo 2^16, the rest of the body in slices that pass the scanner, frames of other flows and clears that spare this one. At the completing frame and not before, exactly the content of the last part is sent, if and only if it brings in no further blank line and the leftover bytes of the node do not complete a marker; in either case the flow is gone and its node free. |
| Upload.UploadStalls | src/packet_sniffer.cpp:127-217 | If the scanner drops one of the slices, or the start of the body in the header packet has a further delimiter, or no slice comes because that start is the whole body, then after all frames the flow still waits and nothing has been sent for it. |
| Upload.UploadEndsExactly | src/packet_sniffer.cpp:178-217 | Whatever length is stated and whatever comes behind the printed lines: a frame that passes ends a flow that is still there if and only if the bytes behind the last delimiter of the header packet and all bytes of the frames since differ in number from the stated length by a multiple of 2^16; if not, nothing is sent. |
| Upload.CutHeaderMisses | src/packet_sniffer.cpp:196-217 | A header packet cut inside a line has no start of the body, and the cut-off end of the header counts as body: the frame with which the body is complete does not end the flow unless that end is a multiple of 2^16 bytes long. |
| Upload.ArrivesExactly | src/packet_sniffer.cpp:116-139 | The bytes that reach the flow are all bytes of its frames if and only if no frame is dropped. |
| Upload.ClassifyExactly | src/packet_sniffer.cpp:129-139 | Verdict, type and length of any packet from the cursor positions of its scan: no refusal, the first type unless shut out, the last length. |
| Upload.PassesExactly | src/packet_sniffer.cpp:116-139 | A packet passes the filters if and only if it has 20 to 3000 bytes, does not begin with GET, no visited cursor position refuses, and it is not the case that the first type met is an application type and the last length met is positive; if the scan meets no type or no length, the last point never counts. |
| Upload.PlainPacketPasses | src/packet_sniffer.cpp:116-139 | Enough for that is that no byte position at all refuses or holds a length header. |
| Upload.FirstWordRefuses | src/http_parse.cpp:42-266 | A packet is dropped if the first of the scanner's words in it refuses. |
| Upload.PosterIsDropped | src/http_parse.cpp:98-120 | For example a slice of text that begins with POSTER. |
| Upload.FirstSliceIsBody | src/packet_sniffer.cpp:237-277 | The header packet contributes the start of the body behind its header, if and only if no later place in it looks like a delimiter. |
| Upload.StartsWith | src/packet_sniffer.cpp:237-277 | The start of the body behind the empty line is what the flow begins with, if and only if no other place looks like a delimiter; else the flow begins with less. |
| Upload.HeaderAccepted | src/packet_sniffer.cpp:116-139 | Printed lines with a type that begins with `mult` pass the filters, whatever comes behind them, if and only if the scan of that meets no refusal; the type is theirs, the length the last one met behind them, or else theirs. |
| Upload.CommonTypes | src/packet_sniffer.cpp:129-139 | Printed lines with a type that begins with `multipart/form-data` are accepted with their length; with one that begins with `application/` they are dropped if and only if the length is positive. |
| Upload.HeaderOpensExactly | src/packet_sniffer.cpp:149-193 | It opens its flow if and only if, besides, that length is below the size of the buffer and a node is free; otherwise nothing changes. |
| Interleave.RunKeeps | src/packet_sniffer.cpp:167-192 | With the clearing loop running between any two steps of the capture thread: used nodes are the table's nodes and at most one in flight, in every run in which no flow is cleared between being found and being released. |
| Interleave.MoveKeeps | src/packet_sniffer.cpp:467-484 | Every step of either thread but the last locked region of a completed flow keeps this without any condition. |
| Interleave.ReleaseKeepsExactly | src/packet_sniffer.cpp:224-229 | That last region keeps it if and only if the entry found at the start of the frame is still there, or no flow is left so that the second release is refused. |
| Interleave.ReleaseBreaks | src/packet_sniffer.cpp:226-226 | Otherwise the node is in the free list twice. |
| Interleave.StartsWell | src/packet_sniffer.cpp:28-36 | Every run begins in a state that satisfies the invariant. |
| Interleave.ClearedWhileFinishing | src/packet_sniffer.cpp:221-229 | From every state with two flows: if the oldest is cleared between its last slice and its release, its node is in the free list twice. |
| Interleave.DuplicateIsReachable | src/packet_sniffer.cpp:167-229 | Such a state is reached from the start with any pool of two nodes or more. |
| Interleave.FrameIsMoves | src/packet_sniffer.cpp:148-229 | Without interleaving, the moves of the capture thread for a frame do to table, list and free ring what the frame does. |
| Interleave.ClearIsMove | src/packet_sniffer.cpp:467-484 | A clear is one move of the clearing thread with the number it computes. |
| Sniffer.PacketSniffer.constructor | src/packet_sniffer.cpp:28-36 | A sniffer with a pool of any positive size starts coupled and empty, with arbitrary memory in its nodes. |
| Sniffer.PacketSniffer.HandleFrame | src/packet_sniffer.cpp:116-230 | Table, list, pool, nodes, buffers and message log change in place exactly as the step on values says; no release fails and no missing entry is read. |
| Sniffer.PacketSniffer.NewFlow | src/packet_sniffer.cpp:149-193 | The branch for a flow that is not in the table. |
| Sniffer.PacketSniffer.NextSlice | src/packet_sniffer.cpp:194-217 | The branch for a flow that is; the clamp never shortens the slice. |
| Sniffer.PacketSniffer.Finish | src/packet_sniffer.cpp:221-229 | Sending, freeing and forgetting a completed flow. |
| Sniffer.PacketSniffer.RecvStart | src/packet_sniffer.cpp:237-277 | The start of the body is taken from behind the last delimiter of the header packet. |
| Sniffer.PacketSniffer.RecvModify | src/packet_sniffer.cpp:280-299 | A packet that begins and ends like a JSON body is sent on whole, any other not at all. |
| Sniffer.PacketSniffer.RecvFinished | src/packet_sniffer.cpp:302-372 | The selected range is sent and the node reset, or nothing happens. |
| Sniffer.PacketSniffer.LRUClear | src/packet_sniffer.cpp:458-487 | The loop clears exactly the flows the step on values clears; no release fails. |
| Sniffer.PacketSniffer.Filter | src/packet_sniffer.cpp:116-139 | Which frames pass, and how they are classified. |
| Sniffer.FindMarkers | src/packet_sniffer.cpp:312-335 | The scan finds the last of each of the three markers. |
| Sniffer.FindDelimiter | src/packet_sniffer.cpp:243-256 | The scan finds the last delimiter. |
| Sniffer.ReqCache.Append | src/packet_sniffer.cpp:204-206 | The bytes are copied behind what is there and counted modulo 2^16; the rest of the buffer stays. |
| Sniffer.ReqCache.Start | src/packet_sniffer.cpp:178-180 | The counter keeps the expected length modulo 2^16, the counter of bytes is cleared, the first byte zeroed, the rest of the buffer left as it was. |

## Left out

- Capture with libpcap, the message queue client and the two test programs: calls into other libraries. What is handed to `SendMsg` goes into a log, also when no producer is configured.
- Ethernet, VLAN, IP and TCP headers: the model starts from the flow, the data bytes and the length.
- `HttpParse.ParseHttp`: requires six NUL bytes behind the data, because the code reads up to six bytes past the length and stops only at such bytes; what it does in other memory is not modelled.
- `FlowEngine.HandleFrame`: takes any bytes behind the packet, but requires that no delimiter begins with its very last byte, since the code would compute a negative length there.
- `Interleave.RunKeeps`: the lookup of a flow counts as one step; a data race between it and the clearing loop inside the hash table is not modelled, nor what erasing through a dead iterator does to the table beyond removing the key.
- `Spsc.FifoInEveryInterleaving`: loads and stores are sequentially consistent; weak memory effects on the plain data array are not modelled.
- `Ring.Queue.Resize`: an element copied only in part is modelled as arbitrary; the exact bytes are in `ResizeKeepsContents`.
- `Split.Split`: an empty delimiter is excluded for a text that is not empty; the source accepts it and its loop then does not end (`EmptyNeverEnds`).
- `Upload.UploadArrives`: bodies are those of RFC 7578 without an epilogue other than a line break.
- `HttpPrint.ParseOfPrint`: printed requests are POST requests, since frames that begin with GET never reach the scanner; what the scanner does with the word GET elsewhere in a packet is in `HttpParse.OnGet`.
- Outputs of the scanner that nothing reads: the query location and the HTML mark.
- `_CFlowKey::operator<`, the hash function, the number conversions, `replaceAll` and the line fixes: not used by the engine.
- `SetZero` and `Print` of the pool, logging, daemon, configuration file and shell scripts.
- Freeing of the arrays by destructors and failure of allocation.
