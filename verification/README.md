# Verified model of the shell's JSON, HTTP and codec core

The daemon talks to its clients through an embedded HTTP server and a JSON interface.
This project models the self-contained algorithms underneath and proves what they are
for. `dafny verify dfyconfig.toml` checks all of it.

- **JSON tokenizer** (`JsmnSpec`, `Jsmn`, `JsmnInvariant`, `JsonForest`, `JsonGrammar`,
  `JsonPrint`, `JsonWords`, `JsonResume`). `Jsmn.Parser` patches one flat token array in place and is
  proved equal to a run of an abstract parser. Every reachable state is a forest; the array
  is the preorder listing of a tree; the accepted texts are exactly those that spell a
  forest; printing and parsing are inverse; a call that ran out of tokens can be resumed.
  Against its own comments the tokenizer is permissive: commas and colons are blanks,
  any unquoted text is a primitive, and `\u` is not followed by a check for digits. The
  grammar in `JsonGrammar` is that of the code.
- **Lookups** (`JsonLookup`, `JsonRead`, `Numbers`). `find_key` and its users write NULs into the
  text they search. They are proved to answer as a lookup in the tree of the untouched text
  would, in any order and number; and for an object that was written out, to find the value
  that was written with the key.
- **Escaping** (`EscapeJson`). The code-point loop, its inverse, and the fact that its
  quoted output is one string token. Code points from 0x10000 on are cut to 16 bits;
  `EscapeRoundTrip` gives the exact condition.
- **HTTP framing** (`HttpFraming`, `HttpRuns`, `HttpConnection`). Requests are cut out of a byte stream
  that arrives in arbitrary chunks. Every connection is some chunking of its stream, turn by
  turn; `HttpRuns` says exactly when all turns begin where a request begins, and exactly
  which streams are cut at their requests however they arrive. Heads are described line by
  line, and requests made of such heads come out as they were sent.
- **Socket queue and worker pool** (`SocketQueue`, `WorkerPool`, `PoolStopping`). The ring of 20 sockets as
  a class, and the master, the workers and the stopping thread as a step system with one
  mutex, condition variables with spurious wake-ups, and the shutdown handshake. Every
  socket taken is followed to the worker that serves it. Shutdown can fail in two places,
  and for each the exact condition is proved and a run that meets it is given. The broadcast
  is sent without the mutex and can be lost (`ShutdownCompletesExactly`). And the master may
  never get that far: a comment at `src/rpc/mongoose.c:4913-4914` has the workers signal
  `sq_empty` when stopping, but a worker that reads `stop_flag` on its way out of
  `consume_socket` does not call it again (`BroadcastIsReachedExactly`).
- **MD5** (`Md5`), around any compression function: buffering, the two-word counter,
  padding (RFC 1321 sections 3.1 to 3.5).
- **Strings in place** (`Glob`, `SkipQuoted`, `Uri`, `PercentCodes`, `Form`): the pattern matcher, quoted
  words, percent-encoding (RFC 3986 section 2.1), the path cleaner and form variables.
- **Base64** (`Base64`): the decoder that is fed in pieces, and the encoder (RFC 4648
  section 4).

Code that works in place is modelled in place, on arrays and objects, and each method is
tied to a function of its inputs or of the old state. Some methods take ghost parameters
that name the old content of a buffer. Byte buffers hold integers from 0 to 255; C strings
end at the first NUL. One C function is sometimes several methods here, one for each of
its loops. The C library's `tolower`, `isalnum`, `isxdigit` and `isprint` are those of the
C locale. In `Base64` and `Uri` a bitwise `|` of fields that do not overlap is written as
a sum.

Network, clock and thread scheduling are nondeterministic: `Socket.Pull` returns any number
of the bytes still to come, and a run of the pool is any sequence of enabled steps. How a
head's fields are understood, and the sizes of the buffers an application reads bodies
with, are arbitrary functions of the head.

## Model

| member | source | states |
|---|---|---|
| JsmnSpec.PrimitiveEndMeaning | src/rpc/jsmn.c:41-54 | A primitive runs to the first blank (space, tab, CR, LF), `:`, `,`, `]`, `}` or NUL; -1 exactly when a character outside 32 to 126 comes before that |
| JsmnSpec.ScanStringMeaning | src/rpc/jsmn.c:84-118 | Whole characters and escapes, of nine letters, lead to the closing quote, to a bad escape, or to the end of the text, and the scan says which |
| JsmnSpec.BodyEndsOnce | src/rpc/jsmn.c:84-118 | They lead to only one such place |
| JsmnSpec.InnermostOpen | src/rpc/jsmn.c:153-172 | The index found is an unclosed token and none after it is unclosed |
| JsmnSpec.Step | src/rpc/jsmn.c:135-203 | One turn of the outer loop moves strictly forward, never loses a token and never exceeds the array |
| JsmnSpec.Run | src/rpc/jsmn.c:124-214 | A whole call, with its four return codes, leaves a valid parser state |
| Jsmn.Parser.constructor | src/rpc/jsmn.c:220-224 | A fresh parser is at position 0 with no tokens and no open container |
| Jsmn.Parser.AllocToken | src/rpc/jsmn.c:8-18 | Takes the first free token at or after `toknext`, or none if there is none |
| Jsmn.Parser.ParsePrimitive | src/rpc/jsmn.c:34-70 | Appends exactly one primitive token with the right bounds, or restores the state and reports INVAL or NOMEM |
| Jsmn.Parser.ParseString | src/rpc/jsmn.c:75-119 | Appends exactly one string token without its quotes, or restores the state and reports INVAL, PART or NOMEM |
| Jsmn.Parser.FindOpen | src/rpc/jsmn.c:166-172 | The downward scan finds the innermost unclosed token |
| Jsmn.Parser.CloseContainer | src/rpc/jsmn.c:151-173 | Patches `end` of the innermost open container and moves `toksuper` to the one around it, or reports INVAL and changes nothing |
| Jsmn.Parser.CountChild | src/rpc/jsmn.c:145-146 | Bumps `size` of the open container and no other token |
| Jsmn.Parser.OpenContainer | src/rpc/jsmn.c:141-150 | Appends an unclosed container, counts it in its parent and makes it the open one, or reports NOMEM and changes nothing |
| Jsmn.Parser.AddString | src/rpc/jsmn.c:174-179 | A string is read and counted, or nothing changes |
| Jsmn.Parser.AddPrimitive | src/rpc/jsmn.c:189-195 | A primitive is read and counted, or nothing changes |
| Jsmn.Parser.ParseAt | src/rpc/jsmn.c:139-203 | The in-place turn is the abstract turn; a failing turn leaves the state untouched |
| Jsmn.Parser.Parse | src/rpc/jsmn.c:124-214 | The in-place call is the abstract run from whatever state it was called in, and unused tokens are cleared |
| JsmnInvariant.ParentIsInnermostOpen | src/rpc/jsmn.c:153-172 | The parent of the next token is the innermost unclosed token |
| JsmnInvariant.AppendKeeps | src/rpc/jsmn.c:141-195 | Appending a token keeps the forest invariant: increasing starts, nested or disjoint spans, unclosed tokens are the ancestors of the position, sizes count children |
| JsmnInvariant.CloseKeeps | src/rpc/jsmn.c:151-173 | Closing the innermost container keeps the forest invariant |
| JsmnInvariant.StepKeepsInvariant | src/rpc/jsmn.c:135-204 | Every successful turn on any text keeps the forest invariant |
| JsmnInvariant.RunKeepsInvariant | src/rpc/jsmn.c:124-214 | Every reachable state has the invariant; a call succeeds if and only if it reaches the end with no container open |
| JsonForest.StepSimulates | src/rpc/jsmn.c:135-204 | One turn on the flat array is one turn of a tree builder |
| JsonForest.TokenizerBuildsTrees | src/rpc/jsmn.c:124-214 | For every text and capacity the flat array is the preorder listing of the trees built |
| JsonGrammar.BuildReportsSpelling | src/rpc/jsmn.c:124-214 | What is built is spelled by the text read so far |
| JsonGrammar.AcceptsExactlySpellings | src/rpc/jsmn.c:124-214 | A text is accepted with a forest if and only if it spells that forest and the tokens fit; the parse is unique |
| JsonGrammar.TokenizesExactlySpellings | src/rpc/jsmn.c:124-214 | The tokenizer succeeds if and only if the text spells a forest that fits, and then its tokens are that forest in preorder |
| JsonPrint.PrintThenParse | src/rpc/jsmn.c:34-214 | Printer/parser round trip for every JSON value with any legal white space: kinds, starts, ends and sizes are those of the value, in preorder |
| JsonPrint.PrintedSpells | src/rpc/jsmn.c:124-214 | A printed value spells its tree |
| JsonWords.WordIsOneToken | src/rpc/jsmn.c:34-70 | A printable word without blanks, colons, commas and closing brackets, that begins neither a string nor a container, is one primitive, whole |
| JsonWords.WordIsRefused | src/rpc/jsmn.c:41-54 | A word with any character outside 32 to 126 in it, before anything ends it, is INVAL and leaves no token |
| JsonWords.BrokenStringIsReported | src/rpc/jsmn.c:84-118 | A string without its closing quote is PART; one with a backslash before anything but the nine escape letters is INVAL |
| JsonWords.WrongEndIsReported | src/rpc/jsmn.c:151-172 | Behind the items of an array or an object, a closing bracket of the other kind is INVAL and the end of the text is PART |
| JsonResume.MoreTokens | src/rpc/jsmn.c:130-144 | After NOMEM, calling again with a larger array gives what one call with the larger array gives |
| JsonResume.SpareTokens | src/rpc/jsmn.c:62-66 | Spare tokens never change a result other than NOMEM |
| JsonResume.MoreText | src/rpc/jsmn.c:206-211 | After PART, continuing with more text is always right if and only if the text did not end inside a primitive |
| JsonResume.CutAnywhere | src/rpc/jsmn.c:84-118 | A prefix of an accepted text is reported as invalid if and only if it ends inside an escape, and otherwise as complete or cut off, whichever it is |
| JsonLookup.SkipItem | src/util/json_util.cpp:44-54 | Skipping an item lands just past its whole subtree, never past the used tokens |
| JsonLookup.SameString | src/util/json_util.cpp:94 | strcmp as a test for equality of C strings |
| JsonLookup.Terminate | src/util/json_util.cpp:93 | Writing a NUL behind a leaf makes its text readable as a C string and changes no leaf |
| JsonLookup.FirstHit | src/util/json_util.cpp:90-98 | The first member whose key text and value kind match, and -1 exactly when there is none |
| JsonLookup.TryMember | src/util/json_util.cpp:92-96 | One turn of the search decides whether this member answers |
| JsonLookup.SkipMember | src/util/json_util.cpp:90 | Skips a key and its value to the next member |
| JsonLookup.SearchMembers | src/util/json_util.cpp:86-98 | The loop over the members finds the same |
| JsonLookup.FindKey | src/util/json_util.cpp:83-99 | The search on the carved buffer finds what a tree lookup on the untouched text finds: on tokens and text alone, the second token of the first key and value of that text and kind, or -1 when there is none |
| JsonLookup.LookupIsFirstPair | src/util/json_util.cpp:83-99 | The lookup in the tree answers so for every parsed text |
| JsonLookup.FindString | src/util/json_util.cpp:101-112 | The pointer handed out reads the original text of the value found |
| Numbers.StrtollReadsBack | src/util/json_util.cpp:124 | A number written in decimal, with or without a sign, after white space and before anything but a digit, is read back, clamped to 64 bits |
| Numbers.StrtollOfNoNumber | src/util/json_util.cpp:124 | Text without a digit at its start or behind a sign is 0 |
| JsonLookup.FindInt | src/util/json_util.cpp:114-125 | The number is that of the original text of the value found, 0 if none |
| JsonLookup.FindBool | src/util/json_util.cpp:127-133 | True exactly when the value found reads `true` in the original text |
| JsonLookup.LeavesApart | src/rpc/jsmn.c:67-68 | A leaf listed before another ends strictly before it begins, so there is room for a NUL |
| JsonLookup.WritesMissLeaves | src/util/json_util.cpp:93 | No write of a lookup falls inside the span of any string or primitive |
| JsonLookup.LeafReadsBack | src/util/json_util.cpp:93-94 | A NUL-terminated leaf reads as its original text |
| JsonLookup.AskOne | src/util/json_util.cpp:83-133 | One call of any of the four lookups is answered as on the untouched text |
| JsonLookup.AskAll | src/util/json_util.cpp:83-133 | Any sequence of lookups: each is answered as on the untouched text, and every string handed out earlier still reads the same |
| JsonLookup.SuccessIsParsed | src/rpc/jsmn.c:206-213 | The tokens of a successful parse satisfy what the lookups require |
| JsonRead.FindsWhatWasWritten | src/util/json_util.cpp:83-99 | In an object written out with any white space, tokenized and searched, a key gives the first value written with that key and a value of that kind, its text whole, or nothing when there is no such member |
| JsonRead.WrittenIsParsed | src/rpc/jsmn.c:124-214 | What the tokenizer makes of such an object is what the lookups require |
| EscapeJson.EscapeJson | src/util/escape_json.cpp:75-103 | The loop computes the escaped text |
| EscapeJson.EscapeOneIs | src/util/escape_json.cpp:77-100 | Printable ASCII stays, quote and backslash get a backslash, five control characters have letters, everything else is \u and four digits |
| EscapeJson.EscapedIsAscii | src/util/escape_json.cpp:75-103 | Only ASCII comes out, and no control character but DEL |
| EscapeJson.Hex4RoundTrip | src/util/escape_json.cpp:96-98 | Four hexadecimal digits read back as the number |
| EscapeJson.UnescapeGivesLow16 | src/util/escape_json.cpp:75-103 | Unescaping always gives the code points modulo 2^16 |
| EscapeJson.EscapeRoundTrip | src/util/escape_json.cpp:96-98 | Unescaping gives the code points back if and only if all are below 0x10000 |
| EscapeJson.EscapedIsOneString | src/rpc/jsmn.c:75-119 | The quoted output is tokenized as exactly one string spanning it |
| HttpFraming.GetRequestLen | src/rpc/mongoose.c:1840-1859 | The loop computes the head length: 0 undecided, -1 malformed, else the end of the blank line |
| HttpFraming.RequestLen | src/rpc/mongoose.c:1840-1859 | -1, 0 or a length within the bytes |
| HttpFraming.RequestLenMeaning | src/rpc/mongoose.c:1840-1859 | When it is positive, -1 and 0, in terms of blank lines (LF LF or LF CR LF) and control characters |
| HttpFraming.HeadIsMeasured | src/rpc/mongoose.c:1840-1859 | A head of non-empty lines ended by CR LF or LF, and an empty one, is measured whole whatever follows it; every shorter part of it is undecided |
| HttpFraming.HeadIsRefused | src/rpc/mongoose.c:1840-1859 | A control character other than CR and LF in a line makes the head malformed as soon as another byte follows |
| HttpFraming.RequestLenStable | src/rpc/mongoose.c:4767-4776 | Once decided, no further bytes change it, so scanning stale buffer bytes is harmless |
| HttpFraming.FramesOfStream | src/rpc/mongoose.c:4815-4868 | Pipelined requests, their heads made of lines and an empty one, come out as sent, in order, none lost or merged |
| HttpFraming.InStepExactly | src/rpc/mongoose.c:4858-4864 | After discarding, the connection is in step with the stream if and only if the body was wholly buffered, wholly consumed, or the stream is dry |
| HttpRuns.InStepThroughout | src/rpc/mongoose.c:4826-4867 | Over a whole connection every turn begins where a request of the stream begins if and only if every turn that went on had its body wholly buffered or consumed |
| HttpRuns.HandedInStep | src/rpc/mongoose.c:4826-4867 | Then what is handed out is a function of the stream alone, however it was chunked |
| HttpRuns.FitsExactly | src/rpc/mongoose.c:1548-1574 | A body no longer than what it is read into is taken however much was buffered; a longer one is left behind when only the head was buffered |
| HttpRuns.InStepHoweverItArrives | src/rpc/mongoose.c:4815-4868 | A stream is cut at its requests under every chunking if and only if the bodies along it fit what they are read into |
| HttpRuns.WholeBodies | src/rpc/mongoose.c:4815-4868 | If also every body handed out fits, the heads and bodies handed out are those sent |
| HttpRuns.PipelineIsHanded | src/rpc/mongoose.c:4815-4868 | Requests sent back to back, whose bodies fit what they are read into, are handed out as sent, one turn for each, however the bytes arrive |
| HttpRuns.LastTurnExactly | src/rpc/mongoose.c:4780-4857 | A turn is the last exactly when there is no good head, or one that does not keep the connection alive, or one with a body of unknown or negative length |
| HttpRuns.NothingRefusedIsHanded | src/rpc/mongoose.c:4826-4845 | Only heads that parse and are not refused are handed out |
| HttpConnection.Socket.Pull | src/rpc/mongoose.c:1504-1521 | Any positive number of the bytes still to come, 0 at their end, or -1 on failure or stop |
| HttpConnection.Connection.ReadRequest | src/rpc/mongoose.c:2992-3005 | Loses no byte however chunked; finds the head exactly when it ends within the buffer size |
| HttpConnection.Connection.ParseHttpMessage | src/rpc/mongoose.c:2957-2985 | The second scan, over the whole buffer with stale bytes, cuts the same head and spares the bytes behind it |
| HttpConnection.Connection.GetReq | src/rpc/mongoose.c:4762-4791 | Gives a request exactly when the pending stream starts with a good head, with the stream position known |
| HttpConnection.Connection.PullAll | src/rpc/mongoose.c:1523-1541 | Reads exactly as many bytes as asked for, or all there are |
| HttpConnection.Connection.TakeBuffered | src/rpc/mongoose.c:1555-1567 | Hands out buffered body bytes, those next in the stream |
| HttpConnection.Connection.TakeBody | src/rpc/mongoose.c:1549-1571 | Buffered bytes and then socket bytes join to the next stretch of the stream |
| HttpConnection.Connection.MgRead | src/rpc/mongoose.c:1543-1574 | Hands out the next bytes of the body, never past its end, and counts them |
| HttpConnection.Connection.TakenMore | src/rpc/mongoose.c:1549-1553 | Piece after piece amounts to one read |
| HttpConnection.Connection.ReadPiece | src/rpc/mongoose.c:1543-1574 | One read of the application gives the next stretch of the body |
| HttpConnection.Connection.HandleRequest | src/rpc/mongoose.c:4839-4845 | An application reading with any buffer sizes gets the body up to their sum |
| HttpConnection.Connection.HandOut | src/rpc/mongoose.c:4830-4845 | A request refused before it is handed out consumes nothing; one handed out comes with as much of its body as is read |
| HttpConnection.Connection.TakeRequest | src/rpc/mongoose.c:4826-4845 | The head and the part of the body handed out are those at the start of the pending stream |
| HttpConnection.Connection.ShiftDown | src/rpc/mongoose.c:4863 | Moves the rest of the buffer to its front |
| HttpConnection.Connection.Discard | src/rpc/mongoose.c:4858-4866 | The pending stream becomes exactly what the discard leaves of it |
| HttpConnection.Connection.Serve | src/rpc/mongoose.c:4826-4867 | One turn hands out what the pending stream dictates, goes on exactly if the head says so, leaves pending what that turn leaves, and consumes something if it goes on |
| HttpConnection.Connection.ProcessNewConnection | src/rpc/mongoose.c:4815-4868 | Whatever the network and the bodies do, the turns are those of some chunking of the stream; if no body was left behind, what is handed out is a function of the stream; if bodies fit, it is every request sent |
| SocketQueue.PutAppends | src/rpc/mongoose.c:4962-4967 | Putting a socket at `sq_head` appends it to the abstract queue |
| SocketQueue.TakeRemovesOldest | src/rpc/mongoose.c:4881-4892 | Taking at `sq_tail` and re-basing both indices removes exactly the oldest |
| SocketQueue.Queue.Produce | src/rpc/mongoose.c:4962-4967 | The in-place step is the abstract one, and appends |
| SocketQueue.Queue.Consume | src/rpc/mongoose.c:4881-4892 | The in-place step is the abstract one, and removes the oldest, if any |
| WorkerPool.StepKeepsFifo | src/rpc/mongoose.c:4871-4971 | Every step of any thread keeps the order of accepted sockets |
| WorkerPool.StepKeepsMutex | src/rpc/mongoose.c:4871-4971 | At most one thread is inside a critical section, and it is the owner |
| WorkerPool.StepKeepsWake | src/rpc/mongoose.c:4876-4895 | Every step keeps the wake-up accounting: sleepers are covered by workers on their way |
| WorkerPool.StepKeepsCount | src/rpc/mongoose.c:4941-4946 | Every step keeps num_threads equal to the workers that have not finished |
| WorkerPool.StepKeepsFlag | src/rpc/mongoose.c:5051-5120 | Every step keeps stop_flag in accord with the master and with mg_stop, and never clears it |
| WorkerPool.StepKeepsStop | src/rpc/mongoose.c:4915-4941 | Every step keeps that, and that workers leave only while stopping and are busy only with a socket |
| WorkerPool.StepKeepsCarry | src/rpc/mongoose.c:4881-4941 | Every step keeps that each socket has been served, or is carried by a worker, exactly as often as it was taken, or while stopping at most as often |
| WorkerPool.StepKeepsInv | src/rpc/mongoose.c:4871-5120 | Every step of the system keeps the whole invariant |
| WorkerPool.RunKeepsInv | src/rpc/mongoose.c:4871-5120 | So does every run |
| WorkerPool.QueueIsFifo | src/rpc/mongoose.c:4876-4967 | In every reachable state the indices are bounded and, while running, the sockets taken are a prefix of those accepted, none lost or repeated |
| WorkerPool.SocketsAreConserved | src/rpc/mongoose.c:4871-4971 | Over whole runs no socket is served more often than it was taken; while running, every accepted socket has been served, is carried, is queued, or is with the master, and only one of these |
| WorkerPool.BusyWithAccepted | src/rpc/mongoose.c:4915-4934 | What a worker serves while running is an accepted socket not yet served |
| WorkerPool.NeverAllAsleep | src/rpc/mongoose.c:4876-4971 | While running: sleeping workers imply enough awake ones for the queue, a waiting master implies a full queue, and never do all sleep over work |
| WorkerPool.DeliveredBy | src/rpc/mongoose.c:4871-4898 | An awake worker in nobody's way reaches the oldest socket and carries it |
| WorkerPool.NeverStranded | src/rpc/mongoose.c:4871-4971 | From every state with a queued socket the threads alone can bring the oldest to a worker that then carries it |
| WorkerPool.EveryRunDelivers | src/rpc/mongoose.c:4871-4971 | In every run, however scheduled and with any new connections and spurious wake-ups, a worker takes the oldest queued socket and carries it before the workers have taken a bounded number of steps |
| WorkerPool.CarriedIsServed | src/rpc/mongoose.c:4898-4934 | While running, a worker serves the very socket it carries, in its next two steps |
| WorkerPool.WorkersCanGoOn | src/rpc/mongoose.c:4871-4971 | Until then a worker can take a step, or the master holds the mutex and can |
| WorkerPool.StopMovesUp | src/rpc/mongoose.c:5080-5109 | No step moves stop_flag other than 0 to 1 or 1 to 2 |
| WorkerPool.ShutdownIsSafe | src/rpc/mongoose.c:5059-5115 | num_threads is right, stop_flag becomes 2 only when every worker is done, and the context is freed only after that |
| WorkerPool.ShutdownProgresses | src/rpc/mongoose.c:5056-5064 | After the broadcast every unprompted step comes closer to the end |
| WorkerPool.QuietMeansFreed | src/rpc/mongoose.c:5056-5115 | At rest after a broadcast that missed nobody, the context has been freed |
| WorkerPool.MissedForEver | src/rpc/mongoose.c:5056-5064 | A worker the broadcast missed keeps the context from ever being freed |
| WorkerPool.RunToTheEnd | src/rpc/mongoose.c:5056-5115 | After the broadcast the threads can always run until nothing is left to happen |
| WorkerPool.EndsFreed | src/rpc/mongoose.c:5056-5115 | Every such run ends with the context freed if nobody was missed |
| WorkerPool.ShutdownCompletesExactly | src/rpc/mongoose.c:5056-5064 | Shutdown completes if and only if the broadcast, sent without the mutex, catches no worker between its check and its wait |
| WorkerPool.BroadcastCanBeLost | src/rpc/mongoose.c:5056-5064 | A concrete run in which it does catch one |
| PoolStopping.BroadcastIsReachedExactly | src/rpc/mongoose.c:4913-4971 | Once stop_flag is set the master gets to its broadcast if and only if it is not waiting for room in the queue with no worker left that would call consume_socket and signal it |
| PoolStopping.RunIsBounded | src/rpc/mongoose.c:4871-5115 | Once stop_flag is set, every run of the threads by themselves comes to rest within a bound |
| PoolStopping.StrandedStays | src/rpc/mongoose.c:4913-4971 | A stranded master stays stranded |
| PoolStopping.StrandedForEver | src/rpc/mongoose.c:4913-4971 | Then the context is never freed |
| PoolStopping.MasterCanBeStranded | src/rpc/mongoose.c:4913-4971 | A run of one worker that strands the master, against the comment that a stopping worker signals sq_empty |
| Md5.CounterAdd | src/rpc/mongoose.c:2156-2159 | The two words count 8 times the length modulo 2^64, carry included |
| Md5.CounterIndex | src/rpc/mongoose.c:2194-2211 | Position in the block and stored length are read off the counter |
| Md5.FoldAppend | src/rpc/mongoose.c:2178-2184 | Folding whole blocks and then the rest is folding all |
| Md5.LowOrderFirst | src/rpc/mongoose.c:2207-2214 | Words are stored low-order byte first |
| Md5.InitialBytes | src/rpc/mongoose.c:2061-2065 | The chaining words begin as the bytes 01 23 .. ef fe dc .. 10 |
| Md5.PaddedMessage | src/rpc/mongoose.c:2189-2214 | The padded message is the message, 0x80, zeros and the length in bits modulo 2^64 in eight bytes that end a block |
| Md5.Context.Update | src/rpc/mongoose.c:2153-2187 | After an update the context holds the message with the data appended, whatever it held before |
| Md5.Context.Final | src/rpc/mongoose.c:2189-2217 | The digest is that of the padded message, and the context is wiped |
| Md5.HexAt | src/rpc/mongoose.c:2225-2228 | Two lower-case digits a byte, the upper half first |
| Md5.Bin2Str | src/rpc/mongoose.c:2222-2230 | The loop writes the hexadecimal text of all bytes |
| Md5.MgMd5 | src/rpc/mongoose.c:2233-2250 | The result depends only on the concatenation of the arguments |
| Glob.StarReach | src/rpc/mongoose.c:886-893 | The stretch a star may stand for, and no more |
| Glob.MatchIsSound | src/rpc/mongoose.c:882-909 | A length returned is one the pattern matches |
| Glob.MatchIsComplete | src/rpc/mongoose.c:882-909 | -1 is returned only if no prefix matches |
| Glob.MatchIsRight | src/rpc/mongoose.c:882-909 | A length is found if and only if some prefix matches, and it is one that does |
| Glob.StarIsGreedy | src/rpc/mongoose.c:897-900 | The first star stands for as much as lets the rest match |
| Glob.AlternativesJoin | src/rpc/mongoose.c:879-881 | Cutting at the bars loses nothing and leaves no bar |
| Glob.OneDecides | src/rpc/mongoose.c:879-883 | Exactly one alternative decides: the first that matches a non-empty prefix, else the last |
| Glob.FirstBar | src/rpc/mongoose.c:879-883 | One level of the recursion over alternatives |
| Glob.MatchPrefix | src/rpc/mongoose.c:875-912 | The recursive matcher computes the specified result for every pattern and string, and ends |
| Glob.MatchOne | src/rpc/mongoose.c:885-911 | Its loop does so for a pattern without bars |
| Glob.MatchStar | src/rpc/mongoose.c:886-900 | Its backtracking does so for a star |
| SkipQuoted.Unquote | src/rpc/mongoose.c:784-796 | The word shrinks by at most one character and the cursor moves ahead within the text |
| SkipQuoted.UnquoteKeeps | src/rpc/mongoose.c:786-795 | Only the last character kept can still be given up |
| SkipQuoted.MemMove | src/rpc/mongoose.c:793 | memmove: the stretch moved, all else as before |
| SkipQuoted.JoinNext | src/rpc/mongoose.c:791-795 | One memmove round keeps what the word will come to |
| SkipQuoted.JoinQuoted | src/rpc/mongoose.c:784-797 | All rounds together leave the specified word in place |
| SkipQuoted.SkipGap | src/rpc/mongoose.c:802-810 | The gap behind the word becomes NULs and the cursor lands behind it |
| SkipQuoted.SkipInPlace | src/rpc/mongoose.c:771-811 | The whole buffer afterwards: the word where it began, NULs up to the cursor, every other byte unchanged |
| SkipQuoted.PlainWord | src/rpc/mongoose.c:815-817 | Without a quote character the word runs to the first delimiter, and the gap is that delimiter and all white space behind it |
| SkipQuoted.QuoteAtEndIsDropped | src/rpc/mongoose.c:780-787 | A quote character at the end of the text has nothing to quote and is dropped |
| SkipQuoted.ReadsOn | src/rpc/mongoose.c:2339-2344 | Any number of escaped quotes is taken into the word |
| SkipQuoted.SkipAhead | src/rpc/mongoose.c:771-811 | What stands behind the text in the buffer makes no difference |
| SkipQuoted.QuotedValueInside | src/rpc/mongoose.c:2339-2344 | In a buffer with a NUL and anything else behind it, a quoted value is cut out exactly, cursor behind its quote and blanks, if and only if it does not end in a backslash |
| SkipQuoted.TakeQuotedValue | src/rpc/mongoose.c:2339-2344 | The buffer afterwards holds the value and a NUL where it began, and the rest of the line and its NUL at the cursor, if and only if the value does not end in a backslash |
| Uri.UrlDecode | src/rpc/mongoose.c:1661-1684 | Decoding into another buffer or onto itself gives the same bytes, NUL-terminated; -1 exactly when they do not fit |
| Uri.DecodeOne | src/rpc/mongoose.c:1667-1679 | One character, escape or plus sign |
| Uri.UrlEncode | src/rpc/mongoose.c:2572-2590 | The encoding is written in full if and only if it fits; the result is NUL-terminated in any case |
| Uri.EncodeOne | src/rpc/mongoose.c:2577-2586 | One byte or its escape is written if there is room |
| Uri.EncodeRoundTrip | src/rpc/mongoose.c:1661-1684 | Decoding undoes encoding for any bytes, as a form or not |
| PercentCodes.EveryEncodingDecodes | src/rpc/mongoose.c:1661-1684 | However a text is percent-encoded, with digits of either case, decoding gives its bytes; in a form `+` is a space; a percent sign without two digits behind it stands for itself |
| PercentCodes.EveryTextIsEncoding | src/rpc/mongoose.c:1661-1684 | Every text is such an encoding, so that is all the decoder does |
| PercentCodes.EncodeSpells | src/rpc/mongoose.c:2572-2590 | Letters, digits and ._-$,;~() stay, every other byte becomes a percent sign and two lower-case digits |
| Uri.EncodedIsOpaque | src/rpc/mongoose.c:2573-2585 | An encoded value contains no separator |
| Uri.EncodeLength | src/rpc/mongoose.c:2577-2586 | An encoding takes at most three bytes for one, and that many exactly when all are escaped |
| Uri.CleanIsClean | src/rpc/mongoose.c:1909-1924 | The cleaner leaves no separator followed by a separator or by two dots |
| Uri.CleanExactly | src/rpc/mongoose.c:1904-1925 | Its result is clean, it leaves alone exactly the clean texts, and cleaning twice is cleaning once |
| Uri.CleanSelects | src/rpc/mongoose.c:1909-1924 | The result is a subsequence that starts as the text does; only separators and dots are dropped |
| Uri.CleanPath | src/rpc/mongoose.c:1906-1925 | In place: the cleaned text and a NUL, every byte outside unchanged |
| Uri.SkipSepsAt | src/rpc/mongoose.c:1913-1921 | The inner loop stops at the first character that is kept |
| Uri.NormaliseUri | src/rpc/mongoose.c:4224-4226 | Decoding a URI onto itself and then cleaning it leaves what the two give on separate copies |
| Form.CompareNoCase | src/rpc/mongoose.c:678-687 | 0 exactly when the names agree in any case |
| Form.Search | src/rpc/mongoose.c:1704-1706 | Finds the first place where the variable starts |
| Form.GetVar | src/rpc/mongoose.c:1686-1731 | -2 without room, -1 without such a variable, else the decoded value, NUL-terminated and cut to the room |
| Form.HitToSpan | src/rpc/mongoose.c:1705-1706 | What a key is found to be at the start of a field is the text up to the end of the name of that field or of a later one |
| Form.SpanToHit | src/rpc/mongoose.c:1705-1706 | And every such text is found there |
| Form.MissesField | src/rpc/mongoose.c:1704-1706 | Nothing is found inside a field |
| Form.FormRoundTrip | src/rpc/mongoose.c:1686-1731 | For every list of encoded fields and every key: the decoded value of the first field of that name, or none, if and only if the key does not spell a stretch of the form from the start of a field to the end of a later name |
| Form.SafeKeysExactly | src/rpc/mongoose.c:1686-1731 | A key is looked up rightly in every form if and only if it does not look like fields, an ampersand and a name |
| Form.AmpersandKeyStrays | src/rpc/mongoose.c:1704-1706 | Such a form and key |
| Base64.TableIs | src/util/cdecode.c:12-20 | The table, entry by entry, is the alphabet by ranges, -2 for padding and -1 otherwise |
| Base64.TestIsOneOff | src/util/cdecode.c:21-24 | An index that passes the bound test is inside the table if and only if the character is not `{` |
| Base64.ValuedExactly | src/util/cdecode.c:10-25 | A character has a value if and only if it is in the alphabet, or is `{` and the byte behind the table is not negative; the value is the one the encoder uses |
| Base64.Letter | src/rpc/mongoose.c:3850-3851 | The alphabet is the inverse of the decoder's table |
| Base64.AlphabetIs | src/rpc/mongoose.c:3850-3851 | The alphabet, letter by letter |
| Base64.NextValue | src/util/cdecode.c:46-54 | The inner loop skips what has no value |
| Base64.Take | src/util/cdecode.c:55-90 | One value completes the byte under way and begins the next |
| Base64.DecodeState.constructor | src/util/cdecode.c:27-31 | A fresh state is at the start of a group |
| Base64.DecodeState.DecodeBlock | src/util/cdecode.c:33-95 | One piece decoded from the carried state, the state carried on, nothing written beyond the byte under way |
| Base64.StreamIsWhole | src/util/cdecode.c:33-95 | Decoding a text split anywhere, state carried and outputs joined, is decoding it whole |
| Base64.OthersIgnored | src/util/cdecode.c:46-54 | Characters without a value make no difference |
| Base64.OutputIsShort | src/util/base64.cpp:48-49 | The output fits the size base64decode allocates |
| Base64.Base64Decode | src/util/base64.cpp:43-56 | Fewer than four characters give nothing, else the decoded text; the buffer always suffices |
| Base64.Base64Encode | src/rpc/mongoose.c:3849-3872 | The encoding with its padding and a NUL, and nothing else, is written |
| Base64.RoundTrip | src/rpc/mongoose.c:3849-3872 | base64decode of base64_encode gives every byte string back |
| Base64.WholeGroups | src/rpc/mongoose.c:3868-3870 | An encoding is a whole number of groups of four, at least one unless there was nothing to encode |
| Base64.GroupIsNumber | src/rpc/mongoose.c:3855-3866 | The letters of a group are the six-bit digits of the number its three bytes make |
| Base64.PaddedWithEquals | src/rpc/mongoose.c:3868-3871 | The letters, and then `=` up to a multiple of four |

## Left out

- Integer widths of positions and lengths: texts, buffers and patterns of 2^31 bytes and more, and the 64-bit overflow of `request_len + content_len`.
- `find_key_in_array`: a flat scan with a heuristic bound, not a tree operation.
- The iconv stage of `escape_json`: a foreign call.
- Cutting a head into fields, and the keep-alive decision: functions of the head in `HttpConnection`; `skip_quoted`, which does the cutting, is modelled on its own in `SkipQuoted`.
- HttpConnection.Connection.ProcessNewConnection: says nothing of a connection on which a read fails or times out, or during which the server is stopped.
- HttpConnection.Socket.Pull: reading through SSL or from a file is not told apart from reading a socket.
- Start-up of the pool, where `num_threads` is counted up outside the mutex, and the failure of a worker's or the master's allocation: the model starts after start-up.
- Sockets still queued when the server stops are dropped by the code; exactly-once delivery is stated while running.
- `MD5Transform` and `byteReverse`: the compression function is arbitrary, the machine little-endian. Md5.MgMd5 requires each string to be shorter than 2^32 bytes, as `MD5Update`'s parameter does.
- Glob.MatchPrefix: a byte behind an alternative's last `*` is taken not to be another `*`; the code looks at that byte, which is a bar, a comma or the end of the pattern.
- Uri.UrlEncode: which stale bytes stay in a buffer that is too small is not stated beyond termination.
- Form.GetVar: a NULL buffer or NULL data is an empty one; the destination does not overlap the data.
- Base64.ValuedExactly: for the character `{` the code reads the byte behind its table; the model takes that to be some byte that does not change, and everything holds for any such byte.
- The rest of the websocket block, SHA-1, SSL, CGI, SSI, WebDAV, file serving, logging, throttling and dates: input and output, and platform code.
- The SQLite layer, alert handling, RPC methods, authorization and hexadecimal helpers: thin layers over libraries that are not part of this model.
