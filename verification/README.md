# Verified model of the sylar core

This project models the parts of the sylar server framework and its client twin that carry state, and proves what
they are for. `dafny verify dfyconfig.toml` checks all of it.

* **Messages over the wire** (`Bytes`, `Blocks`, `Vectored`, `ByteArray`, `Codec`, `Messages`, `Transport`, `Streams`,
  `EndToEnd`, `Delivery`). The byte array is a chain of equally sized nodes with a cursor, as the program builds it;
  every operation is proved against one flat byte string. On top of it: the three message kinds byte by byte, the vectored TLS
  calls, the stream's cursor arithmetic, the fixed-size loops, and a FIFO between two ends whose calls interleave
  freely. The connection logs every TLS call with its answer, so that each operation says which calls it makes. Server and client have the same codec and the same loops and differ only in where the chunk limit comes
  from, so one model with the limit as a parameter serves both.
* **The module registry** (`Registry`, `ModuleManager`, `ModuleThreads`). The critical sections are functions on the
  two indexes; the manager runs them as one thread does; the last file lets any number of threads interleave them,
  one critical section or callback at a time.
* **Configuration** (`Config`, `ConfigPaths`, `ConfigReload`). Flattening with pruning, what the names and the order
  mean on the document's own paths of keys, loading, and the modification-time cache of the directory loader.
* **The environment** (`Env`), **sockets and their handles** (`SocketLife`, `Socket`) and **the thread start
  handshake** (`ThreadStart`, `Thread`).

What the proofs brought to light, each with its exact condition and an input that shows it:

* Delivery of messages is exact unless a text has 2^32 bytes or more and loses its length, or an empty text ends
  exactly at the array's capacity and makes the reader dereference a null node (`EndToEnd.MessagesArrive`; the second
  case happens in `EndToEnd.EmptyTextIsLost`).
* A vectored call that fails after whole buffers have moved reports none of them, and the cursor lags behind what the
  peer has seen. It can happen exactly when the request crosses a node border (`Vectored.NoLagIffOneNode`); otherwise,
  and in the fixed-size loops when the failing chunk does not cross one, nothing is lost.
* Overlapping `add`s of one id can leave a stale entry in the type index, exactly when the id may carry two types
  (`ModuleThreads.AgreementNeedsOneKindPerId`).
* A module id stands for one name and version exactly when neither holds a slash (`Registries.IdsIdentify`).
* The comment on `Config::Lookup` in `sylar/sylar/config.h` promises names over `[0-9a-z_.]`; the code's alphabet has
  no `9`, there and in the loader. The model follows the code (`Configs.NineIsNotAccepted`).
* Skipping unchanged configuration files equals reloading them all exactly under the three conditions of
  `ConfigReloads.IncrementalIsFullReload`; a variable that two files set differently, a zero modification time, or a
  changed effect under an unchanged time (a load that failed, say) each break it.
* `accept` loses the new handle when `init` refuses it, and only then (`SocketLives.NothingIsLostIff`,
  `SocketLives.RefusedHandleIsLost`).
* The current-thread pointer of a running thread dangles exactly when its `Thread` object is destroyed before `run` has
  finished; an owner that joins first is safe (`ThreadStarts.DanglingIffDestroyedEarly`).

Assumptions. Message type codes are 1, 2 and 3, as the program's headers define them. A byte array's byte
order is fixed while it is in use. Transfer counts, handles, connection results, file contents and modification times
come from outside: they are chosen freely, within what the platform guarantees (a call moves no more than it was asked
to, and a handle that is open is not handed out again). Module ids and types do not change after construction. A map is
iterated in no particular order, so listings are compared as multisets. Each critical section of the module manager is
one step, since a lock guards it.

## Model

| member | source | states |
|---|---|---|
| `ByteArrays.ByteArray.Write` | sylar/sylar/protocol.cpp:50-54 | as relied on here and built in `sylar/sylar/bytearray.cpp`, lines 414-455: the bytes land at the cursor, over old data and growing past it, across any number of nodes; capacity grows by the fewest nodes that fit; the cursor ends behind them |
| `ByteArrays.ByteArray.Read` | sylar/sylar/protocol.cpp:60-63 | as relied on here and built in `sylar/sylar/bytearray.cpp`, lines 457-492: exactly the next bytes and a moved cursor, `out_of_range` with nothing moved when too few are readable, and a null current node exactly when nothing is asked for at full capacity |
| `ByteArrays.ByteArray.GetReadBuffers` | sylar/sylar/stream/socket_stream.cpp:61-63 | as relied on here and built in `sylar/sylar/bytearray.cpp`, lines 660-693: the buffers cover exactly the next readable bytes, at most `length` of them, in order, without gap, overlap or empty buffer; the cursor stays |
| `ByteArrays.ByteArray.GetWriteBuffers` | sylar/sylar/stream/socket_stream.cpp:37-39 | as relied on here and built in `sylar/sylar/bytearray.cpp`, lines 733-764: the buffers cover exactly the next `length` bytes behind the cursor, growing the chain by the fewest nodes; stored data and cursor stay |
| `ByteArrays.ByteArray.SetPosition` | sylar/sylar/stream/socket_stream.cpp:41-43 | as relied on here and built in `sylar/sylar/bytearray.cpp`, lines 526-544: moving the cursor by what was transferred keeps the current node right and makes the bytes passed over part of the data; positions beyond the capacity are refused |
| `ByteArrays.ByteArray.TilesDisjoint` | sylar/sylar/stream/socket_stream.cpp:37-39 | as relied on here and built in `sylar/sylar/bytearray.cpp`, lines 733-764: no two buffers of one call share a byte of memory |
| `ByteArrays.ByteArray.TilesGather` | sylar/sylar/stream/socket_stream.cpp:61-63 | as relied on here and built in `sylar/sylar/bytearray.cpp`, lines 660-693: the buffers in order hold exactly the flat bytes between cursor and cursor plus n |
| `ByteArrays.ByteArray.ScatterIsSplice` | sylar/sylar/stream/socket_stream.cpp:37-39 | as relied on here and built in `sylar/sylar/bytearray.cpp`, lines 733-764: filling the front of the buffers replaces exactly the flat bytes behind the cursor and no other |
| `Codec.WordRoundTrip` | sylar/sylar/protocol.cpp:29-30 | a 32-bit field read back in the byte order it was written in is the value written |
| `Codec.TakesText` | sylar/sylar/protocol.cpp:54-63 | a length-prefixed text reads back exactly, unless it was too long for its 32-bit length or is empty at full capacity; what then happens is stated |
| `Codec.ParseRoundTrip` | sylar/sylar/protocol.cpp:34-83 | wherever a body stands and whatever follows it, parsing gives the message back if and only if its text fits and is not an empty text ending at the capacity, and then consumes exactly its own bytes |
| `Codec.DecodeRoundTrip` | sylar/sylar/protocol.cpp:26-83 | the same with the type byte in front |
| `Codec.EncodingIsPrefixFree` | sylar/sylar/protocol.cpp:26-83 | no message's bytes are a prefix of another's: equal byte strings start with equal messages and leave equal rests |
| `Codec.DecodeAllRoundTrip` | sylar/sylar/protocol.cpp:26-83 | a whole list of messages decodes to itself if and only if every text fits and the list does not end in an empty text that fills the capacity |
| `Codec.RequestLayout` | sylar/sylar/protocol.cpp:26-32 | a request is the byte 1, then sn and cmd at offsets 1 and 5, each as four bytes by weight, least significant first unless swapped |
| `Codec.ResponseLayout` | sylar/sylar/protocol.cpp:48-56 | a response is the byte 2, then sn, cmd and result at offsets 1, 5 and 9, the length of its text at 13 modulo 2^32, and the text |
| `Codec.NotifyLayout` | sylar/sylar/protocol.cpp:72-77 | a notification is the byte 3 and its number at offset 1 |
| `Codec.RequestFields` | sylar/sylar/protocol.cpp:34-39 | parsing a request assigns sn and cmd from offsets 0 and 4, each if its four bytes are there |
| `Codec.ResponseFields` | sylar/sylar/protocol.cpp:58-65 | parsing a response assigns sn, cmd and result from offsets 0, 4 and 8, each if its bytes are there, and the text if its length, its bytes and a node for the cursor are |
| `Codec.NotifyFields` | sylar/sylar/protocol.cpp:79-83 | parsing a notification assigns the number if its four bytes are there |
| `Messages.RequestMessage.SerializeToByteArray` | sylar/sylar/protocol.cpp:26-32 | at the cursor stand the byte 1, sn at offset 1 and cmd at offset 5; the rest of the data is left alone |
| `Messages.RequestMessage.ParseFromByteArray` | sylar/sylar/protocol.cpp:34-39 | sn is the number in the first four bytes, cmd that in the next four, each assigned if its bytes are there; success exactly when both are; the data is not changed |
| `Messages.ResponseMessage.SerializeToByteArray` | sylar/sylar/protocol.cpp:48-56 | at the cursor stand the byte 2, sn, cmd and result at offsets 1, 5 and 9, the length of the text at 13 and the text behind it; the rest of the data is left alone |
| `Messages.ResponseMessage.ParseFromByteArray` | sylar/sylar/protocol.cpp:58-65 | sn, cmd and result are the numbers at offsets 0, 4 and 8, each assigned if its bytes are there, also when the text then fails; success exactly when the text is there |
| `Messages.NotifyMessage.SerializeToByteArray` | sylar/sylar/protocol.cpp:72-77 | at the cursor stand the byte 3 and the number at offset 1; the rest of the data is left alone |
| `Messages.NotifyMessage.ParseFromByteArray` | sylar/sylar/protocol.cpp:79-83 | the number is that in the first four bytes, assigned exactly when they are there; the data is not changed |
| `Deliveries.ToByteArray` | sylar/sylar/protocol.cpp:7-17 | a new array that holds exactly the message's encoding, cursor at its end |
| `Deliveries.SerializeAll` | sylar/sylar/protocol.cpp:26-77 | a list of messages written one after another is the concatenation of their encodings |
| `Deliveries.DecodeOne` | client/sylar/protocol.cpp:34-83 | calls these parses by the dispatch of `client/sylar/rock_protocol.cpp`, lines 249-270: the type byte picks the message object that parses the rest; an unknown type, or a parse that fails, gives none: the codec's decoding |
| `Deliveries.SendMessages` | sylar/sylar/stream.cpp:72-85 | the connection has accepted all bytes of the messages, or a proper prefix of them and then the result is not positive |
| `Deliveries.ReceiveArray` | client/sylar/stream.cpp:26-38 | a successful read leaves a rewound array that holds exactly the next bytes of the connection |
| `Deliveries.ReceiveMessages` | client/sylar/stream.cpp:26-38 | when what arrives is what the peer serialized, a successful read decodes to exactly those messages, with the two exceptions as an if-and-only-if |
| `Transport.SslSocket.SendV` | sylar/sylar/socket.cpp:705-722 | the SSL calls made, as logged: with a session one per buffer in order, up to the first that does not send its whole buffer, and none without; result and bytes moved are what these calls report, and exactly that many leading bytes of the concatenated buffers went out |
| `Transport.SslSocket.RecvV` | sylar/sylar/socket.cpp:744-761 | the mirror image with the same log: the bytes that arrived fill the buffers from the front, in order; memory outside the buffers is untouched |
| `Transport.SslSocket.RecvOne` | sylar/sylar/socket.cpp:750-751 | one call fills its buffer from the front, which splices the concatenation at the buffer's offset |
| `Transport.SslSocket.SslWrite` | sylar/sylar/socket.cpp:696-703 | a send moves a positive number of leading bytes, or none and reports failure; it is logged with its size and answer |
| `Transport.SslSocket.SslRead` | sylar/sylar/socket.cpp:736-742 | a receive stores a positive number of the next bytes, or none and reports failure; it is logged with its size and answer |
| `Streams.SocketStream.WriteArray` | sylar/sylar/stream/socket_stream.cpp:56-72 | the cursor advances by what the result reports; a failure leaves moved bytes uncounted only if the request crosses a node border; with a session the calls logged are those of the request's pieces along node borders and result and bytes moved are what they report, without one there is no call |
| `Streams.SocketStream.ReadArray` | sylar/sylar/stream/socket_stream.cpp:31-46 | what arrives is stored behind the cursor; cursor and size advance by what the result reports; the same rules for uncounted bytes and for the calls |
| `Streams.SocketStream.Receive` | sylar/sylar/stream/socket_stream.cpp:37-39 | a vectored receive into the array's own memory changes exactly the bytes behind the cursor |
| `Streams.SocketStream.WriteBuffer` | sylar/sylar/stream/socket_stream.cpp:48-54 | one logged call for all of the data, or none without a session; it moves a prefix of the data |
| `Streams.SocketStream.ReadBuffer` | sylar/sylar/stream/socket_stream.cpp:23-29 | one logged call for the whole buffer, or none without a session; it fills a prefix of the buffer |
| `Streams.SocketStream.WriteFixArray` | sylar/sylar/stream.cpp:72-85 | the calls logged are those of rounds that each ask for the rest, up to the chunk limit and what is readable, all but the last having moved bytes; stopping short with a session and bytes to offer takes a failing call whose answer is the result; success moves exactly the next `length` bytes in order, failure a strictly shorter exact prefix; bytes beyond it are lost only if the failing chunk crosses a node border; up to 2^31-1 bytes the result is `length` exactly on success and not positive exactly on failure |
| `Streams.SocketStream.ReadFixArray` | sylar/sylar/stream.cpp:37-51 | the mirror image, with the same rounds, the same only way to stop short, the same rule for lost bytes and the same reading of the result; on success the chain has grown for exactly `length` more bytes |
| `Streams.SocketStream.WriteFixBuffer` | sylar/sylar/stream.cpp:53-70 | the flat form: the log is exactly one call per chunk, each for the rest up to the chunk limit, and a last one that failed with the result if the loop stops short; a failure has moved a strictly shorter prefix and nothing else; the result reads as above |
| `Streams.SocketStream.ReadFixBuffer` | sylar/sylar/stream.cpp:17-33 | the flat form with the same log: the buffer's front holds exactly what was taken off the connection, the rest is untouched; the result reads as above |
| `Transport.SslSocket.RecvNext` | sylar/sylar/socket.cpp:750-758 | one more call after full buffers adds what it stores to the bytes stored so far |
| `Streams.RoundLeads` | sylar/sylar/stream.cpp:72-83 | a round whose calls report bytes leads on to the next, any other ends the loop with what its calls report |
| `Vectored.StopsOnlyOnFailure` | sylar/sylar/stream.cpp:72-85 | a loop that stops short of its length with bytes left to offer ends with a call whose answer is its result and not positive; with none left it returns 0 |
| `Vectored.MadeIsTransfer` | sylar/sylar/socket.cpp:705-722 | the calls made and the vectored loop over everything the platform might have answered tell the same result and the same bytes |
| `Vectored.FailureIsAnswered` | sylar/sylar/socket.cpp:711-715 | a vectored call over something makes a call, and a failure it reports is the answer of its last one |
| `Vectored.CursorIsExactIff` | sylar/sylar/socket.cpp:710-721 | over every list of answers the platform may give, the cursor ends at the bytes moved if and only if there is no second buffer |
| `Vectored.NoLagIffOneNode` | sylar/sylar/stream/socket_stream.cpp:61-66 | what a caller can check: the cursor can never lag behind the bytes moved if and only if the request lies in one node of the byte array |
| `Vectored.FullThenFailLags` | sylar/sylar/socket.cpp:711-715 | the input that shows it: a full first buffer and a failing second one move bytes that the result does not report |
| `Vectored.TransferFacts` | sylar/sylar/socket.cpp:710-721 | a positive result is what was moved; a failure never moved everything |
| `Vectored.OneNodePart` | sylar/sylar/stream.cpp:72-83 | a chunk lies in one node if the whole request does, wherever the transfers before it stopped |
| `Streams.CallCount` | sylar/sylar/stream.cpp:72-85 | a completed transfer takes at least the number of full chunks and at most one call per byte |
| `EndToEnd.RunKeepsInv` | sylar/sylar/stream.cpp:37-85 | over every interleaving of sender and receiver calls, received, in flight and unsent bytes together are the bytes to send |
| `EndToEnd.BytesArrive` | client/sylar/stream.cpp:26-67 | whatever the chunking on both ends, what has arrived is a prefix of what was sent, and a finished reader has exactly all of it |
| `EndToEnd.MessagesArrive` | sylar/sylar/protocol.cpp:26-83 | after every interleaving in which the reader finishes, decoding gives exactly the messages sent, if and only if no text is too long and the last message does not end in an empty text that fills the last block |
| `EndToEnd.RunsAreShort` | sylar/sylar/stream.cpp:37-85 | every run ends within two calls per byte and one failure per end |
| `EndToEnd.CanGoOn` | sylar/sylar/stream.cpp:37-85 | no deadlock: until both ends are done or one has failed, one of them can move bytes |
| `EndToEnd.EveryOutcomeHappens` | sylar/sylar/stream.cpp:37-85 | the interleavings cover the loops: any two logs that the loops can report, with failures and the bytes a failing call moved, occur in some run |
| `EndToEnd.LoopsReport` | sylar/sylar/stream.cpp:37-85 | however a loop over a byte array ends, its chunks and its lost bytes are such a log |
| `EndToEnd.EmptyTextIsLost` | sylar/sylar/protocol.cpp:48-65 | the exception occurs: with 17-byte nodes, a response with an empty text arrives in full in every finishing run and does not decode to itself |
| `EndToEnd.EmptyTextIsSent` | sylar/sylar/protocol.cpp:48-65 | and a finishing run of that response exists for all positive chunk limits |
| `Registries.IdsIdentify` | sylar/sylar/module.cpp:15-23 | an id tells its module apart by name and version if and only if neither of the two holds a slash |
| `Registries.AgreeIsGrouping` | sylar/sylar/module.cpp:110-116 | the two indexes agree exactly when the type index is the id index grouped by type, without empty groups |
| `Registries.DelKeepsFiled` | sylar/sylar/module.cpp:118-133 | the delete section keeps every registered module filed under its id and type, and leaves no empty bucket |
| `Registries.InsertKeepsFiled` | sylar/sylar/module.cpp:113-115 | so does the insert section |
| `Registries.DelKeepsAgreement` | sylar/sylar/module.cpp:118-133 | deleting never breaks the agreement of the indexes |
| `Registries.InsertKeepsAgreement` | sylar/sylar/module.cpp:113-115 | inserting keeps the agreement if and only if it does not overwrite a module of another type |
| `Registries.DelMovesOne` | sylar/sylar/module.cpp:122-128 | the delete section takes exactly the module it returns out of the registered ones |
| `Registries.InsertMovesOne` | sylar/sylar/module.cpp:113-115 | the insert section adds exactly its module, less the one it overwrites |
| `ModuleManagers.ModuleManager.Del` | sylar/sylar/module.cpp:118-135 | removes the module from both indexes and fires its callback once, after the lock was released |
| `ModuleManagers.ModuleManager.Add` | sylar/sylar/module.cpp:110-116 | one thread's `add` replaces the module of that id in both indexes, unloads the old one once, and keeps the agreement whatever the two types are |
| `ModuleManagers.ModuleManager.DelAll` | sylar/sylar/module.cpp:137-146 | alone, it unloads every registered module exactly once and leaves both indexes empty, except for stale entries that were there before |
| `ModuleManagers.ModuleManager.Init` | sylar/sylar/module.cpp:148-160 | sorts the listing and adds the modules of its files in that order; from an empty registry each id ends bound to the module of the greatest path that yields it, in whatever order the paths are listed |
| `ModuleManagers.SortingSorts` | sylar/sylar/module.cpp:155 | the sorted listing is in order |
| `ModuleManagers.BeforeIsBelow` | sylar/sylar/module.cpp:155 | the order of paths is ascending: a proper prefix comes first, otherwise the smaller character where the two first differ |
| `ModuleManagers.SortedOutcome` | sylar/sylar/module.cpp:155-158 | the last file of the sorted listing that yields an id is the greatest path that does |
| `ModuleManagers.LoadingFilesIntoEmpty` | sylar/sylar/module.cpp:148-160 | each id ends bound to the module of the last file that yields it, each superseded module was unloaded once, and the indexes agree |
| `ModuleManagers.LastIsFromLastFile` | sylar/sylar/module.cpp:217-223 | files that yield no module are passed over and the last one that yields an id decides it |
| `ModuleManagers.AddAllLastWins` | sylar/sylar/module.cpp:110-116 | adding modules one after another binds each id to the last that carries it, and to the old one if none does |
| `ModuleManagers.AddAllConserves` | sylar/sylar/module.cpp:110-135 | what was registered or added is registered or was unloaded, each exactly once |
| `ModuleManagers.ModuleManager.ListAll` | sylar/sylar/module.cpp:197-203 | appends every registered module once to the caller's vector |
| `ModuleManagers.ModuleManager.ListByType` | sylar/sylar/module.cpp:205-215 | appends every module of that bucket once |
| `ModuleManagers.ListByTypeFilters` | sylar/sylar/module.cpp:197-215 | while the indexes agree, listing by type is listing all with the other types left out |
| `SocketLives.NothingIsLostIff` | sylar/sylar/socket.cpp:228-233 | every open handle has an owner if and only if `init` refused no accepted handle; then destroying all sockets closes everything created |
| `SocketLives.RefusedHandleIsLost` | sylar/sylar/socket.cpp:209-234 | the loss occurs: one socket that accepts one connection on a handle the table does not list leaves that handle open without an owner |
| `ModuleThreads.EveryRunIsFiled` | sylar/sylar/module.cpp:110-146 | in every interleaving of `add`, `del` and `delAll`, each id maps to a module of that id that is also filed under its type, and no bucket is empty |
| `ModuleThreads.EveryRunConserves` | sylar/sylar/module.cpp:110-135 | in every interleaving, inserted modules are registered, removed or overwritten, and removed ones are unloaded once or still about to be |
| `ModuleThreads.RunsWithoutOverlapAgree` | sylar/sylar/module.cpp:110-116 | while adds of one id do not overlap, nothing is overwritten, the indexes agree, and inserted equals registered plus removed |
| `ModuleThreads.AgreementNeedsOneKindPerId` | sylar/sylar/module.cpp:110-116 | with two threads or more, every interleaving keeps the agreement if and only if the modules that may be added never give one id two types |
| `ModuleThreads.OverlapLeavesStaleEntry` | sylar/sylar/module.cpp:110-116 | two overlapping adds of one id with two types leave a module listed by type that is not registered |
| `ModuleThreads.DelAllLeavesOnlyLaterModules` | sylar/sylar/module.cpp:137-146 | whatever is registered when a `delAll` returns was inserted by an action after its snapshot |
| `ModuleThreads.EveryRunHasItsHistory` | sylar/sylar/module.cpp:137-146 | the recorded times name the very actions that inserted a module or took a snapshot |
| `ModuleThreads.UninterruptedAdd` | sylar/sylar/module.cpp:110-116 | an `add` that no other thread interrupts does what the one-thread manager does |
| `ModuleThreads.UninterruptedDel` | sylar/sylar/module.cpp:118-135 | the same for `del` |
| `ModuleThreads.UninterruptedDelAll` | sylar/sylar/module.cpp:137-146 | the same for `delAll`, in whatever order it turns to the registered ids |
| `ConfigReloads.ListAllMember` | sylar/sylar/config.cpp:17-30 | appends to the caller's list exactly the pruned pre-order flattening: the nodes in document order, each with its text under the name that reads, between its dots, as the prefix and the node's path of keys |
| `Configs.PruningIsFiltering` | sylar/sylar/config.cpp:17-30 | cutting whole subtrees at an invalid name gives exactly the full pre-order flattening filtered by name validity, empty keys included |
| `ConfigPaths.EverythingListsNodes` | sylar/sylar/config.cpp:17-30 | the full flattening lists every node at its place in document order, under the name that its keys spell, with its text |
| `ConfigPaths.AddressesAreOrdered` | sylar/sylar/config.cpp:24-28 | that order is strict and covers every node: a node before what is in it, a member before the later ones |
| `ConfigPaths.JoinedParts` | sylar/sylar/config.cpp:27 | a member's name splits at its dots into the prefix's pieces and the key's; an empty prefix leaves no trace |
| `ConfigPaths.SplitIsInjective` | sylar/sylar/config.cpp:27 | two names with the same pieces are the same name |
| `ConfigPaths.PlainKeys` | sylar/sylar/config.cpp:27 | for non-empty keys without dots the pieces are the keys themselves |
| `Configs.LowerOfValid` | sylar/sylar/config.cpp:43 | the conversion to lower case changes no key that flattening emits |
| `Configs.NineIsNotAccepted` | sylar/sylar/config.cpp:18 | the accepted names are the documented ones without the digit nine |
| `Configs.LoadingSetsLastValues` | sylar/sylar/config.cpp:32-57 | each registered variable gets the value of the last pre-order node anywhere in the tree that carries its name and converts; all others keep theirs |
| `ConfigReloads.Config.LoadFromYaml` | sylar/sylar/config.cpp:32-57 | each registered variable gets the converted text of the last node, in document order, whose path of keys its name splits into at the dots and whose text converts; all others stay; the same as the effect of the previous rows |
| `ConfigPaths.LoadingFollowsPaths` | sylar/sylar/config.cpp:32-57 | what loading sets, stated on the nodes and their keys without the flattened list |
| `ConfigPaths.PathIsLoaded` | sylar/sylar/config.cpp:32-57 | when no key is empty, dotted or repeated, the variable whose name splits at its dots into a node's path of keys gets that node's text |
| `ConfigReloads.Config.LoadFromConfDir` | sylar/sylar/config.cpp:62-92 | variables and remembered times after one call, forced or not; a file never seen counts as seen at time zero and a failed load is remembered |
| `ConfigReloads.LoadFileMerges` | sylar/sylar/config.cpp:74-84 | a file that is not skipped overrides exactly the variables it sets |
| `ConfigReloads.IncrementalIsFullReload` | sylar/sylar/config.cpp:62-92 | over every run of calls and all starting values, skipping unchanged files equals a full reload if and only if equal times of a path mean equal effects, a version with time zero has none, and two files never set a variable differently |
| `ConfigReloads.OwnedVariablesAreHarmless` | sylar/sylar/config.cpp:70-77 | non-zero times that change with the content and one owner per variable are enough |
| `ConfigReloads.EditedFileWins` | sylar/sylar/config.cpp:70-80 | when two files set one variable, editing the first makes it win over the second until a full reload |
| `Envs.Env.Init` | sylar/sylar/env.cpp:33-68 | the loop over the arguments computes the parser's answer and assigns exactly the completed items in order |
| `Envs.AcceptsTheGrammar` | sylar/sylar/env.cpp:33-68 | accepted are exactly the renderings of items `-key [value]`; the items are unique; a failure keeps exactly the items completed before the bad argument and drops a key that still waits |
| `Envs.LastItemWins` | sylar/sylar/env.cpp:70-74 | the last item of a key decides its value |
| `Envs.NoItemKeeps` | sylar/sylar/env.cpp:70-74 | a key without an item keeps what it had |
| `Envs.OptionsRoundTrip` | sylar/sylar/env.cpp:33-68 | parsing any rendering of a map with non-empty keys and values that do not start with a dash, from an empty environment, gives the map back |
| `Envs.Env.RemoveHelp` | sylar/sylar/env.cpp:103-115 | the erase-while-iterating loop ends and equals an order-preserving filter |
| `Envs.Env.AddHelp` | sylar/sylar/env.cpp:96-101 | the key is moved to the end with its new description |
| `Envs.HelpListIsSurvivors` | sylar/sylar/env.cpp:96-115 | after any run of operations the list holds exactly the additions that no later operation on their key undoes, in that order |
| `Envs.HelpKeysAreUnique` | sylar/sylar/env.cpp:96-115 | no key is ever listed twice |
| `Envs.SurvivorIsLast` | sylar/sylar/env.cpp:96-115 | a listed description is the one of its key's last operation |
| `Sockets.Socket.constructor` | sylar/sylar/socket.cpp:58-65 | a new socket has no handle and is not connected |
| `Sockets.Socket.NewSock` | sylar/sylar/socket.cpp:562-574 | takes over the offered handle if the system can create it, every other open handle stays as it was; a failure changes nothing |
| `Sockets.Socket.Close` | sylar/sylar/socket.cpp:341-354 | afterwards the socket has no handle and is not connected, and exactly its own handle is gone from the open ones; the result is true when there was nothing to close |
| `Sockets.Socket.Connect` | sylar/sylar/socket.cpp:282-313 | success exactly when the family fits, there is a handle, old or created, and the attempt succeeds; then the socket is connected on that handle; a failed attempt to the right family leaves no handle, another family leaves the connection as it was; every other open handle stays |
| `Sockets.Socket.Reconnect` | sylar/sylar/socket.cpp:315-323 | success exactly when an address is remembered and connecting to it succeeds; without one nothing changes |
| `Sockets.Socket.Bind` | sylar/sylar/socket.cpp:236-280 | success exactly when the family fits, there is a handle, nothing is found listening on a unix address, and the system binds; it exchanges no handle but its own |
| `Sockets.Socket.Probe` | sylar/sylar/socket.cpp:257-268 | true exactly for a unix address to which a temporary socket connects; that socket is closed again |
| `Sockets.Socket.Accept` | sylar/sylar/socket.cpp:209-234 | a new connected socket exactly when the system accepts on a new handle that the descriptor table lists, and it owns that handle; otherwise no new handle is open unless the table refused it |
| `Sockets.Socket.SslAccept` | sylar/sylar/socket.cpp:643-666 | the same, with the handshake as a further condition; a failed one closes the accepted handle |
| `SocketLives.ConnectOutcome` | sylar/sylar/socket.cpp:282-313 | connecting succeeds if and only if family, handle and attempt allow it, and which handle the socket ends with |
| `SocketLives.BindOutcome` | sylar/sylar/socket.cpp:236-280 | the same for binding, with the probe of a unix address |
| `SocketLives.AcceptOutcome` | sylar/sylar/socket.cpp:209-234 | the same for accepting, with and without TLS, and the socket it gives |
| `SocketLives.ConnectExchanges` | sylar/sylar/socket.cpp:282-313 | connecting changes no other socket's handle; a failed attempt to the right family leaves no handle |
| `SocketLives.ProbeExchanges` | sylar/sylar/socket.cpp:255-268 | the temporary socket of `bind` leaves every open handle as it was |
| `SocketLives.SslAcceptAccounts` | sylar/sylar/socket.cpp:796-812 | an accepted handle is owned, closed or lost; it is lost exactly when the descriptor table does not list it |
| `SocketLives.EveryRunAccounts` | sylar/sylar/socket.cpp:209-354 | over every run of any number of sockets, each open handle has exactly one owner or is lost, and nothing is closed twice |
| `SocketLives.HandlesAreConserved` | sylar/sylar/socket.cpp:209-354 | handles created are the handles closed, plus those owned by live sockets, plus one per `accept` whose handle the table did not list; connected sockets own an open handle |
| `ThreadStarts.EveryRunKeepsInv` | sylar/sylar/thread.cpp:29-82 | the protocol invariant over every interleaving of constructor, new thread, join and destruction |
| `ThreadStarts.ReturnedIsPublished` | sylar/sylar/thread.cpp:45-78 | when the constructor has returned the id is set, the object's callback is empty and held only by `run`, the name is known on both sides, UNKNOW for the empty one, and the thread is joinable until it is joined |
| `ThreadStarts.CallbackRunsOnceAfterRelease` | sylar/sylar/thread.cpp:68-82 | the callback starts at most once and never before the release, exactly once when `run` has finished, and `run` never touches an object that is gone |
| `ThreadStarts.ThrowingStartsNothing` | sylar/sylar/thread.cpp:36-44 | the constructor throws exactly when the thread is not spawned, and then the callback never starts |
| `ThreadStarts.ConstructorCanReturn` | sylar/sylar/thread.cpp:45-78 | no deadlock: from every state of a started construction the constructor can still return |
| `ThreadStarts.NothingTouchedAfterRelease` | sylar/sylar/thread.cpp:78-81 | over all runs: once the semaphore is released, `run` accesses the object no more, alive or not |
| `ThreadStarts.DanglingIffDestroyedEarly` | sylar/sylar/thread.cpp:48-52 | the rule for owners: the current-thread pointer dangles in no state of a run if and only if no action destroys the object before `run` has finished |
| `ThreadStarts.JoinedIsSafe` | sylar/sylar/thread.cpp:54-66 | destroying a joined thread's object is never too early |
| `ThreadStarts.CallbackMayOutliveObject` | sylar/sylar/thread.cpp:48-52 | the case occurs: an object destroyed as soon as its constructor returns is gone while the callback runs |
| `Threads.Thread.constructor` | sylar/sylar/thread.cpp:29-35 | the members before the thread is spawned are those of the machine's first step; the empty name becomes UNKNOW |
| `Threads.Thread.Keep` | sylar/sylar/thread.cpp:38 | storing the thread handle is the machine's step |
| `Threads.Thread.Acquire` | sylar/sylar/thread.cpp:45 | with a permit, taking it is the step after which the constructor returns |
| `Threads.Run` | sylar/sylar/thread.cpp:68-78 | the statements before the callback are the machine's five steps: id set, callback swapped out and the object's left empty, one permit released |
| `Threads.PrologueIsRun` | sylar/sylar/thread.cpp:68-78 | from every reachable entry, five steps of the new thread are exactly those statements |
| `Threads.ThreadLocals.SetName` | sylar/sylar/thread.cpp:19-27 | the empty name changes nothing; any other renames the thread and the object its pointer names, and nothing else of it |

## Left out

- The rest of the byte array: variable-length and zigzag integers, floating point, files, hex dumps, reads at a given position.
- The Rock frame header and its compression, and the request and response bookkeeping of client and server streams.
- The client's plain `Socket::send` and `recv`, which ignore the call's error result; both ends use the TLS socket here.
- Transport.SslSocket.SendV: vectors of more than 2^31-1 bytes in all, whose `int` total overflows and has no defined value.
- Transport.SslSocket.RecvV: the same.
- Streams.SocketStream.WriteArray: requests for which more than 2^31-1 bytes are readable, for the same reason.
- Streams.SocketStream.ReadArray: requests of more than 2^31-1 bytes, for the same reason.
- Streams.SocketStream.WriteFixArray: a negative chunk limit, which turns into a huge request that can move more than `length` bytes.
- Streams.SocketStream.ReadFixArray: a negative chunk limit, which asks the array for more memory than there is.
- Deliveries.SendMessages: what a result means for 2^63 bytes and more, where the loop moves nothing.
- The growth of the byte array rounds with floating point in the program; the model rounds up exactly.
- ModuleManagers.ModuleManager.Init: directory listing and dynamic loading are parameters: the listed paths, and which of them yield a module.
- ModuleManagers.ModuleManager.DelAll: the unload callback does not call back into the manager.
- `ModuleManager::foreach`, `onConnect` and `onDisconnect`, which call back over a listing.
- YAML parsing and emission: a document is a ready tree, and a node knows the text a variable is set from.
- ConfigReloads.Config.FromString: change listeners and their exceptions are not modelled.
- ConfigReloads.Config.LoadFromConfDir: the file listing is a parameter and one call runs without other threads between its files.
- UDP sockets, which are marked connected even when no handle was created; addresses, options, timeouts and certificates.
- Sockets.Socket.Connect: the TLS handshake after it is not modelled; when it fails the call reports failure and the socket stays connected.
- Sockets.Socket.Init: keeps the remote address only, not the local one.
- Envs.Env.Init: the executable's path, working directory and the process environment are not modelled.
- Envs.Env.AddHelp: one thread; it is two critical sections in the program.
- Scheduler, fibers, timers and the I/O completion port.
