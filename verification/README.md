# Verified models of Arqma's quorum mesh, messaging and tooling

Arqma is a service-node network. This project models, in Dafny, the parts of it whose correctness is
least obvious from reading them, and proves what they are for:

* **The quorum mesh** (`Mesh`, `MeshRuns`, `MeshGenerator`, `MeshCounting`, `MeshFaults`, `ConnMatrix`).
  A script builds, link by link, the mesh over which a quorum's nodes talk, until every two nodes have
  enough paths of at most two hops. The model has the script's matrix with its trial writes, the greedy
  scan, and the loop. It is proved that the loop ends for five or more nodes and only then, with the
  links of the only finished run there is; what every run keeps; how paths, links and degrees add up;
  exactly how many faults a pair of nodes survives; and that the printed matrix, compiled and walked by
  the node's iterators, gives each node its own peers.
* **ZeroMQ multipart messages** (`MultipartCodec`, `MultipartChannel`, `ChannelRuns`). The codec of
  ZeroMQ RFC 50 on arbitrary bytes, the multipart send and receive loops over a first-in first-out pipe,
  and the conservation of messages over every run of them.
* **The active poller** (`PollerModel`, `ActivePollers`). Handlers that are added and removed while
  events are dispatched, with an explicit heap: over every run the poller does what a plain table of
  callbacks does, and never follows a freed handler.
* **The soak monitor** (`SoakMonitor`). What its exit code says about the polls it made.
* **The translations header** (`LiteralText`, `EmbeddedFiles`, `HeaderNames`). The generated C++ is
  read back, under the rules of ISO/IEC 14882:2020, as the files it was made from, or not.
* **Onion routing** (`OnionLayers`, `OnionForward`, `OnionRoute`). Layers sealed for each hop, the
  forward frame and its inverse, and whole routes from the composing sender through the routers to
  the store.
* **The contacts file** (`PythonText`, `Contacts`). Reading, changing and writing back the whole file,
  whatever is in it and whatever is saved.

`Types`, `Seqs` and `Sums` hold shared types and facts about sequences and finite sums.
`dafny verify dfyconfig.toml` covers the whole project.

Where something the code or its documentation suggests does not hold, the project gives the exact
condition under which it does:

* The mesh generator can meet its target exactly for five or more nodes (`Mesh.GeneratorCanFinishIff`).
* A header holds exactly the files it was made from if and only if none of them is empty and no name
  has a quote, backslash or line end (`HeaderNames.HeaderReadsBackIff`). For an empty file no literal
  is opened (`EmbeddedFiles.BytesReadBackIff`); another name may close its literal and go on with
  declarations of its own, but then the longest such name is not in the table.
* `--min-ok-minutes` is documented as all required nodes staying good for this many minutes. The
  monitor can leave with 0 although they did not (`SoakMonitor.MayLeaveTooEarly`), because the poll
  that opens its window may have missed a node. When it leaves, they did stay good for that long
  exactly if that poll missed none, or the polls after it alone span the needed time
  (`SoakMonitor.StayedGoodIff`).
* A composed onion is stored as the payload it was made of exactly when every router on the way has a
  key and may forward to the next, the last has a working store, and the payload is not itself a
  forward frame (`OnionRoute.DeliveredIff`, `OnionRoute.FramedPayloadIsNotDelivered`).
* A saved contact is read back, and all others with it, exactly when its name is one word not starting
  with `#`, its key is one word whose lower case has 64 characters, and so have the other keys
  (`Contacts.SavedIff`). What any other save leaves is stated in full (`Contacts.SaveReads`), and with
  it when each other contact survives (`Contacts.OtherSurvivesIff`, `Contacts.OtherOverwritten`).

The model works on unbounded integers; widths that matter (bytes, the 32-bit size of a message part,
the 16-bit URL length) are written out. Clocks, the network, the allocator's choice of addresses and
the polling library's answers are parameters. Sealed boxes are any pair of functions where sealing may
fail and otherwise adds 48 bytes, and opening undoes it. Lower case is any function on strings that
keeps its own results and neither makes nor removes blanks.

## Model

| member | source | states |
|---|---|---|
| Mesh.PathsSymmetric | utils/generate-quorum-matrix.py:38-52 | the number of paths of at most two hops does not depend on the direction |
| Mesh.PathsBound | utils/generate-quorum-matrix.py:38-52 | no matrix gives a pair more than n - 1 paths |
| Mesh.CompletePaths | utils/generate-quorum-matrix.py:133-134 | a mesh with no free pair left gives every pair exactly n - 1 paths |
| Mesh.PathsMonotone | utils/generate-quorum-matrix.py:144 | adding links never costs any pair a path |
| Mesh.DeficientAntitone | utils/generate-quorum-matrix.py:102-108 | for every m, adding links never raises the number of pairs with at most m paths |
| Mesh.MinPathsMonotone | utils/generate-quorum-matrix.py:92-99 | adding links never lowers the least path count over all pairs |
| Mesh.TargetReachable | utils/generate-quorum-matrix.py:122-126 | some mesh gives every pair t paths if and only if t <= n - 1 |
| Mesh.GeneratorCanFinishIff | utils/generate-quorum-matrix.py:28-29 | with two or more nodes, some matrix meets the loop's exit test if and only if there are at least five |
| Mesh.FreeDegreeBound | utils/generate-quorum-matrix.py:127-137 | every free pair's degree sum is at most 2n - 2, so it beats the 2n the scan starts from |
| MeshGenerator.CollectNeighbours | utils/generate-quorum-matrix.py:42-48 | the two loops list every neighbour of the node once, and nothing else |
| MeshGenerator.CountPathsWithinTwo | utils/generate-quorum-matrix.py:38-52 | the count is the direct link plus the common neighbours, in either order of arguments; for a node and itself it is the neighbours |
| MeshGenerator.CountNotWithinTwo | utils/generate-quorum-matrix.py:102-108 | the count is the number of unordered pairs with at most the given number of paths |
| MeshGenerator.MinWithinTwo | utils/generate-quorum-matrix.py:92-99 | the least path count over all pairs; none with fewer than two nodes |
| MeshGenerator.RowSum | utils/generate-quorum-matrix.py:130 | the row sum is the number of links the node opens |
| MeshGenerator.ColumnSum | utils/generate-quorum-matrix.py:132 | the column sum is the number of links opened to the node |
| MeshGenerator.TryLink | utils/generate-quorum-matrix.py:135-141 | the trial write is undone, and the count is that of the matrix with the link |
| MeshGenerator.ScanPair | utils/generate-quorum-matrix.py:131-141 | one turn of the inner loop keeps the first least free pair of those scanned |
| MeshGenerator.Scan | utils/generate-quorum-matrix.py:127-141 | the matrix is as before, and the pair is the first in row-major order with the least (degree sum, pairs still deficient) of all free ordered pairs, or (0, 0) if none is free |
| MeshGenerator.LinkOnce | utils/generate-quorum-matrix.py:127-158 | one round links exactly the scan's choice and measures the new minimum |
| MeshGenerator.Generate | utils/generate-quorum-matrix.py:118-158 | terminates; the matrix holds exactly the links of the finished run, and every pair has the wanted number of paths |
| MeshRuns.ChoiceIff | utils/generate-quorum-matrix.py:127-141 | the pair that is linked next is a free one with the fewest outgoing and incoming links, of those one whose link leaves the fewest pairs deficient, and of those the first row by row; no other is |
| MeshRuns.ChoiceUnique | utils/generate-quorum-matrix.py:137-140 | at most one pair is the choice in a state |
| MeshRuns.ChoiceExists | utils/generate-quorum-matrix.py:127-141 | every mesh with a free pair has a choice |
| MeshRuns.SomeFree | utils/generate-quorum-matrix.py:126-134 | a mesh that misses a reachable target has a free pair |
| MeshRuns.RunIsSimple | utils/generate-quorum-matrix.py:133-144 | in every state of every run links join different nodes, are never doubled back, and number as many as the rounds made |
| MeshRuns.RunIsMonotone | utils/generate-quorum-matrix.py:126-158 | from any state of a run to any later one, the last included: links only grow, the least path count never falls, deficient pairs never grow for any m, and a run has at most n(n-1)/2 rounds |
| MeshRuns.RunDegreesRise | utils/generate-quorum-matrix.py:130-144 | the degree sum of the pair linked in a round is never below that of an earlier round |
| MeshRuns.RunPathTotal | utils/generate-quorum-matrix.py:38-62 | in every state of every run, the last included, the path total is the rounds made plus the neighbour pairs |
| MeshRuns.RunPathGrowth | utils/generate-quorum-matrix.py:144 | every round of a run raises the path total by 1 plus both degrees of the pair it links |
| MeshRuns.RunsAgree | utils/generate-quorum-matrix.py:118-158 | the generator is deterministic: any two runs agree as far as both go |
| MeshRuns.FinishedIff | utils/generate-quorum-matrix.py:28-29 | a run is finished if and only if every pair has four paths with up to ten nodes, and two with more |
| MeshRuns.RoundNeeded | utils/generate-quorum-matrix.py:126 | before every round of a run some pair had fewer paths than that |
| MeshRuns.FinishedUnique | utils/generate-quorum-matrix.py:126 | there is at most one finished run |
| MeshRuns.RunGoesOn | utils/generate-quorum-matrix.py:126-144 | for five or more nodes an unfinished run has a next round |
| MeshCounting.Handshake | utils/generate-quorum-matrix.py:78-87 | neighbour relations over all ordered pairs are twice the links |
| MeshCounting.PathTotalLaw | utils/generate-quorum-matrix.py:38-62 | in every mesh the paths summed over unordered pairs are the links plus, per node, deg(deg-1)/2 |
| MeshCounting.PathTotalGrowth | utils/generate-quorum-matrix.py:144 | linking a free pair raises the path total by exactly 1 + deg(a) + deg(b) |
| MeshCounting.LinkBudget | utils/generate-quorum-matrix.py:122-126 | t paths for every pair cost at least t n(n-1)/2 in links and neighbour pairs |
| MeshFaults.PartingFaults | utils/generate-quorum-matrix.py:38-52 | faults that part two nodes are at least as many as the paths between them |
| MeshFaults.SurvivesFaultsIff | utils/generate-quorum-matrix.py:3-11 | a pair has at least t paths if and only if every fewer than t dead nodes and broken links together leave it within two hops |
| MeshFaults.SurvivesCutsIff | utils/generate-quorum-matrix.py:3-11 | the same for broken links alone |
| MeshFaults.FinishedMeshSurvives | utils/generate-quorum-matrix.py:126-158 | in a finished mesh any two nodes stay within two hops after any three faults with up to ten nodes, and after any one fault with more |
| ConnMatrix.EmitMatrix | utils/generate-quorum-matrix.py:168-169 | the printed rows, read as an initialiser list, are the matrix in row-major order |
| ConnMatrix.FlagAt | src/arqnet/conn_matrix.h:59-69 | the flag of link (i, j) stands at i * n + j of the n * n flags |
| ConnMatrix.QuorumConnIterator.constructor | src/arqnet/conn_matrix.h:20-24 | the iterator starts at the first set flag of its row or column |
| ConnMatrix.QuorumConnIterator.Advance | src/arqnet/conn_matrix.h:43-46 | it moves to the next set flag, skipping none |
| ConnMatrix.Peers | src/arqnet/conn_matrix.h:36-46 | iterating from begin to end lists exactly the set flags in ascending order |
| ConnMatrix.OutgoingPeers | src/arqnet/conn_matrix.h:286-296 | a node's outgoing peers are exactly the nodes it opens links to |
| ConnMatrix.IncomingPeers | src/arqnet/conn_matrix.h:298-307 | its incoming peers are exactly the nodes that open links to it |
| MultipartCodec.U32RoundTrip | external/cppzmq/zmq_addon.hpp:135-160 | reading a written 32-bit size gives it back |
| MultipartCodec.U32Canonical | external/cppzmq/zmq_addon.hpp:148-160 | any four bytes are the writing of the size they are read as |
| MultipartCodec.NetworkOrder | external/cppzmq/zmq_addon.hpp:135-160 | of two sizes the smaller has the smaller byte where their writings first differ, so the most significant byte is first |
| MultipartCodec.SplitWire | external/cppzmq/zmq_addon.hpp:338-356 | frames at the start of any bytes are found, whichever header each has and whatever follows |
| MultipartCodec.SplitSound | external/cppzmq/zmq_addon.hpp:338-356 | the frames found and the rest make up the bytes, and no frame fits the rest |
| MultipartCodec.DecodesIff | external/cppzmq/zmq_addon.hpp:333-360 | bytes decode to given parts if and only if they are valid frames carrying them |
| MultipartCodec.RoundTrip | external/cppzmq/zmq_addon.hpp:278-360 | decoding the encoding of any encodable parts gives exactly those parts |
| MultipartCodec.EncodingOfOne | external/cppzmq/zmq_addon.hpp:280-312 | a part below 255 bytes is its size in one byte and itself; up to 2^32 - 1 bytes it is 255, its size in four bytes and itself; a longer one has no encoding |
| MultipartCodec.SizesInNetworkOrder | external/cppzmq/zmq_addon.hpp:299-305 | on the wire the headers of long parts compare, from the first byte on, as their sizes do |
| MultipartCodec.Reencode | external/cppzmq/zmq_addon.hpp:289-309 | re-encoding what decodes keeps the parts, saves exactly four bytes per five-byte header around a size below 255, and changes nothing if and only if there is none |
| MultipartCodec.DecodeJoined | external/cppzmq/zmq_addon.hpp:338-356 | after bytes that decode, more bytes decode if and only if they do alone, to the joined parts |
| MultipartCodec.LongestPrefix | external/cppzmq/zmq_addon.hpp:338-356 | the parts before an error are those of the longest prefix that decodes |
| MultipartCodec.EncodedSize | external/cppzmq/zmq_addon.hpp:280-292 | fails if and only if a part is over 2^32 - 1 bytes; otherwise the size is that of the encoding |
| MultipartCodec.PutPart | external/cppzmq/zmq_addon.hpp:296-312 | writes the part behind its one- or five-byte header and stops right after it |
| MultipartCodec.Encode | external/cppzmq/zmq_addon.hpp:278-316 | fails if and only if a part is too large; otherwise the buffer is filled exactly, with the encoding |
| MultipartCodec.ReadPart | external/cppzmq/zmq_addon.hpp:339-355 | reads the part at a position within bounds, or names the overflow |
| MultipartCodec.Decode | external/cppzmq/zmq_addon.hpp:333-360 | writes the parts of the frames found and reports which overflow stopped it, if any |
| MultipartChannel.Pipe.Send | external/cppzmq/zmq_addon.hpp:239-243 | a piece is refused only where a message starts and there is no room |
| MultipartChannel.Pipe.Recv | external/cppzmq/zmq_addon.hpp:115-119 | a piece is handed over only if its whole message is in the pipe |
| MultipartChannel.SendMultipart | external/cppzmq/zmq_addon.hpp:227-248 | all parts are sent with the right continuation flags, or none; it can fail only at the first part |
| MultipartChannel.RecvMultipart | external/cppzmq/zmq_addon.hpp:103-127 | unbounded: exactly the next message or nothing; bounded by n: the same if it has at most n parts, else exactly its first n; failure only before the first part |
| MultipartChannel.RestAfterTooMany | external/cppzmq/zmq_addon.hpp:110-114 | after a bounded receive gave up, for whatever limit, the next receive gets exactly the missing parts |
| MultipartChannel.Multipart.Prepend | external/cppzmq/zmq_addon.hpp:495-499 | other's parts in order, then its own; other is left empty |
| MultipartChannel.Multipart.Append | external/cppzmq/zmq_addon.hpp:502-506 | its own parts, then other's in order; other is left empty |
| MultipartChannel.Multipart.Recv | external/cppzmq/zmq_addon.hpp:454-471 | the parts become exactly the next message; false and empty if there is none |
| MultipartChannel.Multipart.Send | external/cppzmq/zmq_addon.hpp:474-492 | sends all parts as one message and empties itself; if refused, only the first part is gone |
| MultipartChannel.Multipart.DecodeAppend | external/cppzmq/zmq_addon.hpp:699-702 | appends the decoded parts, on malformed bytes those before the error |
| ChannelRuns.AssembleSend | external/cppzmq/zmq_addon.hpp:235-246 | pieces sent to a pipe add to its open message, or close it |
| ChannelRuns.AssembleFirst | external/cppzmq/zmq_addon.hpp:109-125 | the first whole message ends where the pipe says, and taking it leaves the others |
| ChannelRuns.AssembleCut | external/cppzmq/zmq_addon.hpp:109-114 | taking only some parts of it leaves the rest of that message and the others |
| ChannelRuns.NothingLost | external/cppzmq/zmq_addon.hpp:103-248 | over every run of sends and receives, bounded ones and those of multipart objects among them, what was received, what was taken of the next message, and what is in the pipe make up all that was sent, in order |
| ChannelRuns.ReceiveIsNext | external/cppzmq/zmq_addon.hpp:103-127 | after any run a receive gets exactly the next message sent, or, if its limit is lower than what is missing of it, exactly that many more of its parts; nothing only if all are taken or the limit is zero |
| ChannelRuns.AllArrive | external/cppzmq/zmq_addon.hpp:103-127 | after any run, as many receives as messages are missing get all that was sent |
| ChannelRuns.SentIsReceived | external/cppzmq/zmq_addon.hpp:175-248 | any sequence of non-empty messages arrives as it was sent |
| ChannelRuns.SplitSendIsOne | external/cppzmq/zmq_addon.hpp:206-217 | after any run, a message sent with sndmore and then its end counts as one sent in one call, and arrives so; if the first call is refused, the second sends the end alone |
| ChannelRuns.Perform | external/cppzmq/zmq_addon.hpp:103-492 | the real calls on a real pipe, with and without limits and on multipart objects, receive what the run model says |
| PollerModel.CallRefines | external/cppzmq/zmq_addon.hpp:742-806 | every add, remove and modify keeps the invariant and acts on the table of callbacks; one that throws changes nothing; what the snapshot owns stays |
| PollerModel.RebuildKeeps | external/cppzmq/zmq_addon.hpp:810-818 | rebuilding keeps the table, and leaves the snapshot owning exactly the current handlers with a slot for each |
| PollerModel.ReadyFits | external/cppzmq/zmq_addon.hpp:811-819 | the event buffer has room for everything that can be ready |
| PollerModel.DispatchRefines | external/cppzmq/zmq_addon.hpp:820-825 | whatever handlers add or remove meanwhile, every event calls the expected callback, none freed |
| PollerModel.WaitRefines | external/cppzmq/zmq_addon.hpp:808-827 | a wait calls, in order and up to the first that throws, the callbacks registered when it began |
| PollerModel.RunRefines | external/cppzmq/zmq_addon.hpp:742-827 | over every run of calls and waits the poller ends and calls handlers as a plain table of callbacks does |
| ActivePollers.ActivePoller.Add | external/cppzmq/zmq_addon.hpp:742-782 | with its rollback, the method is the machine's add and keeps the invariant |
| ActivePollers.ActivePoller.Remove | external/cppzmq/zmq_addon.hpp:784-796 | the method is the machine's remove and keeps the invariant |
| ActivePollers.ActivePoller.Modify | external/cppzmq/zmq_addon.hpp:798-806 | the method is the machine's modify and keeps the invariant |
| ActivePollers.ActivePoller.ListHandlers | external/cppzmq/zmq_addon.hpp:812-816 | the list has every handler of the map exactly once |
| ActivePollers.ActivePoller.TakeSnapshot | external/cppzmq/zmq_addon.hpp:810-818 | the method is the machine's rebuild; snapshot, event buffer and map have one size |
| ActivePollers.ActivePoller.DispatchEvents | external/cppzmq/zmq_addon.hpp:820-825 | the loop is the machine's dispatch, and every address it follows is live |
| ActivePollers.ActivePoller.Wait | external/cppzmq/zmq_addon.hpp:808-827 | the method is the machine's wait and keeps the invariant |
| SoakMonitor.SummaryOkMeans | utils/arqnet-mesh-soak-monitor.py:147-169 | the summary's test holds if and only if some node is good and, if all are required, none that answered is bad; errors are exactly the unreachable nodes |
| SoakMonitor.OpenedIsEarliest | utils/arqnet-mesh-soak-monitor.py:245-270 | the remembered start is the earliest start of any good window that ends at the poll |
| SoakMonitor.Monitor | utils/arqnet-mesh-soak-monitor.py:211-272 | with --once: 1 if any node was unreachable, 0 if all are good, 2 otherwise; else 0 at the first poll where the window has held, which on a clock that never goes back is the first that ends a window of sixty seconds for each asked minute, and never if none is asked for |
| SoakMonitor.HeldIff | utils/arqnet-mesh-soak-monitor.py:255-268 | if the clock never goes back, the window has held if and only if some run of good polls ending there spans sixty seconds for each asked minute |
| SoakMonitor.WindowReachesAll | utils/arqnet-mesh-soak-monitor.py:240-249 | in a window of good polls every poll after the first found all nodes good, and the first did if and only if it missed none |
| SoakMonitor.StayedGoodIff | utils/arqnet-mesh-soak-monitor.py:189-194 | when the window has held, all nodes stayed good for the needed time if and only if the poll that opened it missed none, or those after it alone span that time |
| SoakMonitor.MayLeaveTooEarly | utils/arqnet-mesh-soak-monitor.py:240-268 | polls after which the window has held although the nodes did not stay good for the needed time |
| SoakMonitor.SteadyRunsLeave | utils/arqnet-mesh-soak-monitor.py:255-272 | once good polls keep coming an interval apart, the monitor exits with 0 within as many polls as the needed time has intervals |
| LiteralText.DecimalReads | translations/generate_translations_header.c:54-65 | a printed decimal reads back as its number, up to the first non-digit |
| LiteralText.DecimalDigit | translations/generate_translations_header.c:54-65 | a printed decimal has its units last, its tens before them and so on, and no zero in front |
| LiteralText.QuotedReadsBackIff | translations/generate_translations_header.c:54 | a string quoted as it stands reads back as itself if and only if it has no quote, backslash or line end |
| EmbeddedFiles.EmitBytes | translations/generate_translations_header.c:56-64 | prints every byte as two hexadecimal digits, sixteen to a literal |
| EmbeddedFiles.LineOfBytes | translations/generate_translations_header.c:56-64 | the printed bytes are lines of one literal each, sixteen escapes to a line and fewer only on the last |
| EmbeddedFiles.EmitFile | translations/generate_translations_header.c:54-65 | prints one file's name, bytes and size |
| EmbeddedFiles.Generate | translations/generate_translations_header.c:46-82 | prints the whole header |
| EmbeddedFiles.BytesReadBackIff | translations/generate_translations_header.c:56-65 | the joined literals read back as the file's bytes if it has any, and as no literal at all if it has none |
| EmbeddedFiles.DataReadsIff | translations/generate_translations_header.c:55-65 | the data declaration reads back as a variable of its own name with the file's bytes, unless the file is empty |
| EmbeddedFiles.VarsDiffer | translations/generate_translations_header.c:54-55 | no two variables of a header have the same name |
| EmbeddedFiles.StructReads | translations/generate_translations_header.c:70-73 | the printed struct declares the name first and the contents second |
| EmbeddedFiles.RowReads | translations/generate_translations_header.c:76 | a printed row has the addresses of a file's name and contents, in this order |
| EmbeddedFiles.PlainHeaderReads | translations/generate_translations_header.c:46-82 | for plain names the header, read to its end, defines a table whose name and data fields are exactly the files' names and bytes in order if none is empty; if one is, the header cannot be read |
| HeaderNames.LiteralsInName | translations/generate_translations_header.c:54 | literals that start within a printed name end within it or at its closing quote, never beyond |
| HeaderNames.NotPlainIsShort | translations/generate_translations_header.c:54 | a name that is not plain is declared, if at all, with fewer units than it has characters |
| HeaderNames.DeclaredShort | translations/generate_translations_header.c:48-65 | whatever declarations names bring in, every variable but those of contents is plain or shorter than the longest name that is not, and the declarations end at the table or in a name |
| HeaderNames.TableNotInName | translations/generate_translations_header.c:54-82 | a table that a name brings in is never the one a header ends with |
| HeaderNames.HeaderReadsBackIff | translations/generate_translations_header.c:46-82 | the header's table holds exactly the files' names and bytes in order if and only if no file is empty and no name has a quote, backslash or line end |
| EmbeddedFiles.EntryNamed | translations/generate_translations_header.c:75-77 | a table entry matches a name if and only if the file printed there has it, and holds its bytes |
| EmbeddedFiles.FindEmbeddedFile | translations/generate_translations_header.c:26-36 | returns the contents of the first entry of that name, and fails if and only if there is none |
| OnionForward.FrameLayout | src/arq_messaging/onion_forward.hpp:14-31 | there is a frame if and only if the URL has 1 to 256 bytes and the onion any; it is A, R, Q, H, the URL's length with the low byte first, the URL and the onion |
| OnionForward.ParsesIff | src/arq_messaging/onion_forward.hpp:18-44 | bytes parse to a URL and onion if and only if they are the frame of them, and the onion is then at least 7 bytes shorter |
| OnionForward.EncodeOnionForward | src/arq_messaging/onion_forward.hpp:18-31 | succeeds if and only if the URL has 1 to 256 bytes and the onion any; fills the output with the frame, or leaves it alone |
| OnionForward.DecodeOnionForward | src/arq_messaging/onion_forward.hpp:33-44 | succeeds exactly on frames; fills both outputs, or leaves both alone |
| OnionForward.PeelNestTimes | src/arq_messaging/onion_forward.hpp:18-44 | nesting k hops and decoding k times gives the URLs in order and the payload, whatever it is |
| OnionForward.PeelNest | src/arq_messaging/onion_forward.hpp:17-44 | peeling nested frames gives the URLs in order and goes on into the payload |
| OnionForward.NestPeel | src/arq_messaging/onion_forward.hpp:33-44 | any bytes are the nest of the URLs peeled off them around a core that is no frame |
| OnionLayers.WrapOnionLayer | src/arq_messaging/onion_layer.cpp:33-47 | fails if and only if the inner onion is over the limit or sealing fails, naming which; otherwise the layer is 48 bytes longer, and its hop peels it to the inner onion unless it has grown over the limit |
| OnionLayers.BuildOnion | src/arq_messaging/onion_layer.cpp:49-72 | fails without touching the output for no or too many hops or too large a payload, clears it if sealing fails, and otherwise fills it with the payload sealed for all hops; the layer limit is never met |
| OnionLayers.PeelFails | src/arq_messaging/onion_layer.cpp:41-47 | opening a layer fails with a message size if and only if it is over 96 KiB, with an invalid argument if and only if it is under 48 bytes, and otherwise with a denied permission exactly when the key does not open it |
| OnionLayers.PeelOnion | src/arq_messaging/onion_layer.cpp:74-97 | opens one layer a hop in order; any failure after the arguments clears the output |
| OnionLayers.PeelsWhatWasBuilt | src/arq_messaging/onion_layer.cpp:49-97 | the hops, in order, peel a built onion to the payload it was built of; it has 48 bytes more for each hop |
| OnionRoute.ComposeOnionRoute | src/arq_messaging/onion_layer.cpp:99-131 | no route or too large a payload leave the output alone, a URL that does not fit or a failing seal clear it, whichever comes first from the last hop on; otherwise it is the nested layers; the ciphertext limits never bite |
| OnionRoute.ComposesIff | src/arq_messaging/onion_layer.cpp:107-125 | a route composes only if each URL after the first fits a frame, and if sealing never fails exactly then; only such a URL makes an argument invalid |
| OnionRoute.ForwardedTwice | src/arq_router/router_http.cpp:78-96 | whatever a router is handed, it is sent on at most twice in all |
| OnionRoute.RouteFollowed | src/arq_router/router_http.cpp:71-112 | if every router has a key and may forward to the next, a composed onion passes the hops' URLs in order, and the last router gets the payload |
| OnionRoute.RouteBlocked | src/arq_router/router_http.cpp:38-96 | if some router has no key or may not forward to the next, it is stored nowhere |
| OnionRoute.DeliveredIff | src/arq_router/router_http.cpp:71-116 | it is stored as the payload it was made of, after all hops in order, if and only if every router has a key and may forward to the next, the last has a working store, and the payload is not itself a frame |
| OnionRoute.FramedPayloadIsNotDelivered | src/arq_router/router_http.cpp:86-103 | a payload that is a frame is not stored as it is |
| PythonText.SplitAt | utils/arqma-msg-ui.py:111 | any line end but a carriage return before a line feed ends the first line of a text, and the rest splits as if alone |
| PythonText.SplitAtPair | utils/arqma-msg-ui.py:111 | a carriage return with a line feed is one line end |
| PythonText.SplitJoin | utils/arqma-msg-ui.py:111 | a written line end separates the lines before it from those after it, whatever the texts |
| PythonText.WordAt | utils/arqma-msg-ui.py:115 | any blank ends the first word of a text, and the rest splits as if alone |
| PythonText.WordsOfStrip | utils/arqma-msg-ui.py:112-115 | stripping a text does not change its words |
| PythonText.PrecedesIff | utils/arqma-msg-ui.py:126 | a string precedes another if and only if it is a proper beginning of it, or has the lower code point where they first differ |
| Contacts.ContactOnMeans | utils/arqma-msg-ui.py:112-117 | a line holds its first two words as a contact unless the first starts with '#' or the second has not 64 characters |
| Contacts.LoadContacts | utils/arqma-msg-ui.py:106-118 | the loop reads the contact on every line, later lines winning |
| Contacts.AsciiLowers | utils/arqma-msg-ui.py:117 | the lower case of ASCII text keeps its own results, blanks and lengths, as the other results ask |
| Contacts.LoadIsClean | utils/arqma-msg-ui.py:111-117 | whatever the file holds, every name read is one word not starting with '#' and every key one lower-case word |
| Contacts.LoadIsFull | utils/arqma-msg-ui.py:116-117 | if lower case keeps lengths, every key read has 64 characters |
| Contacts.SortNames | utils/arqma-msg-ui.py:126 | all the names and no others, and of any two the one listed first is a proper beginning of the other or has the lower code point where they first differ |
| Contacts.LineLayout | utils/arqma-msg-ui.py:126 | what is written for a contact is its name, one space, its key and a line feed |
| Contacts.RenderReads | utils/arqma-msg-ui.py:106-126 | a clean book written out is read back without the keys that do not have 64 characters, so as it was if and only if all have |
| Contacts.SaveContact | utils/arqma-msg-ui.py:121-126 | the file becomes the old contacts with the one changed, written in order |
| Contacts.SaveReads | utils/arqma-msg-ui.py:106-126 | what any save leaves, whatever the name and key: the old contacts before the name, then what the saved text reads as, then those behind, later ones winning, and of the old ones those whose key has 64 characters |
| Contacts.OtherSurvivesIff | utils/arqma-msg-ui.py:121-126 | another contact survives a save if and only if its key has 64 characters and the saved text does not go after it with another key for its name, or that text restores it |
| Contacts.OtherOverwritten | utils/arqma-msg-ui.py:121-126 | saving under a name of two words, the second as long as a key, gives the contact of the first word that key |
| Contacts.SavedIff | utils/arqma-msg-ui.py:106-126 | after a save the file reads as the old contacts with that one changed if and only if the name is one word not starting with '#', the key one word whose lower case has 64 characters, and so have the other keys |
| Contacts.RunOfSaves | utils/arqma-msg-ui.py:121-126 | after each of a run of clean saves the file reads as the first contacts with the saves so far applied |

## Left out

- MeshGenerator.Generate: requires a reachable target (five or more nodes); below two nodes the script stops with an error, and with two to four its loop never ends.
- Mesh generator display: trace output, tables, colours and `within_two_matrix`, which only feeds them.
- ConnMatrix.EmitMatrix: the line that names the C++ array and its size is not modelled, only the rows.
- ConnMatrix.QuorumConnIterator.constructor: quorum sizes without a matrix are excluded; there the source throws for node 0 only, since for any other node an offset is added to the null pointer before it is tested, and memory at that offset is read.
- MultipartCodec.Encode: sizes are unbounded integers, so wrap-around of the total message size in `size_t` is not modelled.
- MultipartCodec: the big-endian host branch, which copies the four size bytes as they are.
- MultipartChannel.Pipe.Send: the socket is a first-in first-out pipe that takes and delivers messages whole, as ZeroMQ promises; its body is library code.
- MultipartChannel.Multipart.Append: appending or prepending an object to itself, which would not end, is excluded.
- multipart_t accessors, typed pushes and pops, `str`, `clone` and comparison: one-line operations.
- ActivePollers.ActivePoller.Wait: a wait inside a handler is excluded; it would overwrite, and may move, the event buffer that the outer dispatch is walking. Timeouts and hashing are not modelled.
- SoakMonitor.Monitor: times are exact reals, a poll's answers are inputs, and the failure sums that are only printed are omitted.
- EmbeddedFiles.Generate: files that cannot be opened, which end the program, and files of 2^31 bytes or more, whose count overflows an `int`.
- LiteralText.QuotedReadsBackIff: universal character names and escapes the standard leaves to the compiler are read as errors.
- HeaderNames.HeaderReadsBackIff: the reader takes string variables, the struct, the rows and the lookup function, in the generator's spacing; other C++ that a name might bring in, comments, macros and preprocessor lines among it, is read as an error.
- OnionForward.EncodeOnionForward: an output that is also the input is excluded; the source would then insert a vector into itself by its own iterators, which C++ leaves undefined.
- OnionRoute.DeliveredIff: key generation, HTTP paths and tokens are not modelled; each router is assumed to answer at its URL with the key the sender used, and which URLs a router may forward to is a parameter of its store's URL.
- Contacts.SavedIff: the lower-case tables of Unicode are not modelled; lone surrogates, which cannot be written to the file, are not characters here.
- Consensus, wallet, daemon and the rest of the repository.
