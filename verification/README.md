# nocc, verified

nocc is a distributed C++ compiler. A client daemon finds the files a `.cpp` depends on, uploads to a server the
ones it lacks, and receives the object file over a stream that many compilations share. This project models the
parts of it where correctness is not visible in any single function, and proves what they promise:

- **The own includes parser** (`include_scanner.dfy`, `include_resolution.dfy`, `own_includes_parser.dfy`,
  `paths.dfy`). A scanner that jumps from one `#` or `/` to the next is proved to return what an automaton returns
  that reads every character; it loops forever exactly on the files that stop in a line comment after a `#`, and
  goes out of range exactly under two conditions on the last `#`. The recursive search over it, with its visited map
  and the daemon-wide cache, is proved to return the depth-first list of reached files, which is duplicate-free
  and exact reachability; any sequence of runs over one cache answers as if there were no cache. What the automaton
  and the resolution mean is said apart from them: which directives a text has, line by line, in which order the
  directories are searched, and what an include_next may find.
- **The LRU file cache** (`lru_model.dfy`, `file_cache.dfy`). Pointers, table, byte total and directory refine, in any
  run of saves, look-ups, purge rounds and drops, a sequence of cells, most recently used first, and what the tail
  pointer is still at. The purge keeps the longest prefix that fits. `DropAll` as coded leaves a stale tail: which
  runs lose a file after it, and from which states the purge never ends, is given exactly, and the evident repair is
  proved to be one.
- **Server sessions** (`session_model.dfy`, `server_sessions.dfy`). The objects of a connected client refine a small
  state machine, replies included. Which reply a start gets and which files it asks for; no lost wake-up; started
  means launched, once and with all files there, or served from the object cache; and exactly when a session can wait
  for a file that nobody is asked for.
- **Delivery** (`delivery.dfy`). Client and server as interleaved steps: sessions are conserved under every
  interleaving; no invocation waits in vain, and each one is told after a bounded number of receives, if and only
  if a dead stream ends at once on the server and no object is empty.
- **The object stream** (`obj_stream.dfy`). Chunking, short reads, `.gcno` behind `.o`, disk errors.
- **Text and byte formats** (`own_pch.dfy`, `own_pch_file.dfy`, `dep_files.dfy`, `gcno_patch.dfy`, with `text.dfy` and
  `sha256.dfy`). Round trips with their exact conditions.
- **Invocation counters** (`invocation_counters.dfy`). Two wait groups under every interleaving of loads,
  compare-and-swaps and releases, with every way out of the invocation, and the two windows in which one goes wrong.
- **Servers that go down, and the choice of a server** (`remote_loss.dfy`, `routing.dfy`).

What the program does step by step on its own data is written as methods with loops and as classes, each proved
against a specification function or predicate. What happens between threads, or between client and server, is a
state machine whose steps are the program's atomic steps.

## Assumptions

- The file system, the `-I` lists and the hash function do not change during the runs of the includes parser. There
  is no `.nocc-pch` file, and no directive leads to a path that ends like one; looking for them, and remembering that
  they are not there, is modelled.
- File cache operations come one after another (the program holds a mutex in each). A handler of the server
  (one session start, one finished upload) is one step for `server_sessions.dfy`: `file.state` has no lock, so this
  is an assumption about the program. Under it the second look-up of `client.go:183-187` never finds anything.
- In `delivery.dfy` one client talks to one server; every send, receive and channel operation is a step.
- A byte is a `char` in the text formats. FNV and SHA-256 values are inputs.

## Where the program does not do what its surroundings expect

- `collectIncludeStatementsInFile` never returns on a file whose last line is like `// #x` without a newline, and
  fails on a file that ends within five bytes after its last `#` when the buffer is full, or that begins with its
  last `#` and `#endif`: `ScanLoop`, `CollectForRounds`, `TroublesomeFiles`, `UnscannableFiles`.
- `#include ""` and `#include <>` read a character that is not there, and an include_next may cut more off a path than
  it has: `WalkToCurrentDir`, `FailingDirectives`.
- `DropAll` clears `lruHead` twice and never `lruTail`. The purge then walks the forgotten nodes. A file saved again
  under the key of any of them but the first is deleted on the way and stays in the list; and once the first is
  reached no round removes anything, so that the purge never returns while the total is over the limit:
  `FileCache.DropAll`, `ResavedIsLost`, `LosesExactlyWhen`, `PurgeEndsExactly`, `EndlessExactlyWhen`.
- A start refused because a system header differs leaves its new files marked as being uploaded, though the client
  is asked for none of them. A later session that requires one is registered and waits for it, until a start finds
  that the upload hangs: `TwoStartsStrand`, `StrandsExactlyWhen`, `MissedIsAskedFor`.
- The periodic purge may not end while saving does, as it is held to 80% of the limit: `SoftPurgeMayNotEnd`.
- An object file without bytes and notes is sent in no chunk; the client never hears of it: `SilentIsEmpty`,
  `ForgetsExactlyWhen`.
- The separator of a `.nocc-pch` file ends with its own beginning, so contents that do not contain it can still be
  cut short: `Borders`.
- A `.nocc-pch` file is saved without complaint when an argument contains a space, when its lines do not fit into
  32 KiB, or when it has no dependencies; it is not read back: `ParsesExactly`.
- An interrupt before `wgRecv.Add` drives that wait group below zero; one between the store of the upload counter and
  `wgUpload.Add` does so with the other: `GoesNegativeExactlyWhen`. The daemon registers the invocation before it adds.
- An interrupt while dependencies are collected is harmless to the wait groups but does not release the uploads that
  start afterwards: `InterruptTooSoon`; exactly when the wait for them is over says `AllReleased`.
- The report of a stream that breaks before its new connection is in the list of servers is lost, and the
  connection then looks fine: `DiesSilentlyExactlyWhen`.
- A comment at `coverage.go:56-61` leaves open how exactly the four layouts exclude each other; they do for every
  string without a NUL except the empty one and, in little-endian files, `\x01` and `\x02`: `UnambiguousExactly`.

## Model

| member | source | states |
|---|---|---|
| IncludeScanner.ScanLoop | internal/client/own-includes-parser.go:280-363 | the jumping loop returns what the character-by-character automaton returns on the same text, and ends, within one round per character, exactly when the text does not stop in a line comment after a `#` |
| IncludeScanner.CollectForRounds | internal/client/own-includes-parser.go:250-366 | on any file: out of range iff one of the two slice bounds fails; otherwise, if it ends, the directives of the whole file; it ends iff the text looked at does not stop in such a comment |
| IncludeScanner.CollectIncludeStatementsInFile | internal/client/own-includes-parser.go:250-366 | on every file on which neither happens, the directives of the whole file |
| IncludeScanner.DirectiveLine | internal/client/own-includes-parser.go:309-362 | for any blanks and any text: `#include "text"` gives that name in quotes, `<text>` the name in brackets, include_next the same as such, and an argument not closed on its line nothing; what is behind the closing character is read as if it stood alone |
| IncludeScanner.OtherDirective | internal/client/own-includes-parser.go:309-340 | any other directive, a name that only begins like include or include_next, and one without an argument give nothing |
| IncludeScanner.OtherText | internal/client/own-includes-parser.go:282-308 | nor does any other character, or a slash that opens no comment |
| IncludeScanner.Comments | internal/client/own-includes-parser.go:282-308 | nor does anything in a line or block comment, closed or not, whole directives included; `/*/` is a comment |
| IncludeScanner.BehindWholeLines | internal/client/own-includes-parser.go:250-366 | behind any whole lines a text is read as if it stood alone, or else as if it stood in a block comment, and not the latter if they open none |
| IncludeScanner.WindowSuffices | internal/client/own-includes-parser.go:263-275 | cutting the buffer after the line of the last `#` that is not `#endif` loses no directive |
| IncludeScanner.NewLineEndedFileIsFine | internal/client/own-includes-parser.go:263-275 | a file ending with a newline never makes the loop restart forever |
| IncludeScanner.TroublesomeFiles | internal/client/own-includes-parser.go:263-310 | the texts on which the loop turns back forever or a slice is out of range, for any spare buffer behind them that is long enough, or too short |
| IncludeScanner.InNone | internal/client/own-includes-parser.go:282-308 | one round outside a directive follows the automaton over all the characters it jumps |
| IncludeScanner.InDirective | internal/client/own-includes-parser.go:309-362 | one round inside a directive follows the automaton |
| IncludeScanner.SkipToCommentEnd | internal/client/own-includes-parser.go:296-303 | the block-comment loop stops where the automaton leaves the comment, or nowhere |
| IncludeScanner.DirectiveName | internal/client/own-includes-parser.go:309-327 | the two slice comparisons tell include, include_next and anything else apart as reading letter by letter does |
| IncludeResolution.DfsIsReachability | internal/client/own-includes-parser.go:101-174 | the search terminates on cyclic includes, finds no file twice, and finds exactly the files reachable by first-existing-path resolution |
| IncludeResolution.DfsAppend | internal/client/own-includes-parser.go:134-171 | searching a list of files is searching its parts one after another, so results may be reused |
| IncludeResolution.WalkToCurrentDir | internal/client/own-includes-parser.go:179-246 | resolving a directive reads and cuts within range exactly under the condition the other results ask for |
| IncludeResolution.IncludeNextExactly | internal/client/own-includes-parser.go:179-197 | with i the first tried path made from a directory the current file lies in, an include_next means the first existing one of the paths after i, and nothing if there is no such i; it fails iff some path up to there is shorter than the name |
| IncludeResolution.SearchOrder | internal/client/own-includes-parser.go:215-246 | any other name is looked for, if quoted, beside the current file and then in the -iquote directories, and after that in the -I and at last in the -isystem directories, each list from its front; an absolute one means itself |
| IncludeResolution.RootsExactly | internal/client/own-includes-parser.go:394-424 | the search starts from what `<stdc-predef.h>` means, which comes first, what the -include files mean, and what the .cpp's own directives mean, and from nothing else |
| Paths.JoinExactly | internal/client/own-includes-parser.go:221-246 | joining an absolute directory and a name appends the name's elements, `..` takes one back, `.` none |
| Paths.DirExactly | internal/client/own-includes-parser.go:222-222 | the directory of a path is all of it but its last element |
| Paths.CleanIsProper | internal/client/own-includes-parser.go:221-246 | a cleaned absolute path has no empty, `.` or `..` element, and cleaning it again changes nothing |
| Paths.CleanRelative | internal/client/own-includes-parser.go:221-246 | a relative path of such elements is not changed, and the empty one is `.` |
| IncludeResolution.FailingDirectives | internal/client/own-includes-parser.go:179-246 | empty names, in either form, and an include_next whose name outgrows its path fail |
| OwnIncludesParsing.OwnIncludesParser.OnHashInclude | internal/client/own-includes-parser.go:101-174 | a directive's file is found as resolution says, and the list grows by exactly the depth-first search from it; cache and visited map stay right |
| OwnIncludesParsing.OwnIncludesParser.ResolveIncludedArg | internal/client/own-includes-parser.go:179-246 | cache, absolute names and the walk over all directories together give the first existing path |
| OwnIncludesParsing.OwnIncludesParser.ProcessHFile | internal/client/own-includes-parser.go:368-392 | everything reachable through a new file is searched, and what is cached of it is true |
| OwnIncludesParsing.OwnIncludesParser.ProcessCppInFile | internal/client/own-includes-parser.go:394-424 | stdc-predef.h, the -include files and the .cpp are searched in this order; a `.nocc-pch` is looked for where the program does, not found, and changes no answer |
| OwnIncludesParsing.CollectDependentIncludesByOwnParser | internal/client/own-includes-parser.go:426-443 | with any sound cache the result is the cache-free one, in names, sizes, hashes and order; the cache stays sound |
| OwnIncludesParsing.CollectForMany | internal/client/own-includes-parser.go:426-443 | any sequence of runs over one cache, starting empty, answers each .cpp as if alone |
| OwnIncludesParsing.UnscannableFiles | internal/client/own-includes-parser.go:250-275 | with the buffer the program really has: a file `// #x` loops, a file `#endif` and every file of 32 KiB or more that ends with `#` fail |
| OwnIncludesParsing.ExpectedIsWhatIsReached | internal/client/own-includes-parser.go:426-443 | the list returned names each reached file once, and no other, each with the size and hash of its contents |
| OwnIncludesParsing.CachedExactlyWhen | internal/client/own-includes-parser.go:69-97 | a file may be remembered over runs iff it lies in no -I directory, and in an -isystem directory or behind `/kphp/cl/` or `/kphp/cl_l/` anywhere in its path |
| OwnIncludesParsing.NewFirstDirKeepsAnswer | internal/client/includes-cache.go:23-56 | after a new first -I directory, a remembered answer stays right iff the name is not there, or is the answer |
| FileCaching.FileCache.LookupInCache | internal/server/file-cache.go:67-88 | a hit moves to the front, the others keep their order, and sets a stale tail pointer right iff it is the last of several; a miss changes nothing |
| FileCaching.FileCache.AddFile | internal/server/file-cache.go:102-134 | a file that can be linked goes to the front if its key is new; under a present one the cache stays as it is and the new link is removed |
| FileCaching.FileCache.SaveFileToCache | internal/server/file-cache.go:102-134 | then the purge brings the cache to the first state within the hard limit, or never ends; it ends iff such a state exists |
| FileCaching.FileCache.PurgeLastElementsTillLimit | internal/server/file-cache.go:169-187 | wherever the tail pointer is, the loop ends iff some number of rounds reaches the limit, at the first one that does, and within as many as there are keys to pass |
| FileCaching.FileCache.PurgeLastElementsIfRequired | internal/server/file-cache.go:136-138 | the same under the soft limit |
| FileCaching.FileCache.PurgeRound | internal/server/file-cache.go:172-186 | one round, whatever the tail points to: it moves back by one and what the table has under its key goes; with no predecessor nothing happens |
| FileCaching.FileCache.DropAll | internal/server/file-cache.go:155-167 | table, list and directory are empty, but the tail is still the old one, linked to its predecessors: the invariant holds afterwards iff the tail was nowhere |
| FileCaching.FileCache.DropAllAndTail | internal/server/file-cache.go:155-167 | with the tail cleared, the invariant holds |
| FileCaching.Run | internal/server/file-cache.go:67-187 | over every run of saves, look-ups, purge rounds and drops, the objects and pointers stay what the sequence of cells says |
| LruModel.SoundStays | internal/server/file-cache.go:67-187 | every operation but DropAll keeps a sound cache sound, and DropAll does iff it is empty; a round removes the least recently used file |
| LruModel.OrderIsRecency | internal/server/file-cache.go:67-134 | over every run without DropAll the list is in the order in which its keys were last used, by a look-up that found them or the save that brought them: what a round takes is the least recently used |
| LruModel.FoundWasSaved | internal/server/file-cache.go:67-134 | over every run, DropAll included, what is found under a key was saved under it, with that name and size |
| LruModel.PathsDiffer | internal/server/file-cache.go:102-104 | no two saves of a run get the same path |
| LruModel.OnlyPurgeRemoves | internal/server/file-cache.go:67-187 | only DropAll and purge rounds remove a file, and a round none but that of the tail's key |
| LruModel.SoftIsFourFifths | internal/server/file-cache.go:55-65 | the soft limit is four fifths of the hard one, rounded down |
| LruModel.PurgeEndsExactly | internal/server/file-cache.go:169-187 | from any state, sound or not, some number of rounds gets down to the limit iff the files whose keys the tail will not pass fit it |
| LruModel.PurgedIsFirst | internal/server/file-cache.go:169-187 | stopping at the first state within the limit is what the purge does, whatever the number of rounds |
| LruModel.RemainingIsHead | internal/server/file-cache.go:169-187 | in a sound cache these files are the most recent one alone |
| LruModel.KeepsLongestPrefix | internal/server/file-cache.go:169-187 | from a sound cache the purge leaves a sound one: the longest prefix of most recently used files within the limit |
| LruModel.SoftPurgeMayNotEnd | internal/server/file-cache.go:55-65 | for every limit but 0 there is a cache that no number of rounds gets down to the soft limit though it is within the hard one; these are the caches whose most recent file is between the two |
| LruModel.KeptUnlessDropped | internal/server/file-cache.go:155-187 | while the tail is stale, a file saved since under a key that was not dropped, or under that of the most recent file, is not removed |
| LruModel.ResavedIsLost | internal/server/file-cache.go:155-187 | under any other dropped key it loses its table entry, its bytes in the total and its disk file once the stale tail gets there, while its node stays in the list |
| LruModel.OnlyResavedIsLost | internal/server/file-cache.go:155-187 | no other run loses a file, and one in which a look-up sets the tail right has a sound cache again |
| LruModel.LosesExactlyWhen | internal/server/file-cache.go:155-187 | some run after DropAll loses a file iff it dropped more than one |
| LruModel.EndlessExactlyWhen | internal/server/file-cache.go:155-187 | with files none of which exceeds the limit, some run leads to a purge that never ends iff DropAll may be used and the limit is not 0 |
| ServerSessions.Client.StartCompilationSession | internal/server/nocc-server.go:106-228 | reply and new state are those of the state machine: which conflict, which differing header, cache hit or which files to upload; the one session launched is the new one, iff it waits for nothing |
| ServerSessions.Client.LookAtFiles | internal/server/nocc-server.go:171-219 | the loop over the files gives the states, the files to ask for and the differing header of the state machine |
| ServerSessions.Client.UploadFinished | internal/server/nocc-server.go:235-297 | the file named, and no other, is Uploaded afterwards if it was received and its pch compiled, else UploadError, and is no longer asked for; a saved file launches exactly the sessions it was the last missing one of, a failed one none; an unknown session or index changes nothing |
| ServerSessions.Client.LaunchCxxOnReadySessions | internal/server/nocc-server.go:47-53 | launches exactly the registered sessions whose files are all uploaded and which were not launched before |
| ServerSessions.Client.StartCompilingObjIfPossible | internal/server/session.go:104-114 | launches iff all files are uploaded and it was not launched before |
| ServerSessions.Client.StartUsingFileInSession | internal/server/client.go:176-200 | a name stands for one content while the client is connected; another hash is refused |
| ServerSessions.Client.CloseSession | internal/server/client.go:130-140 | a closed session is gone, its object file too unless it belongs to the object cache, and no other session is affected |
| ServerSessions.Client.CxxEnded | internal/server/cxx-launcher.go:95-137 | the compiler leaves an object file of a launched session, or none |
| ServerSessions.Serve | internal/server/nocc-server.go:106-297 | over any run of handler steps the objects stay what the state machine says; a session is started iff launched or served from the object cache, launched at most once, and at a moment when all its files were uploaded |
| SessionModel.ConflictExactlyWhen | internal/server/nocc-server.go:121-134 | a start is refused for a conflict iff some required name is known, or required before, under another hash |
| SessionModel.ConflictNamesFirst | internal/server/client.go:108-120 | the first such file is named; and without one every required name is known by the hash required |
| SessionModel.DiffersExactlyWhen | internal/server/nocc-server.go:171-194 | it is refused for a differing header iff some required file is a system header that differs and that nobody looked at before |
| SessionModel.NeededExactly | internal/server/nocc-server.go:171-219 | the files asked for are exactly those that nobody looked at and the server cannot provide, those whose upload failed and those whose upload hangs |
| SessionModel.RepliesExactly | internal/server/nocc-server.go:121-228 | which reply a start gets: the first clashing name; else the object cache's answer; else the first new system header that differs; else the needed files, in the order required |
| SessionModel.FailedIsAskedAgain | internal/server/nocc-server.go:204-216 | in every run: after the last upload of a file failed, the next start that requires it asks for it |
| SessionModel.NewlyUploading | internal/server/nocc-server.go:171-219 | unless it is refused, a start asks for every file it marks as being uploaded |
| SessionModel.InvStep | internal/server/nocc-server.go:106-297 | after any step of a handler: every registered session that is not started misses a file, and has been looked at as a whole; what was asked for is being uploaded, and if no header differed the other way round |
| SessionModel.InvAlways | internal/server/nocc-server.go:106-297 | the first two hold in every run: no wake-up is lost |
| SessionModel.MissedIsAskedFor | internal/server/nocc-server.go:171-228 | in a run in which no start was refused for a differing header, what a waiting session misses failed, or was asked for and is on its way |
| SessionModel.TwoStartsStrand | internal/server/nocc-server.go:171-228 | two starts with the same differing header: the second session waits for a file that nobody is asked for |
| SessionModel.StrandsExactlyWhen | internal/server/nocc-server.go:171-228 | some run leaves a session waiting so iff a system header may differ |
| Delivery.SessionConservation | internal/server/nocc-server.go:318-389 | in every run, however late a dead stream is noticed: each session is in exactly one place, is completely sent at most once, and its object file exists while it can be taken or given back |
| Delivery.ConservedStep | internal/server/nocc-server.go:318-389 | every single step of client, server or network keeps that |
| Delivery.NobodyWaitsInVain | internal/client/files-receiving.go:69-167 | an invocation waiting for a session the server is done with has its last chunk, or the end that fails it, ahead in the stream the client reads |
| Delivery.EveryInvocationIsTold | internal/client/files-receiving.go:51-167 | such an invocation can always read on, and is released after as many receives as its chunk's distance, whatever else happens between them |
| Delivery.StopsWaitingExactly | internal/client/files-receiving.go:69-167 | in every state of every configuration an invocation stops waiting exactly at its own last chunk, its own refusal or timeout, a trailer that names it, or a step that loses everything on the stream: a mismatching chunk, an end that is broken, cuts a session off or names none, the loss of the remote |
| Delivery.ReleasedExactlyWhen | internal/client/files-receiving.go:69-167 | in a whole run it is released exactly if there is such a step |
| Delivery.BegunIsEnded | internal/client/files-receiving.go:172-217 | after a chunk that is not a session's last, the client receives a chunk of that session, or everyone is told |
| Delivery.NewsIsTrue | internal/server/nocc-server.go:318-389 | in every run a last chunk on the wire is of a session sent as a whole, a trailer names one that was not, a stream ends without a trailer only if cancelled; and no object file is left of a closed session |
| Delivery.LeavesExactly | internal/server/nocc-server.go:333-387 | a session is given up only by a refusal or a failed send, closed only when sent as a whole or impossible to send, and goes back if its stream is dead |
| Delivery.LostForGood | internal/client/daemon.go:188-222 | a lost remote releases everyone, and no invocation starts to wait on it again |
| Delivery.NotLost | internal/server/nocc-server.go:318-389 | no step of the server or network loses that news or moves it away |
| Delivery.StaysReleased | internal/client/invocation.go:324-331 | a released invocation never waits again |
| Delivery.ForgetsExactlyWhen | internal/server/nocc-server.go:318-389 | some run forgets an invocation iff a dead stream may go unnoticed or an empty object may occur |
| ObjStream.SendObjFileByChunks | internal/server/files-stream-server.go:52-104 | any chunk size, any short reads: the chunks carry exactly the .o and then the .gcno; nothing is sent iff there are no bytes |
| ObjStream.SendReadySessions | internal/server/nocc-server.go:318-389 | the sessions in order up to the first killed or coverage-failed one, which the trailer names |
| ObjStream.SentExactlyWhen | internal/common/compiler-killed.go:12-19 | a session may be sent iff it has its notes, its exit code is not negative, and with exit code 1 neither of the two messages stands anywhere in its stderr |
| Text.ContainsExactly | internal/common/compiler-killed.go:16-18 | a text contains another iff it is that one with something before and behind |
| ObjStream.WhatIsDelivered | internal/client/files-receiving.go:106-166 | a compile error comes back with its exit code and writes nothing; an object file comes back with success behind its notes; without the notes asked for, the invocation fails and no object file stays |
| ObjStream.NotesBeside | internal/client/invocation.go:306-314 | the notes file is the object file with .gcno for .o |
| ObjStream.FilesReceiving.ReceiveObjFileByChunks | internal/client/files-receiving.go:172-237 | "stream ok", even after a disk error, means exactly the announced bytes and no message more were consumed; .gcno saved before .o; the split is at the announced size wherever chunks end |
| ObjStream.FilesReceiving.HandleSession | internal/client/files-receiving.go:107-166 | the outcome and the files of one session for any message whatsoever; success is reported only with the announced .o in place, and a .gcno before it if notes were asked for |
| ObjStream.WhatIsHandled | internal/client/files-receiving.go:125-166 | whoever sent it: a killed compiler, its message anywhere, and a session that breaks off fail the invocation and write nothing; any other exit code but 0 is a compile error; missing notes are a failure |
| ObjStream.FilesReceiving.MonitorRemoteStream | internal/client/files-receiving.go:69-167 | a stream that carries these sessions, and then anything: every session is delivered, or the stream was given up and every invocation failed; it ends as one of quit, cleared, unauthenticated, trailer or broken, and leaves nobody waiting unless it quit, was cleared, or only named a lost session. Over the whole stream, each success reported is that of an object file written, with its .gcno just before if notes were asked for |
| ObjStream.FilesReceiving.OnStreamEnd | internal/client/files-receiving.go:69-105 | what each of the five endings does to the invocations; results that were there stay |
| ObjStream.FilesReceiving.OnRecvStreamBroke | internal/client/daemon.go:203-222 | every invocation of the remote has a result afterwards; those that had one keep it |
| ObjStream.Transfer | internal/server/files-stream-server.go:52-104 | end to end: the client's files are the sessions' files, in order, whatever the chunking; the session named in the trailer fails |
| ObjStream.SilentIsEmpty | internal/server/files-stream-server.go:75-99 | the client hears nothing of a session iff it succeeded without a byte |
| ObjStream.CollectFrames | internal/client/files-receiving.go:206-217 | collecting stops at the session's last chunk, not before and not after |
| ObjStream.CollectExactly | internal/client/files-receiving.go:206-217 | on any messages: n more are collected iff they are all of the session, bring what is missing, and n - 1 would not |
| ObjStream.SuccessIsReal | internal/client/files-receiving.go:133-156 | a result without error and with exit code 0 means the announced .o is saved whole, and an announced, non-empty .gcno before it if notes were asked for |
| ObjStream.CollectEnough | internal/client/files-receiving.go:206-217 | what the receive loop collects is never less than what was announced |
| OwnPch.ExtractAllDeps | internal/common/own-pch-files.go:153-205 | the loop over separators returns what the container's grammar says, errors and out-of-range slices included |
| OwnPch.RoundTrip | internal/common/own-pch-files.go:97-205 | behind any delimited text, names, sizes, hashes and bytes come back iff every name is free of backslash and newline, every hash is non-zero, and every content is delimited |
| OwnPch.Borders | internal/common/own-pch-files.go:14-16 | two contents without a separator in them that are cut short all the same |
| OwnPch.LineScans | internal/common/own-pch-files.go:128-180 | the scanned line gives back the printed size and hash, for every int64 and every hash |
| OwnPchFile.SaveToOwnPchFile | internal/common/own-pch-files.go:97-150 | the lines with hash, names, arguments, directories and totals, and every dependency as it is on disk; or an error iff one cannot be read |
| OwnPchFile.ParseOwnPchFile | internal/common/own-pch-files.go:216-260 | the loop over the lines of the first 32 KiB takes the last line of each key; corrupted iff there is no separator or a field is missing |
| OwnPchFile.FieldExactly | internal/common/own-pch-files.go:234-254 | of several lines with a key the last one counts |
| OwnPchFile.RefusedExactly | internal/common/own-pch-files.go:216-260 | a header is refused iff the compiler's name or the .gch is missing or empty, there are no arguments, or no hash |
| OwnPchFile.TotalIsSum | internal/common/own-pch-files.go:104-107 | the size printed is the sum of the sizes, modulo 2^64 |
| Paths.BaseExactly | internal/common/own-pch-files.go:124-124 | the base of an absolute path is its last element |
| OwnPchFile.ParsesExactly | internal/common/own-pch-files.go:97-260 | parsing gives the saved fields back iff no field has a newline, no argument or directory a space, no list or required field is empty, the lines contain no separator, they fit into the 32 KiB with one behind them, and there is a dependency |
| OwnPchFile.FileComesBack | internal/common/own-pch-files.go:97-260 | fields and dependencies both come back iff, besides, the dependencies can be extracted |
| OwnPchFile.HeaderExactly | internal/common/own-pch-files.go:108-126 | lines read to their end say what was written iff every field fits into its line |
| OwnPchFile.CutSaysLess | internal/common/own-pch-files.go:222-234 | lines cut off at a separator inside them never say what was written |
| OwnPchFile.ReadIsClean | internal/common/own-pch-files.go:234-254 | whatever the file, no field read has a newline and no argument a space |
| Sha256.HexRoundTrip | internal/common/sha256-struct.go:32-41 | a printed hash is read back |
| Sha256.NoHash | internal/common/sha256-struct.go:36-41 | a text that does not begin with a hexadecimal digit says no hash |
| Text.ScanDecimalPrinted | internal/common/own-pch-files.go:128-180 | a printed int64 is read back up to the first character that is no digit |
| Text.DigitsExactly | internal/common/own-pch-files.go:108-131 | the digits printed, literally, in base 10 and 16 |
| Text.SplitJoined | internal/common/own-pch-files.go:118-252 | splitting takes joining back iff there are parts and none contains the separating character |
| Text.JoinSplit | internal/common/own-pch-files.go:118-252 | joining takes splitting back, always |
| DepFiles.WriteToBytes | internal/client/dep-files.go:49-67 | targets and dependencies in the depfile's layout, escaped |
| DepFiles.LayoutExactly | internal/client/dep-files.go:49-67 | the layout, literally: what one more dependency and one more target add to it |
| DepFiles.EscapedInOneGo | internal/client/dep-files.go:182-187 | the three replacements together escape each special character once |
| DepFiles.ParseTargetName | internal/client/dep-files.go:85-114 | the loop over offsets reads a target as the grammar says, its out-of-range reads included |
| DepFiles.ParseNextDepItem | internal/client/dep-files.go:119-148 | the same for a dependency |
| DepFiles.ParseDepFileContents | internal/client/dep-files.go:151-179 | the same for a whole file |
| DepFiles.PlainTargets | internal/client/dep-files.go:85-114 | of a text from elsewhere: a plain name is read as it is, several blanks as one, a broken line as none |
| DepFiles.PlainWords | internal/client/dep-files.go:119-148 | plain words are the dependencies; blanks and broken lines between them do not matter |
| DepFiles.BlanksBefore | internal/client/dep-files.go:77-82 | blanks of any kind before a target do not matter |
| DepFiles.TargetExactly | internal/client/dep-files.go:85-114 | a target name followed by its colon is read as it is iff it is an escaped plain name that starts with no space, wherever else the reader might stop; and then it stops at the colon |
| DepFiles.DepsExactly | internal/client/dep-files.go:119-187 | the written dependencies of a target are read back iff each is non-empty, starts with none of space, colon, newline, backslash, and has a backslash only before a colon; and then up to the end of their line |
| DepFiles.RoundTrip | internal/client/dep-files.go:49-187 | parsing what was written gives back the depfile iff all its targets and dependencies are such: no misreading makes up for another |
| GcnoPatch.PatchGcnoCwd | internal/server/coverage.go:62-111 | the two loops find the matching layouts, and the result or error is the specified one |
| GcnoPatch.OrderExactly | internal/server/coverage.go:63-74 | the byte order is the one in which the first word is the magic number |
| GcnoPatch.FitsExactly | internal/server/coverage.go:80-101 | a layout matches iff a reader that takes the announced number of bytes or words finds the string, its NUL and padding |
| GcnoPatch.UnambiguousExactly | internal/server/coverage.go:92-103 | no file holds a NUL-free string in two layouts, except for three strings, which can be |
| GcnoPatch.PatchesExactly | internal/server/coverage.go:62-111 | for an absolute cwd the patch succeeds iff a reader finds it at offset 12 or 16, with its length in bytes or words |
| GcnoPatch.PatchesTheRecord | internal/server/coverage.go:103-111 | the result holds the client's cwd for such a reader in the same layout, and is the same before and behind the record |
| GcnoPatch.PatchBack | internal/server/coverage.go:103-111 | patching back gives the original bytes, so only the record changed |
| InvocationCounters.Accounting | internal/client/invocation.go:324-359 | unless one of two windows is open, under every interleaving the upload wait group counts what is left plus the threads between compare-and-swap and release; the other is held by the first result; none goes below zero |
| InvocationCounters.AllReleased | internal/client/invocation.go:324-359 | when all threads have finished, the wait for uploads that were added is over iff none is left or an interrupt saw their counter set; the wait for the object is over iff there was a result or an interrupt |
| InvocationCounters.FirstResultWins | internal/client/invocation.go:324-331 | an invocation returns without an error only if its first result brought none and both waits are over |
| InvocationCounters.UploadErrorFails | internal/client/remote-connection.go:170-171 | with an error before the uploads are over, the invocation never goes on to wait for the object and never returns without an error |
| InvocationCounters.UploadErrorIsRecorded | internal/client/invocation.go:333-336 | in every run, an upload that brought an error has left one, and an error that is there was brought by somebody |
| InvocationCounters.ThreadsAreEvents | internal/client/invocation.go:324-359 | the threads are those of the uploads, results and interrupts of the run, in order, each with the error it was called with |
| InvocationCounters.NoErrorIsLost | internal/client/invocation.go:333-336 | once every thread has finished, an upload of the run that failed has left an error |
| InvocationCounters.CleanUploads | internal/client/remote-connection.go:157-171 | an invocation that waits for its object, or returned without an error, went on from uploads of which none that counted had failed, and unless an interrupt saw the counter all files were uploaded |
| InvocationCounters.ErrorStays | internal/client/invocation.go:324-359 | an error, and the first result, stay whatever comes later |
| InvocationCounters.GoesNegativeExactlyWhen | internal/client/remote-connection.go:163-164 | a wait group can go below zero iff an interrupt may precede wgRecv.Add, or, with files to upload, a compare-and-swap may precede wgUpload.Add |
| InvocationCounters.InterruptBeforeRecvAdd | internal/client/compile-remotely.go:14-14 | the run in which it comes before wgRecv.Add |
| InvocationCounters.InterruptBeforeUploadAdd | internal/client/remote-connection.go:163-164 | the run in which it comes between the upload counter and wgUpload.Add |
| InvocationCounters.InterruptTooSoon | internal/client/invocation.go:346-359 | an interrupt while dependencies are collected releases no upload: the invocation, although it has failed, waits for all of them |
| RemoteLoss.NoInvocationSlips | internal/client/daemon.go:191-222 | in every run an invocation started on a connection marked since is interrupted, or will be by the scan that is still to come; each place of the list keeps its server |
| RemoteLoss.OnlyItsOwnStream | internal/client/daemon.go:188-199 | from any point of a run on: a connection that works stays usable unless its own stream breaks, not that of its predecessor; one that was marked is never usable nor chosen again |
| RemoteLoss.InterruptedOnlyByItsOwn | internal/client/daemon.go:203-222 | in every run an invocation is interrupted only in the scan of a reporter of its own, broken connection, while active, and then always |
| RemoteLoss.ReconnectsExactly | internal/client/daemon.go:456-488 | a reconnect is to the same server and works iff that one answered; otherwise it is never chosen, whatever follows |
| RemoteLoss.DiesSilentlyExactlyWhen | internal/client/daemon.go:456-488 | a broken connection in use goes unnoticed in some run iff a stream may break before its connection is in the list |
| Routing.Daemon.ChooseRemoteConnection | internal/client/daemon.go:510-530 | the capable server at the least cyclic distance from the hash, or nil iff none is capable; capable is one that is there, has not refused the compiler and, for coverage, supports it and has not refused that |
| Routing.Daemon.ReconnectUnavailableRemotes | internal/client/daemon.go:456-488 | each place keeps its host and port; exactly the unavailable ones not tried too recently are replaced |
| Routing.RemoteConnection.MarkIncapableOfCxx | internal/client/remote-connection.go:93-97 | after a refusal exactly the compilations with that compiler, or that of its coverage, are no longer for this server |
| Routing.MovesOnlyIfLost | internal/client/daemon.go:497-509 | a file leaves its server iff that server became unusable for it, and moves forward only |
| Routing.StaysOverRun | internal/client/daemon.go:497-509 | over a whole run, a file stays on its server while that one stays usable, whatever happens to the others |
| Routing.ChoiceIsUnique | internal/client/daemon.go:510-530 | the choice is determined by the hash and the capabilities |
| Routing.DistanceIsSteps | internal/client/daemon.go:510-530 | the distance is what is added to home to get to a server, around the end of the list |

## Left out

- gRPC, sockets, keepalive, signals, discovery, statistics, logging and command-line parsing.
- Running compilers: their exit codes and outputs are inputs. The semaphore that limits how many run at once.
- A `.nocc-pch` that does stand in for a header in the includes parser, and read errors of header files.
- `CalcPchHash`: the hash of a `.nocc-pch` file is an input.
- The tolerance of `Sscanf` for spaces and signs is modelled only as far as `Text.ScanDecimal` and `OwnPch.ScanDepLine` go.
- The upload direction of the streams (`files-uploading.go`): an upload is one event of `ServerSessions`.
- Temporary file names and the mapping of client paths to server paths; a rename is atomic.
- The key of the object cache: a cache hit is an input.
- Wall-clock timeouts: an interrupt, a hanged upload or a retry may come at any moment.
- Disconnection of a client, and the removal of its directory.
- ServerSessions.Client.CxxEnded: the exit code, coverage notes and saving the object into the object cache are not modelled; only whether the session's object file exists afterwards.
- In `routing.dfy` the number of servers is at most 2^31, so that the 32-bit sum of the walk does not wrap.
- In `gcno_patch.dfy` a cwd is shorter than 2^32 - 1 bytes, the length its record can hold.
