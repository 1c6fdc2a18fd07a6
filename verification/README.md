# Verified model of the shell server and its ELF loader

A Dafny model of the parts of the server where something can go wrong in a way
that is hard to see from one function: loading an ELF image into another
process, building its environment block, turning a command line into wired-up
processes, copying and removing directory trees, reassembling the KLOG stream,
the base64 transfers, calling functions in a traced process, and keeping a
single server instance.

Whatever the system may do is left open. System calls and ptrace calls can fail
at any point, reads return any number of bytes, the kernel picks any free
address or descriptor, directory entries come in any order and children exit in
any order. In the methods these are nondeterministic choices, so the contracts
hold for all of them. A flag or parameter (`clean`, `World`, `Luck`) rules failures
out; with it the contracts say that the operation then succeeds. The few calls that are taken to succeed are named under
"Left out".

| file | models |
|---|---|
| Options.dfy | an optional value |
| Words.dfy | bytes, 64-bit words, little endian, page arithmetic |
| AddressSpace.dfy | mappings, protections and bytes of a process |
| ElfImage.dfy | header span, segments, relocations, the image |
| ElfLoader.dfy | `elfldr_load`: placing the image, protections, unwinding |
| Environ.dfy | `elfldr_set_environ` |
| RemoteCall.dfy | `pt_call`, `pt_syscall`, registers of `elfldr_prepare_exec` |
| Tokenizer.dfy, Pipelines.dfy, CommandLine.dfy | `read_line`, `trim`, `tokenize`, `build_pipeline` |
| Plumbing.dfy | `execute_pipeline`: pipes, forks, descriptors, waiting |
| SessionLoop.dfy | command table, `session_handle` |
| FileTree.dfy | `copy_file`, `recurse_cp`, `recurse_rm` |
| Commands.dfy | the command functions `rm`, `cp`, `put`, `get`, `serverctl` and what they return |
| Klog.dfy, Text.dfy | `klog_wait_install` |
| Base64.dfy, Transfer.dfy | the codec, `get` and `put` |
| SingleInstance.dfy | pidfile protocol of `sshsvr_run` and `serverctl stop` |

## What was found

Some things the code is meant to do it does only under a condition. The code is
modelled as it is, and the condition is proved exact.

- The loader puts the byte for virtual address v at offset v of a region that is
  only as long as the span of the headers. The headers lie inside that region
  exactly when the lowest page of the file is 0 (`HeadersInsideIffLowestPageZero`);
  the copy of a fully file-backed last segment of a file linked higher overruns the
  mirror (`LinkedHighDoesNotFit`).
- A protection call covers ROUND_PG(memsz) bytes from the untruncated address. It
  touches just the segment's pages only when the segment is page aligned or the
  rounding adds less than the offset into the page (`ProtectReachExactIff`).
- A failed load of an ET_EXEC file does not bring back what MAP_FIXED replaced:
  the target is as before only when the fixed range was free (`ElfldrLoad`).
- pt_mmap reports a failure also when the target has already made the mapping, and
  nobody looks at the result of pt_munmap. These are the two ways a failed load
  or a failed `elfldr_set_environ` leaves a region behind (`ElfldrLoad`,
  `SetEnviron`).
- `recurse_cp` takes a failing readdir for the end of the directory, so whatever the
  source looks like, everything below any one directory can be missing after a
  success (`CopyMayMissEntries`).
- It also ignores the result of mkdir. When readdir did not fail and every directory
  of the source holds a file somewhere below it, success means a complete copy
  (`RecurseCp`, `FilesBringDirectories`); any directory that holds none can be
  missing (`CopyMayLose`).
- Copying a file onto itself empties it and reports success (`CopyFile`).
- When pipe() fails after the first pipe, the pipes already made stay open in the
  session (`FailedPipeLeaksIffNotFirst`).
- When a read of `get` fails, it sends the end marker and returns 0 all the same: the
  receiver gets the whole file exactly when no read failed before its end (`CmdGet`).
- The exit code of a pipeline comes from an uninitialised variable exactly when the
  first wait fails and no reaped child had exited, so whenever all forks failed
  (`ExitCodeUndefinedIff`).
- A NUL byte in a line hides the rest of it (`NulEndsLine`).
- `put` cannot take a line of 4096 characters, so it undoes `get` exactly when no
  read of `get` was longer than 3069 bytes (`PutUndoesGetIffChunksShort`).
- The base64 decoder accepts characters outside the alphabet in the last two
  places; the encoder undoes it exactly on canonical strings
  (`EncodeUndoesDecodeIffCanonical`).
- Both %x scans of the KLOG status lines start at the x of 0x and match nothing, so
  waiting never reports a completed installation (`InstallNeverReportedComplete`);
  a line that reports success is judged a failure (`SuccessIsJudgedFailure`).
- `serverctl stop` unlinks the pidfile after its server has died, whoever wrote it
  last. That is harmless exactly when the file then names no server that holds the
  socket or will still remove the file (`UnlinkIsSafeIffGuarded`). With a start in
  between, the unlink takes the name of a server that is accepting
  (`OverlapBreaksPromise`); without overlap it never does
  (`AtMostOneListenerApart`).
- `tokenize` writes its terminating NULL inside the array exactly when the line has
  fewer than 256 tokens (`Tokenize`), `build_pipeline` exactly when every command
  has fewer than 256 words (`BuildPipeline`).
- Quotes are gone before operators are compared. Quoting every word therefore gives
  the pipeline back exactly when no word is itself `|`, `>` or `>>` (or holds a NUL)
  (`ParseUndoesPrint`, `QuotedOperatorStillSplits`).

## Model

| member | source | states |
|---|---|---|
| Words.MaskIsTruncation | shsrv/elfldr.c:51-52 | masking with ~(PAGE_SIZE-1) is subtracting the remainder, on all 64-bit values |
| Words.Le64Bytes | shsrv/elfldr.c:86-94 | a 64-bit store writes the digits to the base 256, the lowest first |
| Words.AlignedHull | shsrv/elfldr.c:51-52 | TRUNC_PG and ROUND_PG are the nearest page multiples below and above |
| AddressSpaces.AddressSpace.MapRemote | shsrv/pt.c:377-398 | a remote mapping takes effect at a free or the fixed range, or not at all; -1 may be reported in either case |
| AddressSpaces.UnmapRestoresIffFree | shsrv/elfldr.c:174-178 | unmapping a region, whatever was done inside it, restores the address space exactly when the region had been free |
| ElfImage.ComputeSpan | shsrv/elfldr.c:129-150 | the loop finds the least address and greatest (wrapped) end over all headers, or its initial values when there is none |
| ElfImage.SpanIsLeastEnclosing | shsrv/elfldr.c:142-154 | without wrap-around the rounded span is the smallest page-aligned interval around every header, and the region size is its length |
| ElfImage.PtLoad | shsrv/elfldr.c:100-115 | the file part of the segment, and nothing else, is copied into the mirror |
| ElfImage.LoadSegments | shsrv/elfldr.c:182-188 | after the loop each mirror byte is the one SegmentByte specifies |
| ElfImage.SegmentByteOfLastCover | shsrv/elfldr.c:100-115 | that byte is the file byte of the last PT_LOAD whose file part covers it |
| ElfImage.SegmentByteUncovered | shsrv/elfldr.c:100-115 | and zero where no file part does |
| ElfImage.RRelative | shsrv/elfldr.c:86-94 | base plus addend modulo 2^64 is stored little endian in the slot, nothing else changes |
| ElfImage.ApplyRelocations | shsrv/elfldr.c:190-204 | the nested loops apply the relative relocations of all RELA sections in order over the copied segments; ByteOfLastSlot says which those are |
| ElfImage.ByteOfLastSlot | shsrv/elfldr.c:190-204 | with sections and entries by index: a byte comes from the last entry of type 8 in a section of type 4 whose slot covers it, as B + A |
| ElfImage.ByteOfNoSlot | shsrv/elfldr.c:190-204 | and is kept if there is no such entry, whatever other entries there are |
| ElfImage.RelocatedByteOfLastCover | shsrv/elfldr.c:86-94 | a relocated byte comes from the last slot that covers it |
| ElfImage.RelocatedByteUncovered | shsrv/elfldr.c:86-94 | bytes outside all slots keep what the segments put there |
| ElfImage.BuildMirror | shsrv/elfldr.c:174-204 | the finished mirror is the image of the file at the base |
| ElfImage.CopiesStayInside | shsrv/elfldr.c:102-112 | for files with lowest page 0, file parts within memory parts and no wrap-around, every segment copy stays inside the mirror |
| ElfImage.WellLinkedFits | shsrv/elfldr.c:100-115 | a file linked from the first page on, with file parts within memory parts and file and slots within headers, meets the precondition of the loader for every span |
| ElfImage.HeadersInsideIffLowestPageZero | shsrv/elfldr.c:142-154 | every header, placed at its virtual address, lies inside the region computed from the headers exactly when the lowest page is 0 |
| ElfImage.LinkedHighDoesNotFit | shsrv/elfldr.c:101-112 | with a higher lowest page, the copy of a fully file-backed last segment overruns the mirror |
| ElfImage.LinkedAt400000DoesNotFit | shsrv/elfldr.c:101-112 | for instance a one-segment executable linked at 0x400000 |
| ElfImage.SurvivingSlotValue | shsrv/elfldr.c:86-94 | a slot no later relocation touches reads back as base plus addend |
| ElfImage.RebaseShiftsSlotsOnly | shsrv/elfldr.c:86-94 | images of one file at two bases agree outside the slots, and each surviving slot, like the entry address, differs by exactly the base difference modulo 2^64 |
| ElfImage.RelocationOrderIrrelevant | shsrv/elfldr.c:190-204 | with disjoint slots any order and repetition of the same relocations gives the same bytes |
| ElfLoader.ProtectSegments | shsrv/elfldr.c:211-232 | each page ends with the protection of the last call that took effect on it; a failing call, itself effective or not, stops the loop with the earlier ones done |
| ElfLoader.AlignedIsProtectInside | shsrv/elfldr.c:211-232 | with page-aligned segments and lowest page 0 no protection call leaves the region |
| ElfLoader.ProtectReachExactIff | shsrv/elfldr.c:217-227 | exact condition for a protection call to touch just the segment's own pages |
| ElfLoader.SegmentPagesGetOwnFlags | shsrv/elfldr.c:53-55 | with aligned, page-disjoint segments every page of a segment has exactly its own flags |
| ElfLoader.OtherPagesStayReadWrite | shsrv/elfldr.c:157-171 | and every other page of the region stays read-write |
| ElfLoader.PlaceImage | shsrv/elfldr.c:181-237 | after a failure only the region was written; without one it holds the image |
| ElfLoader.ElfldrLoad | shsrv/elfldr.c:121-250 | for every pattern of failures: a rejected file leaves the target unchanged, or with one zeroed region if pt_mmap took effect and reported a failure; success adds one region holding the image and returns base plus entry; a later failure removes the region and restores the target exactly when it had been free, or leaves just that region if pt_munmap fails; no local mapping is left; if nothing fails and there is room, exactly the files with the magic number and type 2 or 3 are loaded |
| ElfLoader.LoadedSegmentPage | shsrv/elfldr.c:211-232 | after a load with aligned, page-disjoint segments a page of a segment is readable, writable and executable as bits 2, 1 and 0 of its flags say |
| ElfLoader.LoadedOtherPage | shsrv/elfldr.c:157-232 | and any other page of the region is readable and writable, not executable |
| ElfLoader.LoadedFromRelocation | shsrv/elfldr.c:86-94 | after a load, a byte in the slot of a relative relocation is the byte of B + A for the last such entry in section and entry order |
| ElfLoader.LoadedFromSegment | shsrv/elfldr.c:100-115 | else the file byte of the last PT_LOAD with a file part over it |
| ElfLoader.LoadedAsZero | shsrv/elfldr.c:100-115 | else zero |
| Environ.ComputeSize | shsrv/elfldr.c:266-271 | the first loop computes the size of table and strings and counts the strings |
| Environ.LayoutIsDisjoint | shsrv/elfldr.c:281-300 | table and strings do not overlap and end exactly at the computed size |
| Environ.EnvironUnique | shsrv/elfldr.c:302-307 | a walk over the table can read only one environment from the memory |
| Environ.FillBlock | shsrv/elfldr.c:281-307 | each string and its pointer, then the null pointer, are in place and nothing outside the block was written |
| Environ.SetEnviron | shsrv/elfldr.c:253-323 | success makes `environ` point at a new block that reads back as the given list; failure removes the block, and the block stays only if pt_mmap took effect and reported a failure or pt_munmap failed; nothing else but `environ` is written; an empty list does nothing; with room, a resolved symbol and no failing call it succeeds |
| RemoteCall.StaysBelowEntry | shsrv/pt.c:324-332 | however deeply calls nest, the stack pointer stays at or below its entry value until the function's own return |
| RemoteCall.ReturnIsFirstAbove | shsrv/pt.c:324-332 | the first state with a higher stack pointer is that return |
| RemoteCall.Tracee.PtCall | shsrv/pt.c:298-393 | a call enters its address with the arguments in rdi, rsi, rdx, rcx, r8, r9, a system call 0xa behind the symbol with its number in rax and the fourth argument in r10; both step to exactly the matching return, give the rax the callee returns for those registers, and restore all registers; any ptrace request may fail, and if none does the call returns |
| RemoteCall.Tracee.CallAll | shsrv/pt.c:298-393 | any chain of successful calls gives each callee the same registers but for its arguments, collects the results and leaves the registers as they were |
| RemoteCall.Tracee.PrepareExec | shsrv/elfldr.c:412-445 | only rsp, rip and rdi change, rsp + 8 is the next multiple of 16 at or below the old rsp, and the slot receives the old rip unless the unchecked pt_setlong failed, in which case no memory changes |
| Tokenizer.ScanWord | src/session.c:51-57 | the scan stops at the first blank or operator outside quotes |
| Tokenizer.ReadToken | src/session.c:38-64 | one operator or one word with its enclosing quotes removed |
| Tokenizer.Tokenize | src/session.c:32-69 | the first 256 tokens of the line are stored, and the terminator is in bounds exactly when there are fewer |
| Tokenizer.LexWord | src/session.c:51-57 | an unquoted word ends exactly before a blank, a pipe sign, a redirect sign or the end |
| Tokenizer.LexMixed | src/session.c:51-65 | quotes protect what is between them anywhere in a word and are removed only when they enclose it |
| Tokenizer.LexUnclosed | src/session.c:51-65 | an unclosed quote takes the rest of the line and stays |
| Tokenizer.LexBlank | src/session.c:36 | each of the six blanks is skipped |
| Tokenizer.LexOperator | src/session.c:38-50 | the operators are tokens with or without blanks around them, two redirect signs being one |
| Tokenizer.LexQuoted | src/session.c:51-65 | a quoted word without quotes inside is one token whatever else it holds |
| Pipelines.ReadSegment | src/session.c:84-96 | the inner loop takes plain tokens up to a pipe, a redirect pair or the end, and fails on a redirect without a file |
| Pipelines.BuildPipeline | src/session.c:75-112 | the parser computes the segment specification Build; its NULL terminators are in bounds exactly when every command has fewer than 256 words, so always with fewer than 256 tokens |
| Pipelines.BuildKeepsWords | src/session.c:75-112 | commands concatenate to the tokens without pipes and redirect pairs, none is empty, at most 16; file and append flag are those of the last redirect pair; it fails exactly when the tokens end in a redirect without a file or any token, a lone pipe sign included, is left after the sixteenth command |
| Pipelines.CommandWords | src/session.c:83-96 | the words of a parsed command are tokens of the line and no operators, and no more than those |
| Pipelines.BuildWords | src/session.c:83-98 | plain words alone are one command |
| Pipelines.BuildPipe | src/session.c:84 | a pipe sign ends a command; nothing before it is no command |
| Pipelines.BuildRedirect | src/session.c:85-92 | a redirect pair ends a command, words behind it are the next one, and the last pair counts |
| CommandLine.ReadLineLoop | src/session.c:179-191 | carriage returns dropped, newline consumed, full buffer ends the line, end of input loses it |
| CommandLine.ReadLineOf | src/session.c:179-191 | a line below 2047 characters comes without its carriage returns and newline, what follows is left |
| CommandLine.ReadLineOfUnfinished | src/session.c:184 | text without a newline is lost at the end of input |
| CommandLine.ReadLineOfLong | src/session.c:181-190 | a longer line is cut after 2047 characters |
| CommandLine.TrimLoop | src/session.c:24-30 | the loops compute Trim |
| CommandLine.TrimExact | src/session.c:24-30 | exactly the blanks at both ends go |
| CommandLine.TrimmedHasNoBlankEnds | src/session.c:24-30 | the result neither starts nor ends with a blank |
| CommandLine.ParseUndoesPrint | src/session.c:32-112 | for 1 to 16 non-empty commands of quote-free words, trim, tokenize and build_pipeline give back the printed pipeline with its redirect and append flag exactly when no word of a command is an operator and nothing holds a NUL |
| CommandLine.NulEndsLine | src/session.c:24-36 | what follows a NUL in a line does not matter |
| CommandLine.ParsedIsNulFree | src/session.c:24-69 | no parsed word or file name holds a NUL |
| CommandLine.SessionReadsPrintedLine | src/session.c:179-213 | the same from the session's input: the line is read whole and the rest is left untouched |
| CommandLine.QuotedOperatorStillSplits | src/session.c:61-64 | a quoted pipe sign between any two plain words makes two commands |
| Plumbing.ClosePipes | src/session.c:152-154 | closes both ends of every pipe and nothing else |
| Plumbing.SetUpChild | src/session.c:138-154 | child i reads from pipe i-1, writes to pipe i or the redirect, and holds no other pipe end |
| Plumbing.Shell.ExecutePipeline | src/session.c:131-168 | for every outcome of pipes, forks and open: exactly the children whose fork and open succeed run, each wired that way, and the parent's table is as before; a failing pipe returns with the earlier pipes still open |
| Plumbing.ChildTable | src/session.c:138-154 | a running child's table descriptor by descriptor |
| Plumbing.FailedPipeLeaksIffNotFirst | src/session.c:131-134 | the table is unchanged exactly when the first pipe failed |
| Plumbing.PipeEndsAreExclusive | src/session.c:136-168 | the write end of pipe k is held only as fd 1 of child k and its read end only as fd 0 of child k+1 |
| Plumbing.LastChildOutput | src/session.c:142-151 | the last child writes to the redirect file or to the session |
| Plumbing.EndOfFilePropagates | src/session.c:136-168 | once the children have set up their tables, in every state and for every order of exits, pipe k is at end of file exactly when child k is not running |
| Plumbing.WaitAll | src/session.c:170-176 | the result is the code of the last child reaped that exited; if the first wait fails, the undefined initial status counts as an earlier one, and later failing waits change nothing |
| Plumbing.ExitCodeIs | src/session.c:172-175 | the code of the last reaped child that exited is returned, wherever waits failed |
| Plumbing.ExitCodeUndefinedIff | src/session.c:170-174 | the result depends on that undefined status exactly when the first wait failed and no reaped child had exited |
| SessionLoop.MarkBuiltin | src/session.c:99-107 | marks exactly the names in the table; the alias test adds none |
| SessionLoop.FindBuiltin | src/builtins.c:940-958 | finds the first entry of that name exactly when MarkBuiltin marks it |
| SessionLoop.OnlyExitEnds | src/session.c:122-129 | given the return values of the commands, only a single `exit` without redirect yields -2 of all pipelines, and it always does |
| SessionLoop.SessionHandle | src/session.c:193-223 | whatever commands return and consume, the lines read and the ending are those of a session over the input, which ends at its first `exit` line or a failed read; the pipelines run are those of the lines, in order |
| SessionLoop.SessionOfLine | src/session.c:201-222 | a session goes through its input line by line and goes on where a line's commands stopped reading |
| SessionLoop.PrintedExitEnds | src/session.c:126-129 | of the printed pipelines exactly the un-redirected single `exit`s end it |
| SessionLoop.PrintedIsRun | src/session.c:203-218 | a printed pipeline is run as it is |
| SessionLoop.SessionEndsAtFirstExit | src/session.c:201-222 | a session exits exactly if it reads a single un-redirected `exit`, which is then its last line, and otherwise ends only at a failed read |
| FileTree.FileSystem.RecurseRm | src/builtins.c:121-140 | removes nothing outside the path whatever fails, keeps the tree well formed, and on success removes exactly the subtree; it succeeds on anything but the root when no call fails; terminates on subtree size |
| FileTree.FileSystem.Unlink | src/builtins.c:136-138 | removes a file and nothing else, never a directory |
| FileTree.FileSystem.CopyFile | src/builtins.c:188-200 | on success the destination has the source's bytes for every sequence of read sizes, and is empty when it is the source itself; only the destination changes |
| FileTree.FileSystem.RecurseCp | src/builtins.c:202-221 | changes nothing outside the destination and nothing in it that is no copy; if no readdir failed, success means that every file has its copy, also in an existing destination; a new destination gets a faithful copy, complete exactly when neither readdir nor mkdir failed; it succeeds whenever only mkdir and readdir fail and no file's place or way is barred; terminates on subtree size |
| FileTree.FilesBringDirectories | src/builtins.c:202-221 | if every node of the source has a file at or below it, a copy with all files is complete whatever mkdir reported |
| FileTree.FileSystem.CopyMayLose | src/builtins.c:206-218 | for any directory with no file at or below it there is a successful copy without it |
| FileTree.FileSystem.CopyMayMissEntries | src/builtins.c:207-218 | for any directory there is a successful copy without anything below it |
| FileTree.FullCopyIsEqual | src/builtins.c:202-221 | a complete faithful copy equals the source path by path |
| FileTree.ChildCopied | src/builtins.c:209-216 | what one round of the copy loop keeps |
| FileTree.FileSystem.CopyThenRemove | src/builtins.c:121-221 | a successful recursive remove of a copy, finished or not, restores the file system; when no call fails a copy with files is removed |
| Commands.CmdRm | src/builtins.c:142-152 | adds nothing, removes nothing the arguments do not name, and everything they name when no call fails; returns 0 whatever failed, -1 only without arguments |
| Commands.CmdCp | src/builtins.c:223-236 | changes nothing outside the destination; when no call fails the destination becomes the source file, or with -r gets every file and keeps the rest; returns 0 whatever failed, -1 only for wrong arguments |
| Commands.CmdPut | src/builtins.c:300-320 | stores a prefix of the decoded lines in the destination and returns 0, all of them when no call fails, or changes nothing and returns -1 |
| Commands.CmdGet | src/builtins.c:322-337 | returns 0 with a stream that is received as the file exactly when no read failed before its end and else as a proper prefix, or -1 with nothing sent |
| Commands.CmdServerctl | src/builtins.c:463-555 | the value of each subcommand from pidfile, liveness and --force, -1 for an unknown one, always within the values MayReturn gives |
| Klog.CutIsPrefix | src/builtins.c:735-739 | of a long line the first 1023 characters are kept |
| Klog.NewLine | src/builtins.c:743-833 | a newline completes the line gathered so far, cut to 1023 bytes |
| Klog.FeedChunk | src/builtins.c:723-834 | feeding one read to the buffer judges the lines of the whole stream and keeps its unfinished line, cut |
| Klog.KlogWait | src/builtins.c:687-835 | the result is the first verdict in the newline split of the text heard, -1 without one; idle ticks never exceed the timeout |
| Klog.ChunkingIsIrrelevant | src/builtins.c:716-721 | the text judged is the whole stream however it is cut into reads |
| Klog.HeardUpToEnd | src/builtins.c:706-721 | every read before the end of the connection, an error or the idle second that fills the timeout is heard, and nothing behind it |
| Klog.JudgedIffFinal | src/builtins.c:795-827 | exactly the lines with the final patterns get a verdict |
| Klog.PreparedOf | src/builtins.c:747-748 | the checks see the line without its leading blanks |
| Klog.PreparedWithTime | src/builtins.c:782-788 | behind the total time the blanks at the end are cut too |
| Klog.NoLineIsSuccess | src/builtins.c:795-827 | no line is ever judged a success |
| Klog.SuccessIsJudgedFailure | src/builtins.c:795-812 | any line reporting state 7 with error 0 is judged a failure |
| Klog.FinalLineReportsSuccess | src/builtins.c:795-812 | there is such a line |
| Klog.InstallNeverReportedComplete | src/builtins.c:695-853 | over every stream and timeout the wait ends with -1 |
| Base64.EncodeBlock | src/base64.c:7-19 | the loop writes the encoding of the whole input, 4 characters per started group |
| Base64.DecodeBlock | src/base64.c:31-43 | the loop writes the decoding of the whole input, -1 exactly when there is none |
| Base64.Alphabet | src/base64.c:4-5 | the table entry for each six-bit value |
| Base64.EncodeBits | src/base64.c:7-19 | the bits are cut into groups of six from the highest on, a short end is filled with zero bits and pads |
| Base64.RoundTrip | src/base64.c:7-43 | decoding undoes encoding on every byte string |
| Base64.EncodedLength | src/base64.c:7-19 | the encoding is 4 times the number of started groups of 3 long |
| Base64.DecodeConcat | src/base64.c:31-43 | decoding is additive at group boundaries, padding included |
| Base64.JoinedRoundTrip | src/base64.c:7-43 | two joined encodings decode to the joined inputs |
| Base64.EncodeUndoesDecodeIffCanonical | src/base64.c:31-43 | encoding undoes decoding exactly on the canonical strings |
| Base64.BadCharactersAreAccepted | src/base64.c:36-40 | a group with a character outside the alphabet in third place decodes and is not canonical |
| Transfer.CmdGet | src/builtins.c:322-337 | for every sequence of read sizes the reference receiver gets the file back exactly when no read failed before its end, and else the part read before it |
| Transfer.GetIsReceived | src/builtins.c:329-334 | every stream of chunks splits into lines that decode to their concatenation |
| Transfer.EncodingIsDataLine | src/builtins.c:330-334 | an encoding has no newline, is not the end marker and fits 4096 bytes |
| Transfer.CmdPut | src/builtins.c:300-320 | stores the decoded lines up to the end marker, a bad line or the end of input, and a prefix of them after a write error |
| Transfer.StoredLine | src/builtins.c:308-316 | of each read only the text before the first newline counts |
| Transfer.PutUndoesGetIffChunksShort | src/builtins.c:304-316 | fed line by line, put stores the file exactly when no chunk was longer than 3069 bytes |
| SingleInstance.StepKeepsPidfile | src/sshsvr.c:103-141 | no step but an unguarded unlink takes the pidfile away from a server that still needs it |
| SingleInstance.StepKeepsKnowledge | src/sshsvr.c:103-141 | a start that has passed its check has no other server to reckon with |
| SingleInstance.RunKeepsInvariant | src/sshsvr.c:178-250 | every run, starts and stops overlapping, keeps the invariant while its unlinks are guarded |
| SingleInstance.AtMostOneListener | src/sshsvr.c:162-250 | in every state of every run in which no stop unlinks the pidfile of an engaged server, however starts and stops overlap, there is at most one listener and an accepting server is the one the pidfile names |
| SingleInstance.UnlinkIsSafeIffGuarded | src/builtins.c:477 | from any state of such a run, an unlink keeps that promise in everything that can follow exactly when the pidfile names no engaged server |
| SingleInstance.ApartIsGuarded | src/builtins.c:463-480 | when starts and stops do not overlap every unlink is of that kind |
| SingleInstance.AtMostOneListenerApart | src/sshsvr.c:162-250 | so runs without overlap keep the promise |
| SingleInstance.ForcedStartTakesOver | src/sshsvr.c:127-141 | a forced start, daemon or not, can replace the accepting server through that server's ordinary shutdown and then accepts under its own name |
| SingleInstance.UnforcedStartIsRefused | src/sshsvr.c:122-125 | without force it leaves servers and pidfile as they are |
| SingleInstance.ClearedStartPublishes | src/sshsvr.c:178-222 | a start past its check can come up and is then named |
| SingleInstance.StragglersAreSignalled | src/sshsvr.c:105-115 | a forced start signals every accepting server when it finds no pidfile or cannot bind, an unforced one none |
| SingleInstance.GivingUpChangesNothing | src/sshsvr.c:133-136 | operations that give up change neither servers nor pidfile |
| SingleInstance.StopSignalsNamed | src/builtins.c:463-472 | a stop signals exactly the server the pidfile names |
| SingleInstance.StopReachesPendingUnlink | src/builtins.c:463-480 | every stop of an accepting server can come, through its ordinary shutdown, to a pending unlink |
| SingleInstance.StartDuringStopIsUnnamed | src/builtins.c:473-477 | from there a start can publish itself before the unlink, which then takes the name of an accepting server |
| SingleInstance.OverlapBreaksPromise | src/builtins.c:463-480 | one whole run from the initial state comes to that: start, stop, second start, unlink |

## Left out

- ELF header parsing: the file is given as its parsed headers and raw bytes; the struct casts at e_phoff, e_shoff and sh_offset are not modelled.
- PAGE_SIZE: the SDK defines it; the model takes 0x4000.
- ElfImage.BuildMirror: asks that the unchecked copies and stores stay inside file and mirror, since C gives them no meaning otherwise.
- AddressSpaces.AddressSpace.MapAnonymous: the kernel's choice of address is any free page-aligned range; the loader's own munmap of its mirror succeeds.
- Return value 0 of `elfldr_load`: an entry address that wraps to 0 is told apart from failure in the model, not in the source.
- Environ.SetEnviron: a resolved `environ` symbol lies in memory the target already has; the strings together are far below 2^64 bytes.
- RemoteCall.Tracee.PtCall: covers callees that obey the stack discipline; one that pops its own return address early stops the loop there.
- RemoteCall.Tracee.PrepareExec: the loader and argument setup appear as the remote calls they make and the addresses they return.
- `elfldr_payload_args`, `elfldr_spawn`, `elfldr_debug`, `elfldr_set_heap_size`, credentials in `sys_ptrace`: kernel and SDK calls without visible semantics.
- AddressSpaces.AddressSpace.clean, RemoteCall.Tracee.clean: stand for a run in which no call fails that can be carried out; nothing is assumed when they are false.
- FileTree.FileSystem.RecurseCp: regular files and directories only; paths under 1024 bytes; source and destination apart; the listing is that of opendir time.
- Commands.CmdCp: the source and destination of a recursive copy lie apart.
- Klog.KlogWait, Transfer.CmdPut: reads hold no NUL byte, at which the source's string functions would stop.
- Progress messages of `klog_wait_install`: printing only.
- CommandLine.ParseUndoesPrint: pipelines of fewer than 256 tokens, since with 256 the terminator is stored outside the token array.
- SessionLoop.OnlyExitEnds: the return values of the commands outside Commands.dfy are read off the source, not derived.
- Allocation, dup2, close and writes to the session are taken to succeed.
- SingleInstance.UnlinkIsSafeIffGuarded: a bind succeeds whoever listens, as it does for servers given different ports.
- SessionLoop.SessionHandle: command functions appear by the values they can return, proved for those in Commands.dfy and read off the source for the others; lines of 256 tokens or more continue as if the terminator had room.
- SingleInstance.AtMostOneListener: no pid is reused, nobody else edits the pidfile and its writes succeed; starts do not overlap each other, nor stops each other.
- Session processes, sockets and the retry timing of `bind_with_retry`: a bind either succeeds or fails.
- `ls`, `ps`, `pwd`, `cat`, `mv`, `kill`, `mkdir`, help, `cmd_install` and the install clients: formatting, thin wrappers and network clients.
- src/util.c and src/proc_exec.c: not built.
