# shfs: a verified model of the file system's caches, codecs and clocks

shfs mounts a remote directory over a shell connection. This project models the parts of it in
which a small slip loses data or misreads a name, and proves what they promise. It is written in
Dafny 4.11; `dafny verify dfyconfig.toml` checks all of it.

## What is modelled

**The file cache** (`ByteFile`, `Divisors`, `Window`, `FileCache`, `WindowLaws`, `SequentialAccess`,
`Mount`, `Session`, `Scenarios`). One buffer per inode is a clean read-ahead window or a dirty
write-back window. `FileCache.ShfsFile` is a class with the original's fields over a
`RemoteFile`, whose calls fail in any pattern. `Window` holds the same steps on positions only:
which remote calls a read or write makes and where the window ends up; the methods are proved to
follow these plans, and the laws about alignment, skew and call counts are proved on the plans.

The clean-window invariant that every run keeps is this: the buffer holds the remote bytes from
the *page floor* of `offset` on. Where `offset` is a multiple of the page size that is the obvious
invariant. Where it is not, the window is *skewed*: a hit delivers bytes `offset % PAGE` positions
too early. `ExactIff` and `ReadSkewsIff` say exactly when a read is exact and when a read leaves
a skewed window; `WriteThenRead` is a run of the code in which a read returns wrong bytes. It
needs a write that ends off a page boundary, followed by two reads. Runs without writes are always exact.

**The directory cache** (`DirCache`). Pages of dentry pointers behind a header, a refill that
packs them, and a reader that finds them by position. Pages and dentries may vanish at any moment
between the steps of a call, and pages may be refused. Every call delivers exactly the next entries;
a header that claims completeness is right about every slot unless something was evicted or an entry
got no inode; and in an undisturbed cache a complete scan costs one listing.

**The command line** (`CStrings`, `Quoting`, `Names`, `CommandLine`, `Commands`). `get_name` fills a
buffer from its end, `replace_quote` escapes in place from the end, `get_ugid` and `do_command`
render into a bounded buffer, and the Perl server's five-state reader takes the line apart. The
round trip holds for all names, quotes, blanks, backslashes and newlines included.

**Times** (`Calendar`). `strctime` inverts the formula of section 4.16 of XBD, POSIX.1-2017. The
server's pattern is not anchored and keeps four digits of the year, so the time arrives unchanged
if and only if it lies before the year 10000.

**The socket and the listing** (`SockReader`, `ListLine`). `sock_readln` cuts lines from a fixed
buffer whatever pieces the socket delivers; `parse_dir` cuts an `ls -lan` line in place.

**The server's loops and the block arithmetic** (`Server`). Short reads and writes on the server, the
block sizes of a request, and the rounding of the `cachesize` option.

Where the code and its documentation differ, the model follows the code. The page on internals says a
read request attempts to read the full buffer; the code doubles the window instead. `get_name` returns 0
when a path is too long, but most callers test for a negative result and go on with the buffer as it
was; `SendOpen` and `SendUnlink` model both kinds, and `NamedIff` says when the second is right.
`sock_read` makes one socket read and reports the whole count; `ReadFrames` says when that is right.

## Model

| member | source | states |
|---|---|---|
| Divisors.EuclidIsGcd | module/fcache.c:277-280 | the reduction loop ends with the greatest common divisor: it divides both numbers and every common divisor divides it |
| FileCache.ReduceToDivisor | module/fcache.c:276-281 | the in-place loop, with its shortcut when nothing is to be reduced, computes that divisor |
| Window.FetchAligned | module/fcache.c:262-287 | every remote read is aligned to its own length, a whole number of pages, within the buffer behind what is kept, and reaches past the wanted position, so the loop makes progress |
| Window.FetchContinues | module/fcache.c:264-285 | a fetch continues the bytes of a clean window without a gap, or starts afresh on a page |
| FileCache.ShfsFile.Prepare | module/fcache.c:262-285 | the window reset and the read-ahead length of a round are those of the plan |
| FileCache.ShfsFile.Round | module/fcache.c:261-302 | a round keeps the window invariant, makes one remote read, and serves the file's bytes at the wanted position |
| FileCache.ShfsFile.ReadMisses | module/fcache.c:261-303 | the read loop delivers exactly the remote bytes, follows its plan of remote calls, and fails only when a remote read fails |
| FileCache.ShfsFile.ReadHit | module/fcache.c:243-252 | a read that begins in the window, clean or dirty, takes from the buffer exactly what is there of it; those are the bytes of the logical file, early by the skew of a clean window |
| FileCache.ShfsFile.Read | module/fcache.c:206-304 | any read: one wholly inside the window is served from the buffer without a remote call and changes nothing; one that begins inside takes that part from the buffer; any other first stores a dirty window, once, and then only reads. What the caller gets, what is left in the window and on the remote side, that a failed flush loses the dirty bytes, and the calls made |
| FileCache.ShfsFile.CopyIn | module/fcache.c:350-371 | copying into the dirty window overlays the logical file |
| FileCache.ShfsFile.TakeIn | module/fcache.c:342-371 | the part of a write the window absorbs, over its bytes or behind its end, overlays the logical file |
| FileCache.ShfsFile.FlushLoop | module/fcache.c:373-385 | the flush loop overlays the logical file by the accepted bytes; a failed flush stops it with the window intact |
| FileCache.ShfsFile.Probe | module/fcache.c:387-390 | the early one-byte write never changes the logical file, whether it fails or not |
| FileCache.ShfsFile.Write | module/fcache.c:306-393 | for any pattern of failures the logical file becomes the old one overlaid by the first `wrote` bytes; a write that joins the dirty window and fits the buffer is absorbed with no call but the probe; without failures all bytes are accepted and the calls are those of the plan; the result is negative exactly when the last call failed |
| Window.WriteInside | module/fcache.c:342-371 | a write inside or right behind the dirty window that fits the buffer grows the window and stores nothing but the probe |
| Window.WriteOutside | module/fcache.c:373-385 | a write that does not touch the dirty window stores it first |
| FileCache.ShfsFile.Sync | module/fcache.c:113-152 | after a successful sync the remote file is the logical one; after a failed one the dirty bytes are gone and the error is reported |
| FileCache.ShfsFile.Clear | module/fcache.c:176-204 | clearing drops a clean window and keeps a dirty one; the logical file stays |
| WindowLaws.ExactIff | module/fcache.c:243-252 | a read is exact for all file contents if and only if it does not hit a skewed window |
| WindowLaws.ReadSkewsIff | module/fcache.c:254-302 | a read leaves a skewed window if and only if its loop starts on an empty window at an unaligned position that is the wanted one and one remote read suffices |
| WindowLaws.LoopKeepsAligned | module/fcache.c:261-302 | a read loop that starts page-aligned stays so |
| Scenarios.RefinementFails | module/fcache.c:254-259 | the input for which refinement fails: on a mounted file, after writing ten bytes at 0 and reading page 0, the read of ten bytes at page 1 hits a skewed window, and what that window delivers is not what the file holds there |
| Scenarios.WriteThenRead | module/fcache.c:206-304 | the same run through the real methods, all remote calls succeeding: the last read returns what the skewed window delivers, which differs from the file's bytes |
| SequentialAccess.SequentialReadBound | module/fcache.c:261-302 | reading N pages one at a time through a fresh cache of 2^k pages makes at most k + ceil(N / 2^k) remote reads |
| SequentialAccess.FetchedAtOnce | module/fcache.c:261-302 | a miss is fetched with one remote read, rounded up to pages, when that fits the buffer and divides the position |
| SequentialAccess.SequentialWriteBound | module/fcache.c:349-390 | writing N bytes from 0 on in any pieces makes exactly floor((N - 1) / size) flushes of whole buffers at multiples of the buffer size, and one probe |
| Scenarios.ReadPages | module/fcache.c:206-304 | the real read method, run page by page, delivers the file and keeps that bound |
| Scenarios.WritePieces | module/fcache.c:306-393 | the real write method, run piece by piece and synced, leaves the remote file overlaid by all pieces and makes exactly those calls |
| Mount.Slots.Alloc | module/fcache.c:47-74 | a slot is taken when one is free; an allocation that then fails does not give it back |
| Mount.Inode.Open | module/fcache.c:88-111 | opening changes no contents and keeps free slots + lost slots + live windows |
| Mount.Inode.Read | module/fcache.c:235-240 | with or without a slot: what a read returns, that bytes the cache holds come from it without a remote call, what is left of the file when the flush before a read fails, and that a read fails only when a remote call did; when no call fails it returns the logical bytes unless it hits a skewed window |
| Mount.Inode.Write | module/fcache.c:335-340 | with or without a slot, for any pattern of failures, a write overlays the logical file by its first `wrote` bytes; its result is that number unless the last remote call failed |
| Mount.Inode.Close | module/fcache.c:154-174 | a close that succeeds brings the remote file up to date and frees the slot; one that fails keeps the slot but has lost the dirty bytes, so the file is what the remote side has |
| Mount.Inode.ReadPage | module/file.c:19-72 | a page of the page cache gets exactly what one read of the file delivers: the file's bytes, zeros beyond its end, unless a skewed window is hit; it fails only when a remote call did |
| Session.System.Do | module/fcache.c:88-393 | one operation on one of many files changes that file as specified and no other, and keeps the slot accounting |
| Session.Run | module/fcache.c:88-393 | from any state of the windows, for every sequence of operations, the files hold what plain byte arrays hold, each answer is theirs unless its read hits a skewed window, and slots are conserved |
| Session.MountAndRun | module/fcache.c:88-393 | from mount to last close: the same for the remote files, with the skewed answers decided by the operations' positions alone, and none in a run without writes |
| Server.ServeRead | tool/perl-code.in:113-144 | for any failing calls: the read succeeds if and only if no call that was made fails, and then, however short the calls are, the reply is the zero-padded slice of the file |
| Server.ServeWrite | tool/perl-code.in:178-219 | the write succeeds if and only if no call that was made fails, and then the file is overlaid by the data however short the calls are; when a call fails, by the part written before |
| Server.BlocksDenoteRange | module/shell.c:494-499 | block size times block offset and block count denote the requested range in both branches |
| Server.CacheCallsAreBlocks | module/shell.c:599-603 | every remote read of the cache is a single block, and a flush at a multiple of the buffer size takes the block branch |
| Server.CacheSize | module/proc.c:80-88 | the buffer gets the least power of two of pages that holds the wanted number, a positive multiple of the page size that fits an int |
| DirCache.StartClearsHeader | module/shfs_fs.h:29-39 | the first entry slot lies behind the header and no later than necessary |
| DirCache.SlotAgrees | module/dir.c:106-108 | the writer's counting and the reader's division name the same slot, and no entry's slot lies in the header |
| DirCache.WrittenStep | module/dcache.c:159-198 | with distinct names, writing the next entry keeps all earlier entries findable |
| DirCache.Dir.DgetFpos | module/dcache.c:86-122 | a slot yields a name only for a live child at that position, and then the right one |
| DirCache.Dir.TurnPage | module/dcache.c:179-192 | going to the next page keeps page * SIZE + index at the position's slot and moves no slot |
| DirCache.Dir.Place | module/dcache.c:147-197 | the entry's dentry gets its position and its slot exactly when there is a page for it; with distinct names and nothing evicted, all earlier entries stay findable |
| DirCache.Dir.FillCache | module/dcache.c:127-216 | one listing line advances position and index together, is delivered exactly when the caller waits for it and has room; the cache stays valid exactly while every entry's page could be had, and the refill goes on exactly while it is useful |
| DirCache.Dir.Refill | module/dir.c:156-181 | a refill delivers from the caller's position on as much as its buffer takes; with nothing evicted meanwhile and an inode for every entry, its header claims completeness if and only if every position is stored at its slot, whichever page allocations fail |
| DirCache.Dir.ServePage | module/dir.c:119-137 | entries served from one page are the right ones in order; a bad slot stops it |
| DirCache.Dir.ServeCached | module/dir.c:106-154 | the cache serves entries page after page until the caller is done or something is missing |
| DirCache.Dir.Readdir | module/dir.c:46-190 | every call delivers exactly the next entries, as many as the buffer takes or all that are left, whatever was evicted; an incomplete cache, or an expired one at the first listed entry, is listed anew; a complete one sends no listing command when it is young or the caller stands behind that entry |
| DirCache.ItemsAre | module/dir.c:64-79 | the entry delivered for position 0 is ".", for 1 "..", and for p the listed name p - 2 |
| DirCache.Scan | module/dir.c:46-190 | repeated calls from position 0 deliver ".", ".." and every entry once in order for any buffer sizes and evictions; undisturbed, one listing suffices |
| Quoting.ReplaceQuote | module/shell.c:41-75 | the in-place escape succeeds if and only if the escaped string and its NUL fit, and then the buffer holds it; otherwise the buffer is unchanged |
| Quoting.Backwards | module/shell.c:58-73 | the backward loop keeps s - r == 3 * q, never overwrites an unread character, and ends with the escaped string |
| Names.GetName | module/proc.c:509-535 | the path is built if and only if it and its NUL fit, and is the slash-separated path from the root |
| Names.PathRoundTrip | module/proc.c:509-535 | a path determines the components it was built from |
| Names.PathSpelled | module/proc.c:526-532 | the names stand in the path from the root down, each behind a slash |
| CommandLine.GetLine | tool/perl-code.in:427-469 | the server's reading loop is the five-state function |
| CommandLine.LineRoundTrip | module/shell.c:126-151 | any command line of plain words and quoted strings is read back argument for argument, up to exactly its newline |
| CommandLine.StreamRoundTrip | tool/perl-code.in:477-482 | any number of lines in a row is cut into exactly those lines |
| CommandLine.InputEnds | tool/perl-code.in:435-438 | when the input ends within a line, the finished arguments remain and the unfinished word or string is dropped |
| CommandLine.JunkIgnored | tool/perl-code.in:452-463 | between a closing quote and the next blank or newline, other characters but quotes are ignored |
| Commands.GetUgid | module/shell.c:85-124 | the identity prefix succeeds if and only if it and its NUL fit in `max`, and nothing is written behind `max` |
| Commands.DoCommand | module/shell.c:126-151 | a command is refused if and only if its line and NUL do not fit the socket buffer; otherwise the buffer holds the line |
| Commands.SentIsRead | module/shell.c:97-151 | the server reads back the command word, uid, group list "g1 g2 ... gn" and arguments |
| Commands.IdentityIsRead | module/shell.c:97-122 | in numbers: the value of the second word is the uid, and the third, cut at blanks, has the values of the groups in order |
| CStrings.DecValue | module/shell.c:99-115 | %d prints a sign for negative numbers and digits whose value is the number's |
| Commands.SendName | module/shell.c:77-83 | escape and rendering of a name: refused exactly when the escaped name or the line does not fit, else the server reads back exactly the name and the further words |
| Commands.SendOpen | module/file.c:165-180 | an open whose path does not fit sends nothing; one whose path fits sends exactly the path and the mode |
| Commands.SendUnlink | module/dir.c:358-375 | a removal never stops at the path: the name sent is the path if it fits, and else what the uninitialised buffer held |
| Commands.NamedIff | module/proc.c:509-535 | for callers that test for a negative result, the file named is the one meant, whatever the buffer held, if and only if its path fits; else the name does not depend on the file |
| Calendar.NextYear | module/shell.c:903-909 | the closed formula of POSIX grows by the length of each year |
| Calendar.StripYears | module/shell.c:901-910 | the year loop finds the year and the day in it |
| Calendar.SplitYear | module/shell.c:912-922 | month and day, leap day included, are the valid date of that day of the year |
| Calendar.Strctime | module/shell.c:891-927 | every time from the Epoch on becomes the one valid date and time whose POSIX seconds it is |
| Calendar.TextLayout | module/shell.c:924 | up to the year 9999 the text is fifteen characters: year, month, day, hour and minute, a dot, the second |
| Calendar.TextCut | tool/perl-code.in:382 | the server's pattern finds all fields of the printed text but only the last four digits of the year |
| Calendar.SetTimeExact | tool/perl-code.in:376-384 | the server computes the time sent if and only if the year has at most four digits, otherwise one early by whole ten-thousands of years |
| Calendar.SetTime | module/shell.c:929-940 | the time arrives unchanged if and only if it lies before the year 10000 |
| SockReader.Reader.Readln | module/proc.c:342-423 | the line returned and the content left depend on the stream only, not on how the socket cuts it; NULs pad the caller's buffer; it reads up to the end of the piece with the newline or until the buffer is full, with at most as many positive reads as the buffer had room for |
| SockReader.Reader.Read | module/proc.c:240-340 | a block read hands out the stream's next characters, as many as the buffer and one socket read have; when the buffer does not have all, it returns EIO on a closed connection, EAGAIN when the next event is a wait, and else the whole count, however short the piece |
| SockReader.NextLineIs | module/proc.c:360-373 | a line without NUL or newline that fits both buffers comes out whole |
| SockReader.NextLineCases | module/proc.c:360-381 | a line ends at its first newline if the buffer can hold that; an overlong line is cut when the buffer is full and loses its last character there |
| SockReader.ReceivedIs | module/proc.c:362-364 | of a line longer than the caller's buffer the front is kept, up to its first NUL |
| SockReader.ReadFrames | module/proc.c:342-423 | lines interleaved with blocks all come back as sent if and only if every block that is not buffered comes with one socket read, a condition on the pieces and the frames alone; up to the first that does not, all come back |
| SockReader.UncutBlocksWhole | module/proc.c:240-340 | that condition holds when no piece ends, and no wait falls, inside a block |
| SockReader.LinesWhole | module/proc.c:342-423 | and it holds for lines alone, however they are cut |
| SockReader.ShortBlock | module/proc.c:285-338 | the failure: a block that comes in two pieces is reported complete with only the first piece delivered |
| ListLine.PlainColumns | module/shell.c:224-264 | a line that begins with neither 'b' nor 'c': eight blank-free words and the exact name come back, leading, inner and trailing blanks included |
| ListLine.DeviceColumns | module/shell.c:236-243 | a line that begins with 'b' or 'c': the fifth column is "major, minor", and all nine come back |
| ListLine.ColumnsOfFormat | module/shell.c:224-264 | both in one: cutting undoes the printing of ls |
| ListLine.FormatStaysInside | module/shell.c:241-247 | on a line that ls printed the scan for a device's minor number never steps over the end |
| ListLine.ParseDir | module/shell.c:224-264 | the in-place scan yields exactly the columns, each terminated by a written NUL, and stays inside the line and its NUL, or one character behind it for a line on which it steps over the end |
| ListLine.ParsePlain | module/shell.c:224-264 | the in-place scan of a line that begins with neither 'b' nor 'c' leaves exactly its eight words and its name |
| ListLine.ParseDevice | module/shell.c:236-256 | the in-place scan of a line that begins with 'b' or 'c' leaves exactly its columns, "major, minor" being one |

## Left out

- 32-bit wrap-around of `unsigned` offsets and counts in the file cache: numbers are unbounded, so nothing overflows.
- File names in the file cache: a `RemoteFile` stands for the file, because every remote call escapes the name buffer in place once more and a repeated call on one buffer would name another file.
- The inode and dentry sanity checks that return `-EINVAL`, and the path length check inside the cache functions.
- `fcache_file_write` has no caller in the repository at present; the function itself is modelled.
- `cachesize=0`, for which the rounding loop starts at -1, and mounts without a file cache.
- `get_ugid` for a process without groups.
- `readdir` when page 0 of the directory cannot be locked, when a dentry cannot be allocated, or when revalidation of the directory fails.
- Directory listings that are cut by an error, and unread reply lines after a listing was abandoned; a listing is complete and does not change during a scan.
- SockReader.Reader.Read: does not model the socket being dropped after an error.
- SockReader.Reader.Readln: does not model the socket being dropped after an error.
- ListLine.ParseDir: for a device line that ends inside the size column the scan steps over the terminating NUL, so such a line must be two characters shorter than its buffer.
- Commands.SendUnlink: a buffer without any NUL is left out when the path does not fit, because the string then has no end.
- The branch of `sock_read` for kernels before 2.6.19.
- `clear_garbage` and the resynchronisation after a broken reply.
- The year guess for recent files in `do_ls`, documented as approximate, and its decoding of permission letters.
- Files that the server cannot open or seek.
- The shell variant of the server.
- `shfsmount`, `shfsumount`, mount option parsing other than `cachesize`, locking, signals, inode attributes and page reference counts.
