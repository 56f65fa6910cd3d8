# nzbdav core, modelled in Dafny

nzbdav is a WebDAV server that mounts the contents of NZB documents as a
virtual file system and streams them from Usenet on demand. It also
exposes a SABnzbd-compatible API, so media managers can hand it NZBs as if
it were a download client. Nothing is downloaded up front. An NZB is
indexed into a tree of database items. Each file item stores the message
ids of its segments, and each RAR member item stores the byte windows it
occupies in each RAR volume. Reads are then served by seeking through
those segments.

This project models that core as immutable datatypes with pure functions.
Methods are used for the algorithms that loop, and lemmas relate the
operations to their partners. The parts modelled are:

- **Streams.** The segment-addressed file stream, using interpolation
  search over segment byte ranges. The concatenating stream, the
  length-limiting stream and the emptiness-probing stream. The stream over
  a RAR member spread across several volumes.
- **Connections.** The NNTP connection pool, with its idle stack,
  lease/return, idle sweeping and disposal, and the lock that returns a
  borrowed connection exactly once.
- **Queue processing.** The pipeline that turns a queued NZB into database
  items:
  - the file and RAR processors, including the RAR part-number and
    archive-name rules;
  - the file and RAR aggregators, which build directories and member
    items;
  - the importable-video check;
  - the retry, pause, duplicate and failure rules that produce a history
    item;
  - bounded concurrency and first-failure task joining.
- **Queue store and API.** The queue ordering and paging in the database
  client, and the SABnzbd queue and add-file endpoints with their
  priority and post-processing codes.
- **Configuration.** Lookups with their defaults and parsers, and
  last-writer-wins loading and updating.
- **WebDAV.** The download endpoint for a single item, with its path
  normalisation and `Range` parsing. The database-backed store
  collection: the placeholder ("empty file") manager, the Windows
  upload handshake, delete rules for protected folders, and path
  resolution.
- **Naming helpers.** File-name, extension, video-extension and
  string-prefix helpers used throughout.

All sizes and positions are unbounded integers. Where the source's `int`
or `long` width changes the result, the wrap-around is written out for
`LimitedLengthStream` (see Findings); the other places where it could
matter are listed under Left out. Effects such as the network, clocks, hashing,
MIME lookup and database queries become parameters or plain values.

## Model

| member | source | states |
|---|---|---|
| InterpolationSearch.Guess | backend/Utils/InterpolationSearch.cs:23-26 | the guessed index always lies inside the index range still being searched |
| InterpolationSearch.GuessBound | backend/Utils/InterpolationSearch.cs:23-25 | scaling the target's offset by segments-per-byte gives an offset in `[0, count)` |
| InterpolationSearch.TileWithinBounds | backend/Utils/InterpolationSearch.cs:29-31 | when segment ranges tile the searched byte range, every segment's range lies within it, so the containment check never rejects a consistent file |
| InterpolationSearch.NarrowUp | backend/Utils/InterpolationSearch.cs:33-38 | after a guess that ends at or before the target, the shrunk index and byte ranges still tile each other and still contain the target |
| InterpolationSearch.NarrowDown | backend/Utils/InterpolationSearch.cs:40-45 | after a guess that starts after the target, the shrunk ranges still tile each other and still contain the target |
| InterpolationSearch.Find | backend/Utils/InterpolationSearch.cs:5-51 | a returned index lies in the searched index range and its byte range, as looked up, contains the target; the only failure is "corrupt file"; for segments that tile the byte range and a target inside it, the search always succeeds; when the first guess lands it returns after one lookup |
| InterpolationSearch.UniformFirstGuess | backend/Utils/InterpolationSearch.cs:23-26 | for equal-sized segments the first guess is `target / size`, which is the segment holding the target |
| NzbFileStream.Open | backend/Streams/NzbFileStream.cs:9-43 | a fresh stream is at position 0 and consistent with the file's contents |
| NzbFileStream.WellFormedTiles | backend/Streams/NzbFileStream.cs:99-113 | the yEnc headers of a well-formed segment list tile `[0, fileSize)`, which is what the segment search relies on |
| NzbFileStream.SegmentStart | backend/Streams/NzbFileStream.cs:115-121 | the bodies before segment `i` add up to exactly that segment's header offset |
| NzbFileStream.SuffixContent | backend/Streams/NzbFileStream.cs:124-141 | concatenating the bodies from segment `i` on yields the file contents from that segment's offset on |
| NzbFileStream.ContentLength | backend/Streams/NzbFileStream.cs:90 | the bodies of a well-formed segment list add up to the declared file size |
| NzbFileStream.GetFileStream | backend/Streams/NzbFileStream.cs:115-122 | position 0 always opens; otherwise, for a well-formed file, opening succeeds exactly when the position lies inside the file and the new inner stream yields the contents from that position on; failure is the corrupt-file error |
| NzbFileStream.FoundSuffix | backend/Streams/NzbFileStream.cs:118-120 | discarding `rangeStart - PartOffset` bytes of the stream that starts at the found segment leaves exactly the contents from `rangeStart` on |
| NzbFileStream.Read | backend/Streams/NzbFileStream.cs:55-61 | a read opens the inner stream lazily, returns at most `count` bytes that are the file's contents at the current position, advances the position by their number, makes progress while bytes remain, and keeps the stream consistent |
| NzbFileStream.ReadThrough | backend/Streams/NzbFileStream.cs:58-60 | reading through an already-open inner stream returns the next bytes of the file and advances the position by their number |
| NzbFileStream.ReadStep | backend/Streams/NzbFileStream.cs:58-60 | a read through an inner stream that yields the file's contents from the position returns the next bytes of the file, some while the position is before its end, and keeps the stream in step with the advanced position |
| NzbFileStream.ReadAtPosition | backend/Streams/NzbFileStream.cs:58-59 | a combined-stream read from position `pos` returns `content[pos..pos+n]` and leaves the rest remaining |
| NzbFileStream.Seek | backend/Streams/NzbFileStream.cs:63-75 | seeking from the end fails with an invalid-operation error; otherwise the position becomes the absolute offset, a seek to the same position changes nothing, and a move drops the inner stream and the cached first segment |
| NzbFileStream.Dispose | backend/Streams/NzbFileStream.cs:143-149 | disposing marks the stream disposed and disposes an open inner stream; disposing again changes nothing |
| CombinedStream.Open | backend/Streams/CombinedStream.cs:3-8 | a new combined stream has pulled nothing yet and will yield the concatenation of its sub-streams |
| CombinedStream.MoveNext | backend/Streams/CombinedStream.cs:32-36 | advancing the enumerator makes the next pending sub-stream current and leaves the rest pending |
| CombinedStream.FirstNonEmptyPrefix | backend/Streams/CombinedStream.cs:38-51 | the first non-empty sub-stream is empty only when all are, and it is a prefix of the concatenation |
| CombinedStream.ReadLoop | backend/Streams/CombinedStream.cs:29-52 | the loop disposes exhausted sub-streams and skips empty ones until one yields data; what it returns followed by what remains is what remained before, and the position advances by the bytes returned |
| CombinedStream.Read | backend/Streams/CombinedStream.cs:26-55 | a read returns a prefix of at most `count` bytes of the remaining concatenation, taken from one sub-stream, removes exactly those bytes and advances the position by their number; a zero count reads nothing |
| CombinedStream.ReadProgress | backend/Streams/CombinedStream.cs:28-45 | a read returns at most `count` bytes, returns at least one while data remains and `count > 0`, and the bytes are the head of what remained |
| CombinedStream.ReadManyConcatenates | backend/Streams/CombinedStream.cs:26-55 | any sequence of reads returns, concatenated, a prefix of the sub-streams' concatenation, and the rest is still remaining |
| CombinedStream.ReadManyDrains | backend/Streams/CombinedStream.cs:26-55 | enough positive-count reads return the whole concatenation |
| CombinedStream.DiscardLoop | backend/Streams/CombinedStream.cs:60-68 | the discard loop skips `min(remaining, available)` bytes of the stream and nothing else |
| CombinedStream.DiscardBytes | backend/Streams/CombinedStream.cs:57-71 | as written: skips `min(count, available)` bytes, but the position advances by those bytes and again by `count` |
| CombinedStream.DiscardDoubleCounts | backend/Streams/CombinedStream.cs:44 | discarding 2 bytes of a fresh 3-byte stream leaves position 4 while only 2 bytes were consumed |
| CombinedStream.DiscardBytesCorrected | backend/Streams/CombinedStream.cs:57-71 | discarding skips `min(count, available)` bytes and advances the position by exactly that many |
| CombinedStream.Dispose | backend/Streams/CombinedStream.cs:93-109 | disposing marks the stream disposed and disposes the current sub-stream, keeps contents and position, and a second dispose changes nothing |
| CombinedStream.DisposeIdempotent | backend/Streams/CombinedStream.cs:95 | disposing twice is the same as disposing once |
| LimitedLengthStream.ToInt32 | backend/Streams/LimitedLengthStream.cs:24 | the unchecked `(int)` cast yields a 32-bit value congruent to its argument modulo 2^32, and the argument itself when it already fits |
| LimitedLengthStream.LimitLength | backend/Streams/LimitedLengthStream.cs:3-6 | a limited view yields the first `length` bytes of its inner stream (all of them when it is shorter) |
| LimitedLengthStream.ReadAsWritten | backend/Streams/LimitedLengthStream.cs:17-35 | as written: a read either fails with an out-of-range error or returns at most `count` bytes taken from the front of the inner stream |
| LimitedLengthStream.Read | backend/Streams/LimitedLengthStream.cs:17-35 | a read returns at most `count` bytes from the front of the view, removes exactly those, advances the position by their number, returns nothing once `length` bytes were read, and makes progress while bytes remain |
| LimitedLengthStream.ReadAgreesBelowInt32 | backend/Streams/LimitedLengthStream.cs:24 | while the bytes left fit in an `int`, the read as written and the corrected read agree |
| LimitedLengthStream.TruncationEndsEarly | backend/Streams/LimitedLengthStream.cs:24-25 | with a limit of 2^32 the cast yields 0, so the read as written reports end of stream although bytes remain |
| LimitedLengthStream.TruncationThrows | backend/Streams/LimitedLengthStream.cs:24-28 | with a limit of 2^31 the cast yields a negative length and the read as written fails, where the corrected read returns data |
| LimitedLengthStream.ReadManyAsWritten | backend/Streams/LimitedLengthStream.cs:17-35 | as written, a sequence of reads either fails with the out-of-range error of the first read that throws, or returns at most the requested bytes, taken from the front of the inner stream |
| LimitedLengthStream.ReadManyAgreesBelowInt32 | backend/Streams/LimitedLengthStream.cs:24 | while the bytes left fit in an `int`, every sequence of reads as written returns exactly what the corrected reads return |
| LimitedLengthStream.ReadManyYieldsPrefix | backend/Streams/LimitedLengthStream.cs:17-35 | any sequence of reads returns, concatenated, a prefix of the view, and the rest is still readable |
| LimitedLengthStream.Dispose | backend/Streams/LimitedLengthStream.cs:52-57 | disposing marks the view disposed and disposes the inner stream only the first time |
| LimitedLengthStream.InnerDisposedOnce | backend/Streams/LimitedLengthStream.cs:54-56 | disposing any number of times disposes the inner stream exactly once |
| LimitedLengthStream.StaysDisposed | backend/Streams/LimitedLengthStream.cs:54 | disposing an already-disposed view changes nothing |
| ProbingStream.Wrap | backend/Streams/ProbingStream.cs:10-14 | a new probing stream yields exactly the inner stream's bytes |
| ProbingStream.IsEmpty | backend/Streams/ProbingStream.cs:16-35 | the first probe answers whether the stream has no bytes, buffers the byte it read so the contents are unchanged, and later probes return the remembered answer without reading |
| ProbingStream.ReadArray | backend/Streams/ProbingStream.cs:57-75 | a read returns at most `count` bytes from the front of the contents, the buffered probe byte first; it fails only for `count == 0` with a byte buffered, and the first read before any probe records emptiness from its own result |
| ProbingStream.ReadMemory | backend/Streams/ProbingStream.cs:77-100 | a read returns at most `count` bytes from the front of the contents, never fails, returns nothing for an empty buffer, and makes progress while bytes remain |
| ProbingStream.Step | backend/Streams/ProbingStream.cs:16-100 | any operation keeps the stream consistent and, when it succeeds, returns bytes from the front of the contents; only a zero-count array read can fail |
| ProbingStream.Transparent | backend/Streams/ProbingStream.cs:3-8 | any sequence of probes and reads returns, concatenated, a prefix of the inner stream, so probing never changes what is read; without zero-count array reads the sequence never fails |
| ProbingStream.ProbeFirst | backend/Streams/ProbingStream.cs:16-35 | probing a fresh stream answers "empty" exactly for no bytes, and probing again gives the same answer without change |
| ProbingStream.EmptyReadBeforeProbe | backend/Streams/ProbingStream.cs:39-43 | a zero-byte read before any probe makes later probes answer "empty" whatever the contents |
| ProbingStream.Dispose | backend/Streams/ProbingStream.cs:118-123 | disposing marks the stream disposed and disposes the inner stream only the first time |
| RarFileStream.WindowSkip | backend/Streams/RarFileStream.cs:98-101 | the window of a RAR part is exactly `ByteCount` bytes long, and opening it `skip` bytes in yields that window without its first `skip` bytes |
| RarFileStream.WindowSlice | backend/Streams/RarFileStream.cs:99-101 | seeking the volume to `Offset + skip` and limiting to `ByteCount - skip` yields the volume's bytes `[Offset + skip, Offset + ByteCount)`, also for a negative `skip` that stays inside the volume |
| RarFileStream.WindowLengths | backend/Streams/RarFileStream.cs:95-102 | every part contributes exactly its `ByteCount` bytes |
| RarFileStream.PrefixLength | backend/Streams/RarFileStream.cs:72-79 | the windows before part `i` hold exactly the running offset the seek loop computes for `i` |
| RarFileStream.MemberLength | backend/Streams/RarFileStream.cs:61 | the member's bytes add up to the sum of the parts' byte counts, the stream's `Length` |
| RarFileStream.SeekRarPart | backend/Streams/RarFileStream.cs:70-83 | the returned part is the first whose end lies past the offset, paired with the offset at which it starts; when no part ends past the offset the seek fails with an out-of-range error |
| RarFileStream.PrefixMono | backend/Streams/RarFileStream.cs:76 | running offsets never decrease while byte counts are non-negative |
| RarFileStream.SeekRarPartFailsPastEnd | backend/Streams/RarFileStream.cs:82 | the seek finds no part exactly when the offset is at or past the member's length |
| RarFileStream.GetFileStream | backend/Streams/RarFileStream.cs:85-104 | position 0 always opens; a position past the member is an out-of-range error; for well-formed parts a negative position opens the first volume that many bytes before the member's window, failing as a corrupt file when that lies before the volume's start, and otherwise the new inner stream yields what the position yields: the member from there on, or the lead bytes and then the whole member |
| RarFileStream.TailOf | backend/Streams/RarFileStream.cs:85-104 | what a stream opened at a position yields is `Length - pos` bytes long for every position from the first window's offset before the member up to its end: the member from the position on, or for a negative position the last `-pos` bytes before the member's window followed by the whole member |
| RarFileStream.TailShift | backend/Streams/RarFileStream.cs:31-32 | reading `n` bytes of what a position yields leaves exactly what the position `n` further on yields, so the position stays in step |
| RarFileStream.LeadWindows | backend/Streams/RarFileStream.cs:87-103 | opened at a negative position, the combined stream of windows yields the lead bytes and then the member |
| RarFileStream.LeadWindow | backend/Streams/RarFileStream.cs:100-101 | the first window opened `-pos` bytes early is the volume's `-pos` bytes before the window followed by the window |
| RarFileStream.ReadStep | backend/Streams/RarFileStream.cs:31-32 | a read from a stream that yields what the position yields returns the next bytes of it, some while bytes remain, and keeps the stream in step with the advanced position |
| RarFileStream.ReadFront | backend/Streams/RarFileStream.cs:31 | a read from a combined stream returns the front of what it yields and leaves the rest, and returns something when asked for bytes while any remain |
| RarFileStream.OnlyNegativeBeforeWindow | backend/Streams/RarFileStream.cs:73-78 | an offset below the start of the part the seek found can only be a negative offset found at part 0 |
| RarFileStream.FoundInside | backend/Streams/RarFileStream.cs:88-89 | starting at the found part, `rangeStart - rarPartOffset` bytes in, yields the member from `rangeStart` on |
| RarFileStream.MemberFrom | backend/Streams/RarFileStream.cs:93-103 | the windows from part `index` on, the first skipped by `skip` bytes, concatenate to the member from `PrefixSize(index) + skip` on |
| RarFileStream.SkipWindow | backend/Streams/RarFileStream.cs:95-101 | skipping into a window of the right length shifts the member suffix by exactly that skip |
| RarFileStream.MemberFromBounds | backend/Streams/RarFileStream.cs:88-89 | the start computed from a found part and an in-window skip lies inside the member |
| RarFileStream.SkipInto | backend/Streams/RarFileStream.cs:95-103 | for any sequence of chunks, dropping the first `index` chunks and `skip` bytes of the next leaves the concatenation's suffix at the matching offset |
| RarFileStream.Open | backend/Streams/RarFileStream.cs:7-15 | a fresh stream is at position 0 and consistent with the member's bytes |
| RarFileStream.Read | backend/Streams/RarFileStream.cs:28-34 | a read opens the inner stream lazily and returns at most `count` bytes, the next bytes of what the position yields (the member's bytes at a position inside it), advancing the position by their number and making progress while bytes remain; it fails with an out-of-range error at or past the end (or with no parts), and with a corrupt-file error for a non-empty read before the first volume's start |
| RarFileStream.ReadThrough | backend/Streams/RarFileStream.cs:31-33 | reading through an open inner stream returns the next bytes of what the position yields and advances the position by their number |
| RarFileStream.Seek | backend/Streams/RarFileStream.cs:36-46 | seeking from the end fails with an invalid-operation error; otherwise the position becomes the absolute offset, a seek to the same position changes nothing, and a move drops the inner stream |
| ConnectionPool.New | backend/Clients/Connections/ConnectionPool.cs:39-53 | a pool is created exactly when `maxConnections > 0`, otherwise the constructor fails with an out-of-range error; it starts with all permits free, no live connections, and a one-minute idle timeout unless one is given |
| ConnectionPool.Conns | backend/Clients/Connections/ConnectionPool.cs:109 | the connections held by a list of idle entries, position by position |
| ConnectionPool.PopIdle | backend/Clients/Connections/ConnectionPool.cs:75-83 | popping the idle stack destroys the expired entries on top and hands out the first one not expired, leaving the entries under it; when all are expired the stack ends empty and every connection was destroyed |
| ConnectionPool.ConnsCons | backend/Clients/Connections/ConnectionPool.cs:75-83 | the connections destroyed by popping `k+1` entries are the first entry's followed by those of the next `k` |
| ConnectionPool.Acquire | backend/Clients/Connections/ConnectionPool.cs:58-105 | a borrow waits exactly when no permit is free, fails with object-disposed on a disposed pool, reuses the most recently returned live connection after destroying the expired ones above it, otherwise uses the factory's connection; a factory failure gives the permit back; the pool's counts stay consistent |
| ConnectionPool.Return | backend/Clients/Connections/ConnectionPool.cs:119-136 | returning to a live pool pushes the connection on top of the idle stack stamped with the current time and frees a permit; returning to a disposed pool destroys it and lowers the live count |
| ConnectionPool.SurvivorsAppend | backend/Clients/Connections/ConnectionPool.cs:159-170 | sorting entries into survivors and expired connections distributes over concatenation |
| ConnectionPool.SurvivorsOfAppend | backend/Clients/Connections/ConnectionPool.cs:166-169 | the survivors of a concatenation are the survivors of each part, in order |
| ConnectionPool.ExpiredOfAppend | backend/Clients/Connections/ConnectionPool.cs:161-165 | the expired connections of a concatenation are those of each part, in order |
| ConnectionPool.SurvivorsExact | backend/Clients/Connections/ConnectionPool.cs:159-170 | an entry survives exactly when it is in the stack and not expired, and every entry either survives or is destroyed |
| ConnectionPool.Sweep | backend/Clients/Connections/ConnectionPool.cs:154-175 | a sweep keeps exactly the non-expired idle entries in their original stack order, destroys the expired ones, lowers the live count by their number and leaves permits alone |
| ConnectionPool.PopAll | backend/Clients/Connections/ConnectionPool.cs:157-170 | draining the stack splits it into survivors in pop order and expired connections in pop order |
| ConnectionPool.PushBack | backend/Clients/Connections/ConnectionPool.cs:172-174 | pushing survivors back from last to first restores their original order on the stack |
| ConnectionPool.Dispose | backend/Clients/Connections/ConnectionPool.cs:194-224 | disposing destroys every idle connection, empties the stack and marks the pool disposed without changing the live count; disposing again changes nothing |
| ConnectionPool.DisposeIdempotent | backend/Clients/Connections/ConnectionPool.cs:196 | disposing twice is the same as disposing once |
| ConnectionPool.BorrowReturn | backend/Clients/Connections/ConnectionPool.cs:75-78 | borrowing the live connection on top of the stack and returning it leaves the pool as it was, with that connection re-stamped |
| ConnectionLock.New | backend/Clients/Connections/ConnectionLock.cs:16-24 | a new lock holds its connection and has returned nothing yet |
| ConnectionLock.Connection | backend/Clients/Connections/ConnectionLock.cs:26-27 | the connection is available until the lock is disposed, afterwards reading it fails with object-disposed |
| ConnectionLock.Dispose | backend/Clients/Connections/ConnectionLock.cs:29-35 | disposing hands the connection back once through the synchronous callback and forgets it; disposing again does nothing |
| ConnectionLock.DisposeAsync | backend/Clients/Connections/ConnectionLock.cs:37-49 | asynchronous disposal hands the connection back once, through the asynchronous callback when there is one, and forgets it; disposing again does nothing |
| ConnectionLock.ReturnedOnce | backend/Clients/Connections/ConnectionLock.cs:29-49 | whatever mix of disposals follows, the connection is handed back exactly once, by the route of the first disposal |
| ConnectionLock.DisposedStays | backend/Clients/Connections/ConnectionLock.cs:31 | a disposed lock ignores every further disposal |
| RarProcessor.RDigits | backend/Services/FileProcessors/RarProcessor.cs:56 | finds the digits of a trailing `.rNN` (either case of `r`): a non-empty run of digits that ends the name |
| RarProcessor.RDigitsIsTheMatch | backend/Services/FileProcessors/RarProcessor.cs:56 | `RDigits` succeeds exactly when the name ends with a match of `\.r(\d+)$`, and then returns the whole trailing digit run |
| RarProcessor.PartDigits | backend/Services/FileProcessors/RarProcessor.cs:70 | finds the digits of a trailing `.partNN.rar`: the name ends in `.rar` (any case) and the digits end just before it |
| RarProcessor.ParseInt32 | backend/Services/FileProcessors/RarProcessor.cs:71 | `int.Parse` of a digit string gives its decimal value, and fails with an overflow error exactly when that exceeds the 32-bit maximum |
| RarProcessor.GetPartNumber | backend/Services/FileProcessors/RarProcessor.cs:67-79 | the `.partNN.rar` number wins, then the `.rNN` number, otherwise -1; a successful result lies in `[-1, Int32.MaxValue]` |
| RarProcessor.PartNameNumber | backend/Services/FileProcessors/RarProcessor.cs:69-71 | the name `base.partNN.rar` yields part number `NN` |
| RarProcessor.RNameNumber | backend/Services/FileProcessors/RarProcessor.cs:73-75 | the name `base.rNN` yields part number `NN` |
| RarProcessor.RarNameNumber | backend/Services/FileProcessors/RarProcessor.cs:77-78 | a plain `base.rar`, where `base` does not end in a digit, yields -1 |
| RarProcessor.TrailingDigitsOf | backend/Services/FileProcessors/RarProcessor.cs:63 | appending digits to a name that does not end in a digit makes them exactly its trailing digit run |
| RarProcessor.GetArchiveName | backend/Services/FileProcessors/RarProcessor.cs:59-65 | the archive name is the file name without its extension, with a trailing `.partNN` removed when there is one and unchanged otherwise |
| RarProcessor.PartSuffixFound | backend/Services/FileProcessors/RarProcessor.cs:63 | when the trailing digit run is preceded by `.part`, the name has a `.partNN` suffix of that length |
| RarProcessor.PartSuffixUnique | backend/Services/FileProcessors/RarProcessor.cs:63 | a name has at most one `.partNN` suffix: its digits are the whole trailing digit run |
| RarProcessor.PartSuffixIsDigitRun | backend/Services/FileProcessors/RarProcessor.cs:63 | the digits of a `.partNN` suffix are the whole trailing digit run, because `.part` ends in a non-digit |
| RarProcessor.ArchiveNameOfPart | backend/Services/FileProcessors/RarProcessor.cs:59-65 | a file `base.partNN.ext` belongs to archive `base` |
| RarProcessor.Scan | backend/Services/FileProcessors/RarProcessor.cs:81-104 | header scanning fails only with the password, unsupported-compression or invalid-archive errors (a header the reader rejects is a `Malformed` entry) |
| RarProcessor.ScanKeepsStoredFiles | backend/Services/FileProcessors/RarProcessor.cs:85-96 | every segment produced comes from a file header that is not a directory or `QO` and is stored with method 0 |
| RarProcessor.ScanKeepsAll | backend/Services/FileProcessors/RarProcessor.cs:85-101 | when every header is a stored file far from the volume's end, every header becomes a segment, in order |
| RarProcessor.GetRarHeaders | backend/Services/FileProcessors/RarProcessor.cs:81-104 | the loop fails on an undecryptable or invalid header, skips non-file, directory and `QO` headers, throws on a compressed file, stops after a header within 1000 bytes of the end, and so computes the recursive scan |
| RarProcessor.PrependEmpty | backend/Services/FileProcessors/RarProcessor.cs:84 | prepending no segments to a scan result leaves it unchanged |
| RarProcessor.PrependAssoc | backend/Services/FileProcessors/RarProcessor.cs:96 | prepending segments in two steps is prepending their concatenation, errors passing through |
| RarProcessor.ProcessAsync | backend/Services/FileProcessors/RarProcessor.cs:26-50 | the result records the volume size, archive name, part number and stored segments; it fails exactly when the part number does not parse or the scan fails |
| BaseProcessor.RarParts | backend/Queue/FileAggregators/RarAggregator.cs:11-12 | `OfType<RarProcessor.Result>()` keeps exactly the RAR volume results and nothing else |
| BaseProcessor.RarPartsInOrder | backend/Queue/FileAggregators/RarAggregator.cs:11-12 | `OfType` is an order-preserving filter: there is a strictly increasing map from the output to positions of the input, each picked position holds that very RAR volume, and every RAR volume position of the input is picked |
| RarAggregator.IndexOf | backend/Queue/FileAggregators/RarAggregator.cs:26-27 | the dictionary lookup finds the member with that path, or reports that none has it |
| RarAggregator.GroupCorrect | backend/Queue/FileAggregators/RarAggregator.cs:21-37 | grouping stored-file windows by path yields one member per distinct path, exactly the paths that occur, each holding that path's windows in volume order |
| RarAggregator.StepDistinct | backend/Queue/FileAggregators/RarAggregator.cs:26-27 | adding a window keeps member paths distinct: a new key is added only when it is absent |
| RarAggregator.StepParts | backend/Queue/FileAggregators/RarAggregator.cs:29-35 | adding a window appends its part to its own path's list and changes no other list |
| RarAggregator.StepPaths | backend/Queue/FileAggregators/RarAggregator.cs:26-29 | after adding a window the members' paths are exactly the paths of the windows seen so far |
| RarAggregator.PartsOfAbsent | backend/Queue/FileAggregators/RarAggregator.cs:26-29 | a path with no window collects no parts |
| RarAggregator.VolumeWindowsCarry | backend/Queue/FileAggregators/RarAggregator.cs:29-35 | each stored segment becomes a part with the volume's segment ids and size and the segment's offset and byte count |
| RarAggregator.EnsureDirectory | backend/Queue/FileAggregators/RarAggregator.cs:82-96 | a cached directory is returned unchanged; otherwise one new directory under the given parent is created, cached under its path key, and returned; earlier cache entries and creations are kept |
| RarAggregator.EnsureFrom | backend/Queue/FileAggregators/RarAggregator.cs:71-75 | walking the path's directory segments caches every prefix key, returns the directory of the last one, and changes nothing when all were cached |
| RarAggregator.EnsurePath | backend/Queue/FileAggregators/RarAggregator.cs:66-78 | ensuring a path only adds to the cache and the created directories; every directory prefix of the path ends up cached; the result is the mount directory for a bare name and otherwise the directory cached for the path's directory part; every directory created is the link of the chain for some prefix (named after its last segment, inside the previous prefix's directory or the mount directory), and every prefix not cached before gets a created directory |
| RarAggregator.EnsureFromLinks | backend/Queue/FileAggregators/RarAggregator.cs:70-94 | each directory the segment loop creates is named after segment `j - 1` and placed in the directory of the prefix before it, the top directory for the first segment |
| RarAggregator.EnsureFromCovers | backend/Queue/FileAggregators/RarAggregator.cs:70-94 | every prefix key the loop visits that was not cached gets a created directory whose id the cache now holds |
| RarAggregator.EnsurePathIdempotent | backend/Queue/FileAggregators/RarAggregator.cs:84 | ensuring the same path twice creates nothing the second time and returns the same directory |
| RarAggregator.MemberItem | backend/Queue/FileAggregators/RarAggregator.cs:39-63 | an archive member becomes a RAR file item named after the path's last segment, holding the member's parts, sized as the sum of their byte counts, under the directory its path ensures |
| RarAggregator.MemberItems | backend/Queue/FileAggregators/RarAggregator.cs:39-63 | every member becomes one item, in order, with its name, parts and size |
| RarAggregator.UpdateDatabase | backend/Queue/FileAggregators/RarAggregator.cs:9-17 | updating the database only adds directories and cache entries |
| RarAggregator.UpdateDatabaseCorrect | backend/Queue/FileAggregators/RarAggregator.cs:9-64 | the volumes are sorted by part number and none is lost; every distinct path inside the archive becomes exactly one item holding its parts in part-number order, sized as their sum and named after the path's last segment |
| FileAggregator.Kept | backend/Queue/FileAggregators/FileAggregator.cs:11-14 | the results kept are exactly the plain-file results with a non-empty name |
| FileAggregator.UpdateDatabase | backend/Queue/FileAggregators/FileAggregator.cs:9-35 | each kept result becomes, in order, one item and its NZB-file record |
| FileAggregator.EntriesWellFormed | backend/Queue/FileAggregators/FileAggregator.cs:16-33 | every item sits under the mount folder as an NZB file with a non-empty name, a fresh id shared with its NZB-file record, and the size and segment ids of a plain-file result of that name; ids are distinct |
| FileProcessor.ProcessAsync | backend/Queue/FileProcessors/FileProcessor.cs:22-44 | with no segments the processor fails; otherwise a readable first header yields name, size and segment ids; a missing article is skipped only for non-video files, and any other error propagates |
| FileProcessor.MissingArticleRule | backend/Queue/FileProcessors/FileProcessor.cs:37-43 | a failing header lookup is swallowed exactly when the article is missing and the file is not a video; otherwise the same error propagates |
| FileProcessor.Par2Refused | backend/Queue/FileProcessors/FileProcessor.cs:16-20 | a name ending in `.par2`, in any letter case, is never processed |
| QueueItemProcessor.CreateHistoryItem | backend/Queue/QueueItemProcessor.cs:175-191 | the history entry keeps the job's id, name and category, records the error message, and is "Completed" exactly when there is no error |
| QueueItemProcessor.PauseQueueItem | backend/Queue/QueueItemProcessor.cs:61-65 | pausing sets the pause time of the job with that id and changes no other job |
| QueueItemProcessor.GetFileProcessor | backend/Queue/QueueItemProcessor.cs:120-125 | RAR names go to the RAR processor, other names that are not `.par2` to the file processor, and the rest are skipped |
| QueueItemProcessor.DistinctByName | backend/Queue/QueueItemProcessor.cs:96-97 | the kept files have pairwise distinct names, come from the job, and every name of the job is represented |
| QueueItemProcessor.DistinctStep | backend/Queue/QueueItemProcessor.cs:96-97 | adding a file whose name is new keeps the names distinct, every kept file from the input, and every input name represented; a file whose name is already represented is dropped |
| QueueItemProcessor.DistinctByNameKeepsFirsts | backend/Queue/QueueItemProcessor.cs:96-97 | `DistinctBy` keeps the first file of each name and keeps order: every kept file sits at a position where no earlier file has its name, and the kept positions strictly increase |
| QueueItemProcessor.ToProcess | backend/Queue/QueueItemProcessor.cs:96-99 | the files processed are exactly the name-distinct files that some processor accepts |
| QueueItemProcessor.Keep | backend/Queue/QueueItemProcessor.cs:98-99 | the `Where(x => x is not null)` step keeps exactly the files some processor accepts |
| QueueItemProcessor.KeepIsSelect | backend/Queue/QueueItemProcessor.cs:98-99 | the not-null filter selects, in order, exactly the files whose processor is not `Skip` |
| QueueItemProcessor.SelectKeepsFirsts | backend/Queue/QueueItemProcessor.cs:96-99 | filtering a selection of first occurrences of names, in order, leaves a selection of first occurrences whose positions still increase |
| QueueItemProcessor.FirstInDistinct | backend/Queue/QueueItemProcessor.cs:96-97 | the first file of every name survives `DistinctBy` |
| QueueItemProcessor.ToProcessFirstsAccepted | backend/Queue/QueueItemProcessor.cs:96-100 | the files handed to a processor are, in input order, the first file of each name, each accepted by some processor; and every first file of a name that a processor accepts is among them |
| QueueItemProcessor.CategoryFolder | backend/Queue/QueueItemProcessor.cs:140-159 | the category folder sits under the content folder and carries the category's name; an existing one is reused, and a new directory is created exactly when none exists |
| QueueItemProcessor.DatabaseOperations | backend/Queue/QueueItemProcessor.cs:107-117 | the database step adds, when the category has no folder under the content folder yet, that folder first with the next id; then the mount folder, named after the job, inside the folder of the job's category (found or just added); and everything after it sits in the mount folder or in a directory the step added |
| QueueItemProcessor.AggregatedItemsPlaced | backend/Queue/QueueItemProcessor.cs:111-112 | everything the RAR and file aggregators add under a mount folder has its parent either in that mount folder or in a directory they add themselves |
| RarAggregator.UpdateDatabasePlaced | backend/Queue/FileAggregators/RarAggregator.cs:9-94 | starting from an empty directory cache, every RAR file item and every directory created sits in the mount directory or in a created directory |
| QueueItemProcessor.AsAdded | backend/Queue/QueueItemProcessor.cs:200-201 | the items the database step adds are what the change tracker reports as added, in order |
| QueueItemProcessor.ProcessOutcome | backend/Queue/QueueItemProcessor.cs:26-118 | a job ends in one of three ways: completed (moved to history without error; new items exactly when it was not a duplicate), failed (moved to history with the non-retryable error's message or "no importable videos", items unchanged), or paused for a retry (only the job's pause time changes) |
| QueueItemProcessor.DuplicateCompletes | backend/Queue/QueueItemProcessor.cs:76-82 | a job whose mount folder already exists under its category is marked completed without adding items |
| QueueItemProcessor.NoVideoFails | backend/Queue/QueueItemProcessor.cs:114-116 | with the video check enabled and no added video, the job moves to history as failed with the validator's message and every added item is discarded |
| QueueItemProcessor.RetryPauses | backend/Queue/QueueItemProcessor.cs:52-71 | a retryable error leaves history and items alone, pauses only this job for one minute, and makes it ineligible until then |
| EnsureImportableVideoValidator.IsValid | backend/Queue/Validators/EnsureImportableVideoValidator.cs:26-34 | valid exactly when some added entry that is not a directory has a video extension |
| EnsureImportableVideoValidator.ThrowIfValidationFails | backend/Queue/Validators/EnsureImportableVideoValidator.cs:18-24 | fails with the no-video error exactly when no added non-directory entry has a video file name |
| TaskUtil.FirstFailure | backend/Utils/TaskUtil.cs:21-30 | the index of the first faulted task in completion order, all tasks before it having completed |
| TaskUtil.WhenAllOrError | backend/Utils/TaskUtil.cs:15-38 | progress is reported once per completed task as `completed * 100 / total`; the first fault in completion order is rethrown after the tasks before it; with no fault every result is returned in completion order |
| TaskUtil.ProgressMonotone | backend/Utils/TaskUtil.cs:34 | reported progress never decreases, stays within 0..100, and reaches 100 on the last task |
| WithConcurrency.Enumerate | backend/Extensions/IEnumerableTaskExtensions.cs:15-63 | a concurrency below 1 fails with an argument error; otherwise every task is yielded once, in order, the first one immediately, each later one once at most `concurrency` tasks have been started |
| WithConcurrency.YieldDiscipline | backend/Extensions/IEnumerableTaskExtensions.cs:36-50 | when a task is yielded, it and the tasks before it have started, the first one alone, and at most `concurrency - 1` tasks beyond it are running ahead |
| WithConcurrency.DisposedOnAbandon | backend/Extensions/IEnumerableTaskExtensions.cs:52-62 | when the consumer stops early, the tasks started but not yet yielded are disposed: fewer than `concurrency`, in order, all real tasks |
| WithConcurrency.EnumerateUntil | backend/Extensions/IEnumerableTaskExtensions.cs:15-63 | a consumer that stops after `taken` tasks receives the first `taken` (or all) of them as the full enumeration would yield them; the `finally` block then leaves for disposal exactly the started but unyielded tasks, oldest first — none when everything was taken, when nothing was, or when `concurrency` is 1 |
| WithConcurrency.Drain | backend/Extensions/IEnumerableTaskExtensions.cs:49-50 | once the source is exhausted, queued tasks go out in order, each handed out with every source task started, until the consumer stops; whatever is left queued is exactly the run of tasks after the last one taken, as many as were started but not handed out |
| QueueStore.KeyOrder | backend/Database/DavDatabaseClient.cs:66-67 | the sort key `(-priority, createdAt)` orders jobs exactly as "higher priority first, then older first" |
| QueueStore.Ordered | backend/Database/DavDatabaseClient.cs:66-67 | `OrderByDescending(Priority).ThenBy(CreatedAt)` is a permutation of the queue in which every job precedes the ones after it |
| QueueStore.FirstEligible | backend/Database/DavDatabaseClient.cs:68-71 | the first job that is not paused, or not paused any more, and nothing when no job is eligible |
| QueueStore.TopQueueItemCorrect | backend/Database/DavDatabaseClient.cs:62-72 | the top item is absent exactly when every job is paused; otherwise it is an eligible queued job that precedes every other eligible job |
| QueueStore.FirstEligibleLeast | backend/Database/DavDatabaseClient.cs:68-71 | in an ordered queue the first eligible job precedes every eligible job |
| QueueStore.OrderedMembers | backend/Database/DavDatabaseClient.cs:66-67 | ordering neither adds nor drops jobs |
| QueueStore.InCategory | backend/Database/DavDatabaseClient.cs:83 | the filter keeps exactly the jobs of the category, or all of them when no category is given |
| QueueStore.Page | backend/Database/DavDatabaseClient.cs:86-87 | `Skip(start).Take(limit)`, run as SQLite's `LIMIT … OFFSET …`, is the slice from `start` of at most `limit` items, clamped to the list: a negative start counts as zero, a zero limit gives nothing and a negative limit means no limit |
| QueueStore.QueueItemsCorrect | backend/Database/DavDatabaseClient.cs:74-101 | a page holds only queued jobs of the category, in queue order, at most `limit` of them; a negative limit yields the same page as no limit; two consecutive pages of size `limit` make up the page of size `2 * limit` |
| QueueStore.PageOf | backend/Database/DavDatabaseClient.cs:86-87 | a page of an ordered list holds members of it, in order, at most `limit` of them, and everything from `start` on when the limit is negative |
| QueueStore.PagesTile | backend/Database/DavDatabaseClient.cs:86-87 | consecutive pages tile the list with no gap or overlap |
| QueueStore.RemoveQueueItem | backend/Database/DavDatabaseClient.cs:103-115 | removing a job keeps exactly the jobs with another id, and removing an absent id is not an error |
| QueueStore.RemoveIdempotent | backend/Database/DavDatabaseClient.cs:110-114 | removing twice is removing once, and removing an absent id leaves the queue unchanged |
| QueueStore.TotalSizeAppend | backend/Database/DavDatabaseClient.cs:25 | the size sum over two tables is the sum of the sums |
| QueueStore.RootRecursiveSize | backend/Database/DavDatabaseClient.cs:21-26 | the root's recursive size sums every item's size, null counting as 0, and is never negative when no size is |
| QueueStore.NonNegativeSizes | backend/Database/DavDatabaseClient.cs:25 | summing non-negative sizes gives a non-negative total |
| GetQueue.TruncDiv | backend/Api/SabControllers/GetQueue/GetQueueController.cs:45 | C#'s integer `/` truncates toward zero, which differs from Euclidean division only for negative dividends |
| GetQueue.BytesLeft | backend/Api/SabControllers/GetQueue/GetQueueController.cs:45 | the bytes left lie between 0 and the total for a percentage in 0..100, are the total at 0% and none at 100% |
| GetQueue.BytesLeftMonotone | backend/Api/SabControllers/GetQueue/GetQueueController.cs:45 | more progress never leaves more bytes to go |
| GetQueue.Without | backend/Api/SabControllers/GetQueue/GetQueueController.cs:24 | the page keeps exactly the jobs other than the one in progress |
| GetQueue.GetQueueSlots | backend/Api/SabControllers/GetQueue/GetQueueController.cs:16-59 | slots are numbered from 0 in order; exactly the first slot is "Downloading", and only when a job is in progress; a queued slot shows 0% and its full size left |
| GetQueue.InProgressListedOnce | backend/Api/SabControllers/GetQueue/GetQueueController.cs:23-33 | the job in progress is listed first with its percentage and never again, and every other job of the page follows |
| GetQueue.IdleListsPage | backend/Api/SabControllers/GetQueue/GetQueueController.cs:28-42 | with nothing in progress the slots are the page's jobs, in order, all "Queued" |
| GetQueue.WithoutNone | backend/Api/SabControllers/GetQueue/GetQueueController.cs:24 | comparing with a missing in-progress id drops nothing |
| AddFileRequest.MapPriorityOption | backend/Api/SabControllers/AddFile/AddFileRequest.cs:42-56 | a missing priority means Normal, an unknown code is a bad request, and no code maps to Default |
| AddFileRequest.PriorityCode | backend/Api/SabControllers/AddFile/AddFileRequest.cs:46-52 | the query code of a priority is its numeric enum value in decimal |
| AddFileRequest.PriorityCodes | backend/Api/SabControllers/AddFile/AddFileRequest.cs:42-56 | every priority other than Default round-trips through its code, Default's code `-100` comes back as Normal, and every accepted code other than `-100` is the code of what it maps to |
| AddFileRequest.MapPostProcessingOption | backend/Api/SabControllers/AddFile/AddFileRequest.cs:58-70 | a missing option means None, an unknown code is a bad request, and no code maps to Default |
| AddFileRequest.PostProcessingCode | backend/Api/SabControllers/AddFile/AddFileRequest.cs:62-66 | the query code of a post-processing option is its numeric enum value in decimal |
| AddFileRequest.PostProcessingCodes | backend/Api/SabControllers/AddFile/AddFileRequest.cs:58-70 | every option other than Default round-trips through its code, Default's code `-1` comes back as None, and every accepted code other than `-1` is the code of what it maps to |
| AddFileRequest.New | backend/Api/SabControllers/AddFile/AddFileRequest.cs:18-40 | the `nzbFile` form file is preferred over `name`; with neither, a wrong MIME type or no `cat` the request is refused with the matching message, checked in that order; otherwise it is accepted exactly when priority and post-processing parse, and carries the file, category and both options |
| AddFileRequest.AddFile | backend/Api/SabControllers/AddFile/AddFileController.cs:19-42 | the queued job keeps the request's file name, priority and options, gets the new id and time, is named after the file without its extension, and is eligible at once |
| AddFileRequest.QueuedPriority | backend/Api/SabControllers/AddFile/AddFileRequest.cs:42-56 | a queued job's priority lies in -3..2; no priority or `-100` gives Normal (0), and any other accepted code is the priority's own number |
| ConfigManager.LastValue | backend/Config/ConfigManager.cs:20-23 | the value a sequence of assignments leaves for a name is present exactly when the name is assigned |
| ConfigManager.Apply | backend/Config/ConfigManager.cs:39-42 | assigning items one after another keeps every old key, adds the assigned ones, and each assigned key ends with its last assigned value |
| ConfigManager.GetConfigValue | backend/Config/ConfigManager.cs:27-33 | a lookup returns the stored value, or nothing for an unknown name |
| ConfigManager.LoadConfig | backend/Config/ConfigManager.cs:13-25 | after loading, the names are exactly the stored rows' names, each with its last row's value |
| ConfigManager.LoadForgetsOldValues | backend/Config/ConfigManager.cs:19 | loading clears the old dictionary: a name no row mentions has no value afterwards |
| ConfigManager.DistinctSnoc | backend/Config/ConfigManager.cs:46 | a list has distinct names exactly when its prefix does and its last name is new |
| ConfigManager.ToDictionary | backend/Config/ConfigManager.cs:46 | `ToDictionary` succeeds exactly when the names are distinct, otherwise fails with an argument error; on success it maps every name to its value and nothing else |
| ConfigManager.UpdateValues | backend/Config/ConfigManager.cs:35-50 | the values are always applied; with a listener the change event is raised exactly when the names are distinct and the duplicate-key error occurs otherwise; the event carries the updated configuration |
| ConfigManager.UpdateValuesCorrect | backend/Config/ConfigManager.cs:35-50 | after an update an untouched name keeps its value and a touched name has its last new value; the event's changed set is exactly the touched names, with their new values |
| ConfigManager.DistinctLast | backend/Config/ConfigManager.cs:39-42 | with distinct names each item's value is the one its name ends with |
| ConfigManager.EmptyToNull | backend/Config/ConfigManager.cs:54 | an empty string counts as missing, any other value is kept |
| ConfigManager.Configured | backend/Config/ConfigManager.cs:54-55 | a setting comes from the configuration when set and non-empty, else from the environment variable when set and non-empty, and is never empty |
| ConfigManager.GetRcloneMountDir | backend/Config/ConfigManager.cs:52-57 | the mount directory is never empty and falls back to `/tmp` |
| ConfigManager.MountDirFallback | backend/Config/ConfigManager.cs:52-57 | the mount directory is the configured value, else `MOUNT_DIR`, else `/tmp`, skipping empty values |
| ConfigManager.GetApiKey | backend/Config/ConfigManager.cs:59-63 | the API key fails exactly when neither the configuration nor `FRONTEND_BACKEND_API_KEY` supplies one |
| ConfigManager.GetApiCategories | backend/Config/ConfigManager.cs:65-70 | the categories are never empty and default to `audio,software,tv,movies` |
| ConfigManager.ParseInt32 | backend/Config/ConfigManager.cs:74 | `int.Parse` yields a 32-bit value or a format or overflow error; a digit string, optionally after one `+` or `-`, parses exactly when its signed value fits, to that value |
| ConfigManager.GetConnectionsPerStream | backend/Config/ConfigManager.cs:72-79 | connections per stream default to 1 and are otherwise the parse of the configured text |
| ConfigManager.GetWebdavUser | backend/Config/ConfigManager.cs:81-85 | the WebDAV user comes from the configuration, else from `WEBDAV_USER`, and is never empty |
| ConfigManager.GetWebdavPasswordHash | backend/Config/ConfigManager.cs:87-94 | a stored hash wins; otherwise a `WEBDAV_PASSWORD` variable, even an empty one, is hashed; otherwise there is none |
| ConfigManager.ParseBool | backend/Config/ConfigManager.cs:100 | `bool.Parse` accepts exactly "true" and "false" in any letter case |
| ConfigManager.IsEnsureImportableVideoEnabled | backend/Config/ConfigManager.cs:96-101 | the video check is on unless configured; it is off only for a stored "false" in some letter case |
| GetWebdavItemRequest.NormalizePath | backend/Api/Controllers/GetWebdavItem/GetWebdavItemRequest.cs:17-21 | normalising only strips a prefix of the request path: the item path is a suffix of it |
| GetWebdavItemRequest.ViewRoute | backend/Api/Controllers/GetWebdavItem/GetWebdavItemRequest.cs:17-21 | the request path `/view/p` names item `p` |
| GetWebdavItemRequest.PlainPathKept | backend/Api/Controllers/GetWebdavItem/GetWebdavItemRequest.cs:18-20 | a path that starts with neither `/` nor `view` is used as it is |
| GetWebdavItemRequest.ParseLong | backend/Api/Controllers/GetWebdavItem/GetWebdavItemRequest.cs:33-34 | `long.Parse` accepts exactly non-empty digit strings whose value fits in 64 bits, yielding that value; too large is an overflow, anything else a format error |
| GetWebdavItemRequest.ParseRangeAsWritten | backend/Api/Controllers/GetWebdavItem/GetWebdavItemRequest.cs:29-34 | as written: a header not starting with `bytes=` means no range; otherwise the first non-empty piece between dashes is the start and the second, if any, the end |
| GetWebdavItemRequest.ParseRange | backend/Api/Controllers/GetWebdavItem/GetWebdavItemRequest.cs:29-34 | a header not starting with `bytes=` means no range; `bytes=-N` is the suffix range of the last N bytes; otherwise the reading is the source's |
| GetWebdavItemRequest.ParsersAgree | backend/Api/Controllers/GetWebdavItem/GetWebdavItemRequest.cs:29-34 | on every header that is not a suffix range the corrected parser and the parser as written agree, errors included |
| GetWebdavItemRequest.DigitsHaveNoDash | backend/Api/Controllers/GetWebdavItem/GetWebdavItemRequest.cs:32 | a decimal number is non-empty and holds no dash, so splitting on `-` keeps it whole |
| GetWebdavItemRequest.DashPieces | backend/Api/Controllers/GetWebdavItem/GetWebdavItemRequest.cs:32 | splitting `a-b` on dashes, dropping empty pieces, gives the non-empty ones of `a` and `b` |
| GetWebdavItemRequest.NumberPiece | backend/Api/Controllers/GetWebdavItem/GetWebdavItemRequest.cs:33 | a number written in decimal parses back to itself |
| GetWebdavItemRequest.ClosedRangeRoundTrip | backend/Api/Controllers/GetWebdavItem/GetWebdavItemRequest.cs:29-34 | the header `bytes=S-E` parses back to start S and end E, with either parser |
| GetWebdavItemRequest.ClosedRangePieces | backend/Api/Controllers/GetWebdavItem/GetWebdavItemRequest.cs:31-34 | the header `bytes=S-E` is split into exactly the pieces `S` and `E`, each parsing to its number |
| GetWebdavItemRequest.TwoPieces | backend/Api/Controllers/GetWebdavItem/GetWebdavItemRequest.cs:32 | two dash-free, non-empty pieces joined by a dash split back into exactly those two |
| GetWebdavItemRequest.OpenRangeRoundTrip | backend/Api/Controllers/GetWebdavItem/GetWebdavItemRequest.cs:29-34 | the header `bytes=S-` parses back to start S with no end, with either parser |
| GetWebdavItemRequest.SuffixRangeAsWritten | backend/Api/Controllers/GetWebdavItem/GetWebdavItemRequest.cs:32-33 | as written, the suffix range `bytes=-N` is read as "from byte N to the end" |
| GetWebdavItemRequest.SuffixRangeRoundTrip | backend/Api/Controllers/GetWebdavItem/GetWebdavItemRequest.cs:29-34 | the corrected parser reads `bytes=-N` as the last N bytes |
| GetWebdavItemRequest.SuffixPieces | backend/Api/Controllers/GetWebdavItem/GetWebdavItemRequest.cs:32-33 | the header `bytes=-N` has a body starting with a dash and splits into the single piece `N` |
| GetWebdavItemRequest.New | backend/Api/Controllers/GetWebdavItem/GetWebdavItemRequest.cs:14-35 | a request with a wrong download key is unauthorized; otherwise it is built exactly when the range header parses as the source reads it, naming the normalised path and the two bounds, and fails with the parser's error otherwise |
| GetWebdavItemRequest.NewCorrected | backend/Api/Controllers/GetWebdavItem/GetWebdavItemRequest.cs:14-35 | the same construction with suffix ranges kept apart: unauthorized for a wrong key, else built exactly when the corrected parser accepts the header |
| GetWebdavItemRequest.NewAgrees | backend/Api/Controllers/GetWebdavItem/GetWebdavItemRequest.cs:29-34 | for every header that is not a suffix range, both constructions fail alike or name the same item and the same range |
| GetWebdavItemController.GetContentType | backend/Api/Controllers/GetWebdavItem/GetWebdavItemController.cs:68-76 | by lower-cased extension: `.mkv` is served as `video/webm`, `.rclonelink` and `.nfo` as `text/plain`, anything else as the MIME table says for the file name, defaulting to `application/octet-stream` |
| GetWebdavItemController.ContentTypeOfExtension | backend/Api/Controllers/GetWebdavItem/GetWebdavItemController.cs:70-73 | a name ending in `.MKV`, `.Nfo` and so on gets the fixed type whatever the letter case |
| GetWebdavItemController.RespondAsWritten | backend/Api/Controllers/GetWebdavItem/GetWebdavItemController.cs:16-51 | as written: no range sends the whole file with status 200; a range sends status 206, announces the computed chunk size as `Content-Length`, and sends a body that continues the content at the start, all of the rest when no end was given |
| GetWebdavItemController.ChunkSize | backend/Api/Controllers/GetWebdavItem/GetWebdavItemController.cs:33-34 | the announced length is `end - start + 1`, and with no end it is the bytes from the start to the end of the file |
| GetWebdavItemController.SendFailure | backend/Api/Controllers/GetWebdavItem/GetWebdavItemController.cs:37-60 | a negative computed length fails with an invalid-operation error whatever backs the file; otherwise only a file served from segments or RAR parts fails, and only when a range from a non-zero start at or past its end reads the stream: a corrupt-file error for segments, an out-of-range error for RAR parts; a file in memory never fails there |
| GetWebdavItemController.PastEndAsWritten | backend/Api/Controllers/GetWebdavItem/GetWebdavItemController.cs:30-60 | a start at or past the end of a file in memory is answered 206 with an empty body, and fails for a file served from segments or RAR parts, where the corrected response is 416 |
| GetWebdavItemController.LengthMismatchAsWritten | backend/Api/Controllers/GetWebdavItem/GetWebdavItemController.cs:33-42 | for a start inside the file and an end at or past its last byte, the announced Content-Length `end - start + 1` is larger than the body that is sent |
| GetWebdavItemController.ResolveRange | backend/Api/Controllers/GetWebdavItem/GetWebdavItemController.cs:30-34 | a resolved span lies inside the file; a range is unsatisfiable only for an empty file, a suffix range of an empty file or a zero-length suffix, or a start at or past the end |
| GetWebdavItemController.Respond | backend/Api/Controllers/GetWebdavItem/GetWebdavItemController.cs:16-51 | the announced length always equals the body's length, and the status is 200, 206 or 416 |
| GetWebdavItemController.RespondServesSpan | backend/Api/Controllers/GetWebdavItem/GetWebdavItemController.cs:30-44 | a 206 response always names a span inside the file and carries exactly the bytes of that span, and only 206 responses name a span |
| GetWebdavItemController.AgreesInsideFile | backend/Api/Controllers/GetWebdavItem/GetWebdavItemController.cs:30-48 | for ranges inside the file, and for no range, the corrected response is the one the source sends |
| GetWebdavItemController.SuffixServesTail | backend/Api/Controllers/GetWebdavItem/GetWebdavItemController.cs:30-44 | `bytes=-N` is served as the last N bytes, where the source serves everything from byte N |
| GetWebdavItemController.HandleRequest | backend/Api/Controllers/GetWebdavItem/GetWebdavItemController.cs:16-66 | as written: a wrong key answers 401 with no body; a range header the source cannot read is that parse error; a path that is not a file is "The file does not exist."; a file is served exactly when `SendFailure` finds nothing, and fails with that error otherwise; served, a file with no range is sent whole with 200, and with a range as 206 with a body that continues the file at the start |
| GetWebdavItemController.HandleRequestCorrected | backend/Api/Controllers/GetWebdavItem/GetWebdavItemController.cs:16-66 | the same errors, but a served file's announced length always equals its body, and a 206 carries exactly the bytes of a span inside the file |
| GetWebdavItemController.InvertedRangeAsWritten | backend/Api/Controllers/GetWebdavItem/GetWebdavItemController.cs:33-43 | a range whose end lies more than one byte before its start computes a negative `Content-Length`, so the response fails with an invalid-operation error whatever backs the file, where the corrected response sends the whole file with 200 |
| GetWebdavItemController.ServesAlike | backend/Api/Controllers/GetWebdavItem/GetWebdavItemController.cs:30-48 | for no range or a range inside the file, the response built from the source's reading equals the corrected response |
| GetWebdavItemController.HandlersAgree | backend/Api/Controllers/GetWebdavItem/GetWebdavItemController.cs:53-66 | the handler as written and the corrected one answer identically unless the range is a suffix range or reaches outside the file |
| NzbFileExtensions.MessageIds | backend/Extensions/NzbFileExtensions.cs:13 | the message ids of the segments, position by position |
| NzbFileExtensions.GetOrderedSegmentIds | backend/Extensions/NzbFileExtensions.cs:9-15 | one message id per segment |
| NzbFileExtensions.OrderedSegmentIdsCorrect | backend/Extensions/NzbFileExtensions.cs:9-15 | the ids are those of the segments sorted by segment number, a permutation of the segments in ascending number order in which segments with equal numbers keep their document order |
| NzbFileExtensions.FirstValidNonEmpty | backend/Extensions/NzbFileExtensions.cs:72-78 | the chosen name is one of the candidates, or empty, and never contains a directory separator |
| NzbFileExtensions.FirstValidNonEmptyIsFirst | backend/Extensions/NzbFileExtensions.cs:72-78 | the result is empty exactly when no candidate is a non-empty bare file name; otherwise it is the first such candidate |
| NzbFileExtensions.ShiftNone | backend/Extensions/NzbFileExtensions.cs:74-77 | skipping an unacceptable first candidate does not change which candidates are acceptable |
| NzbFileExtensions.GetSubjectFileName | backend/Extensions/NzbFileExtensions.cs:48-54 | the subject name is the quoted name when that is a non-empty bare file name, else the SABnzbd-style match, else empty |
| NzbFileExtensions.TrimLeadingDots | backend/Extensions/NzbFileExtensions.cs:28 | `TrimStart('.')` yields a suffix of its argument that does not start with a dot |
| NzbFileExtensions.ExtensionLength | backend/Extensions/NzbFileExtensions.cs:28 | the extension's length without its dot, 0 when there is none |
| NzbFileExtensions.ChooseFileName | backend/Extensions/NzbFileExtensions.cs:17-34 | the subject's name wins when it has an extension of 2 to 4 characters; an empty subject name defers to the header's; otherwise the header's name is used only when its own extension is plausible |
| NzbFileExtensions.HeaderConsultedOnlyWhenNeeded | backend/Extensions/NzbFileExtensions.cs:26-29 | when the subject name has a plausible extension the header's name cannot change the outcome, so it need not be fetched |
| FilenameUtil.InListIsIn | backend/Utils/FilenameUtil.cs:5-11 | membership in the extension list, written as a scan, is plain set membership |
| FilenameUtil.VideoExtensionShape | backend/Utils/FilenameUtil.cs:5-11 | every listed video extension is at least three characters and starts with a dot |
| FilenameUtil.NoExtensionNoVideo | backend/Utils/FilenameUtil.cs:13-16 | a name without an extension is never a video |
| FilenameUtil.ExtensionOfAppend | backend/Utils/FilenameUtil.cs:15 | appending a dotted extension without further dots or separators makes it the name's extension |
| FilenameUtil.LastExtensionDecides | backend/Utils/FilenameUtil.cs:13-16 | whether `base + ext` is a video depends only on the lower-cased last extension |
| FilenameUtil.Par2NotVideoExtension | backend/Utils/FilenameUtil.cs:5-11 | `.par2` is not a video extension |
| FilenameUtil.MkvVideoExtension | backend/Utils/FilenameUtil.cs:5-11 | `.mkv` is a video extension |
| FilenameUtil.Par2AfterVideo | backend/Utils/FilenameUtil.cs:13-16 | `x.mkv.par2` is not a video: only the last extension counts |
| FilenameUtil.UpperCaseVideo | backend/Utils/FilenameUtil.cs:15 | `x.MKV` is a video: the extension is compared lower-cased |
| FilenameUtil.LastIndexOfLower | backend/Utils/FilenameUtil.cs:15 | lower-casing does not move the last dot or separator |
| FilenameUtil.ToLowerIdempotent | backend/Utils/FilenameUtil.cs:15 | lower-casing twice is lower-casing once |
| FilenameUtil.ExtensionOfLower | backend/Utils/FilenameUtil.cs:15 | the extension of the lower-cased name is the lower-cased extension |
| FilenameUtil.LowerSuffix | backend/Utils/FilenameUtil.cs:15 | lower-casing commutes with dropping a prefix |
| FilenameUtil.CaseInsensitive | backend/Utils/FilenameUtil.cs:13-16 | a name is a video exactly when its lower-cased form is |
| StringExtensions.IsAny | backend/Extensions/StringExtensions.cs:5-8 | true exactly when the value equals one of the accepted values |
| StringExtensions.RemovePrefix | backend/Extensions/StringExtensions.cs:10-13 | a present prefix is removed so that prefix and result make up the value; otherwise the value is unchanged |
| StringExtensions.RemovePrefixRoundTrip | backend/Extensions/StringExtensions.cs:10-13 | removing a prefix from `prefix + rest` gives back `rest` |
| DavItems.ProtectedExactly | backend/Extensions/DavItemExtensions.cs:7-18 | an item is protected exactly when its id is that of the root, the NZB folder, the content folder or the symlink folder; these four are protected and distinct |
| DavItems.ProtectionByIdOnly | backend/Extensions/DavItemExtensions.cs:15-18 | protection depends on the id alone |
| EmptyFileManager.GetEmptyFileManager | backend/WebDav/Base/BaseStoreEmptyFileManager.cs:10-20 | returns the manager registered for the key, registering a fresh empty one when there is none; no other key's manager changes and no other key is added |
| EmptyFileManager.ManagerMemoised | backend/WebDav/Base/BaseStoreEmptyFileManager.cs:10-20 | asking twice for the same key gives the same manager and leaves the registry as the first call left it; every key still resolves to the manager it had |
| EmptyFileManager.Get | backend/WebDav/Base/BaseStoreEmptyFileManager.cs:27-30 | finds a placeholder exactly when one with that name is held, and it carries that name |
| EmptyFileManager.Add | backend/WebDav/Base/BaseStoreEmptyFileManager.cs:32-35 | `TryAdd`: a name already held leaves the manager unchanged, a new name is appended; names stay distinct |
| EmptyFileManager.Without | backend/WebDav/Base/BaseStoreEmptyFileManager.cs:39 | exactly the other names remain |
| EmptyFileManager.WithoutValid | backend/WebDav/Base/BaseStoreEmptyFileManager.cs:39 | removing a name keeps the names distinct |
| EmptyFileManager.Remove | backend/WebDav/Base/BaseStoreEmptyFileManager.cs:37-40 | `TryRemove`: reports whether the name was held, afterwards it is not, every other name is untouched, and a miss changes nothing |
| EmptyFileManager.AddThenRemove | backend/WebDav/Base/BaseStoreEmptyFileManager.cs:27-40 | a placeholder just added is found by name, and removing it restores the manager and reports success |
| EmptyFileManager.WithoutAppend | backend/WebDav/Base/BaseStoreEmptyFileManager.cs:39 | removing the name just appended gives back the original names |
| StoreCollection.GetItem | backend/WebDav/DatabaseStoreCollection.cs:94-110 | directories and the symlink root become collections, files become files, and only the NZB folder becomes the watch folder |
| StoreCollection.DirectoryChild | backend/Database/DavDatabaseClient.cs:16-19 | finds a child with that parent and name when one exists, and finds nothing exactly when none does |
| StoreCollection.DirectoryChildren | backend/Database/DavDatabaseClient.cs:11-14 | exactly the items whose parent is the directory |
| StoreCollection.KeysDistinct | backend/WebDav/DatabaseStoreCollection.cs:23 | directories with different ids have different placeholder-registry keys |
| StoreCollection.GetItemAsync | backend/WebDav/Base/BaseStoreCollection.cs:60-67 | a stored child wins; otherwise the placeholder of that name is found exactly when one is held |
| StoreCollection.GetItemsAsync | backend/WebDav/Base/BaseStoreCollection.cs:48-58 | the stored children, converted one by one, followed by one entry per placeholder in order |
| StoreCollection.CreateItemAsync | backend/WebDav/Base/BaseStoreCollection.cs:69-112 | an empty upload of a new name creates a placeholder and answers Created; a non-empty new upload or an overwrite is refused by the database collection and drops any placeholder of that name; an existing name without overwrite answers Conflict and changes nothing; stored items never change |
| StoreCollection.Unsupported | backend/WebDav/DatabaseStoreCollection.cs:25-62 | copy, create, create-collection and move are all refused with an invalid-operation error |
| StoreCollection.RemoveItem | backend/WebDav/DatabaseStoreCollection.cs:77 | exactly the other items remain |
| StoreCollection.DeleteStoredItem | backend/WebDav/DatabaseStoreCollection.cs:64-92 | the root answers Forbidden, a missing name NotFound; Ok exactly for a file or an unprotected directory, which is then gone; any other answer leaves the items as they were |
| StoreCollection.DeleteItemAsync | backend/WebDav/Base/BaseStoreCollection.cs:158-168 | a held placeholder is removed with Ok and no stored item touched; otherwise the answer and the items are those of the stored delete and the placeholders are unchanged |
| StoreCollection.ProtectedSurvive | backend/WebDav/DatabaseStoreCollection.cs:82-91 | no delete ever removes a protected directory |
| StoreCollection.UploadHandshake | backend/WebDav/Base/BaseStoreCollection.cs:80-111 | the client's three-step upload: the empty create makes a visible placeholder, the overwriting create is refused and drops it, and the clean-up delete then finds nothing and leaves the items as they were |
| StoreCollection.PlaceholdersIsolated | backend/WebDav/Base/BaseStoreCollection.cs:25 | creating or deleting in one directory never changes another directory's placeholders |
| StoreCollection.ResolveSegments | backend/WebDav/Base/BaseStoreCollection.cs:187-199 | a missing first segment resolves to nothing, and a single segment is a plain lookup |
| StoreCollection.ResolveAppend | backend/WebDav/Base/BaseStoreCollection.cs:183-202 | resolving `a + b` resolves `a` first and continues with `b` only from a collection |
| StoreCollection.ResolvePath | backend/WebDav/Base/BaseStoreCollection.cs:183-202 | a path without separators is a single lookup |
| StoreCollection.ResolvePathStep | backend/WebDav/Base/BaseStoreCollection.cs:183-202 | `a/rest` looks up `a` and resolves `rest` from it when it is a collection, and resolves to nothing otherwise |
| Sorting.SortByCorrect | backend/Queue/FileAggregators/RarAggregator.cs:13 | the sort yields a permutation that is ordered by the key and stable: elements with equal keys keep their order |
| Text.DecimalRoundTrip | backend/WebDav/DatabaseStoreCollection.cs:23 | an id written out in decimal reads back as the same id, so the written form identifies the directory |
| Text.SplitJoin | backend/WebDav/Base/BaseStoreCollection.cs:185 | splitting on a separator loses nothing: the pieces joined with it give back the string, and no piece contains it |
| Text.SplitAt | backend/WebDav/Base/BaseStoreCollection.cs:185 | splitting `a + sep + b` with `a` free of the separator gives `a` followed by the pieces of `b` |
| Paths.FileNameFixedPoint | backend/Extensions/NzbFileExtensions.cs:74 | a name equals its own file name exactly when it contains no directory separator |
| Paths.ExtensionShape | backend/Utils/FilenameUtil.cs:15 | a non-empty extension starts with its only dot, holds no separator, and completes the name without extension to the file name |
| Paths.LastIndexOfAppend | backend/Utils/FilenameUtil.cs:15 | the last occurrence in `a + b` lies in `b` when `b` holds the character, and otherwise is the last occurrence in `a` |

## Left out

- NNTP protocol clients, Usenet article fetching and yEnc decoding. A segment's decoded bytes are an input.
- Short reads of network streams. An underlying stream is assumed to return `min(count, remaining)` bytes.
- `BufferToEndStream` and read-ahead buffering. They change timing, not content.
- Concurrency, locks, cancellation tokens and task scheduling. Operations are modelled one at a time. Cancellation appears only as the `Canceled` task outcome in `TaskUtil`.
- Clocks. `Environment.TickCount64` is an input `nowMillis`, and the pool's idle timeout is compared against it.
- ConnectionPool.IsExpired: the `unchecked` 64-bit subtraction is not wrapped, and a caller passing `nowMillis == 0` (which makes the source read the clock) is not distinguished from any other time.
- RAR and 7z header parsing (SharpCompress). Headers are abstract records. A `CryptographicException` is modelled as the header result `Locked`.
- Regular-expression engines. The RAR name patterns (`\.r(\d+)$`, `\.part(\d+)\.rar$`, `\.part\d+$`) are written out over characters, with `$` read as the very end of the name; the lines for `RarProcessor` below name what that leaves out. The quoted-subject and SABnzbd subject patterns are not modelled: their matches are parameters of `NzbFileExtensions.GetSubjectFileName`.
- Culture-sensitive text handling. `ToLower` is modelled as ASCII-only case folding and the patterns' `\d` as the ASCII digits `0`-`9`; the source's culture-aware lower-casing and Unicode decimal digits are not modelled. This bears on `FilenameUtil.IsVideoFile`, `StringExtensions.RemovePrefix` (the source's `StartsWith(string)` compares under the current culture), `ConfigManager.ParseBool`, the `.par2` test in `FileProcessor` and the RAR part-number parsing in `RarProcessor`, which agree with the source on ASCII names only.
- NZB XML document parsing. A file's subject and segments are inputs.
- Download-key verification (SHA-256 of path and API key). Whether the key is valid is an input.
- Password hashing in the configuration. The hash is an input.
- The MIME table. `mimeOf` is a parameter; the `application/octet-stream` fallback is modelled.
- `FormatSizeMB` and other floating-point formatting for display.
- `InterpolationSearch.Find`: the floating-point guess `floor(x / (t / c))` is replaced by the exact integer guess `x * c / t`. The two can differ by one, so the model may probe a different index than the source on some inputs. The integer guess always lies inside the index range; the double guess is only guaranteed to while byte counts stay below about 2^53, where doubles represent them exactly.
- NzbFileStream.GetFileStream: the model uses the range-based `Find` signature of `InterpolationSearch.Find`. The call in `NzbFileStream.cs:103` passes arguments of an older overload.
- Exception types outside the modelled files. The non-retryable set is taken to be unsupported RAR compression, password-protected RAR, no video files found, invalid archive format and invalid yEnc data. The interpolation search's "corrupt file" error is a plain exception and so counts as retryable.
- `int.Parse`, `long.Parse` and `bool.Parse`: leading and trailing whitespace is not modelled. `ConfigManager.ParseInt32` accepts an optional leading `+` or `-` and checks the 32-bit range; `RarProcessor.ParseInt32` only ever sees a run of digits; `bool.Parse` accepts `true`/`false` in any case.
- GetWebdavItemRequest.ParseLong: a leading `+`, which `long.Parse` accepts, is a format error here. A range bound such as `bytes=+5-` is therefore refused where the source reads 5. No `-` can reach it, since the header is split on dashes first.
- GetQueue.BytesLeft: the `long` subtraction of sizes is not wrapped. Sizes are far below 2^63.
- Dictionary enumeration order is taken to be insertion order: when configuration items are listed, and in `RarAggregator.Group`, whose members come out in the order in which their paths first appear.
- `EnvironmentUtil.GetVariable` (backend/Utils/EnvironmentUtil.cs:5-9) throws ``The environment variable `X` must be set.`` for an unset variable; the model returns `MissingEnvironment(X)` instead of the exception. `StringUtil.EmptyToNull` is not part of this model; its behaviour (the empty string counts as missing) is written out from its call sites.
- NzbFileStream.Read: reading after a seek outside the file. The contracts relating the bytes read to the file's content assume the position lies within the file. Outside it, only the lengths and the error path are stated.
- RarFileStream.WindowSlice: a window is the content of the limited view, which is what the corrected `LimitedLengthStream.Read` delivers. The source's reads narrow the remaining count to 32 bits, so a window with `ByteCount - skip >= 2^31` ends early or throws (Findings row 1). Below 2^31 the reads agree, by `LimitedLengthStream.ReadManyAgreesBelowInt32`.
- RarFileStream.ReadThrough: the bytes returned are the windows' content, so the 2^31 narrowing of `LimitedLengthStream` (Findings row 1) is not applied to them; below 2^31 per window nothing differs.
- RarFileStream.GetFileStream: its windows are read through the corrected `LimitedLengthStream.Read`, as for `WindowSlice`. A volume stream seeked before the volume's own start is taken to fail with a corrupt-file error on its first read. That is what `NzbFileStream` does on a consistent upload; the model assumes it for any upload.
- RarFileStream.Read: the 2^31 narrowing of each window's reads is not applied, as for `WindowSlice`. An empty read at a position before the first volume's start succeeds without keeping the inner stream it opened. The source keeps it; the next non-empty read fails either way.
- CombinedStream.Read: once every sub-stream is used up, the source keeps the last, already disposed sub-stream as current and reads it again on the next call, which for most streams throws `ObjectDisposedException`; the model answers such reads with no bytes.
- TaskUtil.WhenAllOrError: a canceled task is modelled as a failure carrying a retryable error. In the source `IsFaulted` is false for it, so reading its `Result` throws an `AggregateException` around a `TaskCanceledException`; both are retryable, but the exception itself differs.
- GetWebdavItemController.RespondAsWritten: the body of a range that names an end is the limited view's content. The 2^31 narrowing of `LimitedLengthStream` (Findings row 1) is not applied to it, so a range of 2 GiB or more is served whole where the source stops early or throws.
- GetWebdavItemController.HandleRequest: the response body is `RespondAsWritten`'s, with the same omission of the 2^31 narrowing. A failure after the first bytes were sent (a segment missing mid-file) is not modelled; the body is the file's bytes.
- GetWebdavItemController.SendFailure: the refusal of a negative `Content-Length` is the web host's (ASP.NET Core's Kestrel parses the header when it is assigned), not code in this repository; it is modelled from the host's documented behaviour. The errors of a stream-backed file opened past its end are those of `NzbFileStream.GetFileStream` and `RarFileStream.Read`, taking the file's segments or parts to be well formed.
- RarProcessor.RDigits: .NET's `$` also matches just before a final line feed, so the source finds part number 1 in `x.r01\n` and the model finds none. File names ending in a line break are not modelled.
- RarProcessor.RDigitsIsTheMatch: the match it characterises is anchored at the very end of the name. The source's `$` also accepts a match followed by one final line feed, as for `RDigits`.
- RarProcessor.PartDigits: the source also matches `x.part01.rar\n`, where `$` precedes a final line feed; the model does not.
- RarProcessor.GetPartNumber: it inherits the two lines above. A name ending in a line feed after `.rNN` or `.partNN.rar` gets -1 here and that number in the source.
- RarProcessor.GetArchiveName: the source's `\.part\d+$` also strips `.part01` from `x.part01\n`, leaving `x\n`; the model keeps such a name whole.
- Paths are modelled for Linux only: `/` is the only directory separator.
- RarFileStream: disposal is not modelled. It only disposes the inner combined stream, which `CombinedStream.Dispose` covers.
- Removing history items (`RemoveHistoryItemAsync`). It has the same shape as `QueueStore.RemoveQueueItem`.
- Database cascade deletes of a removed directory's descendants.
- QueueStore.RootRecursiveSize: only the root case of `GetRecursiveSize` is modelled. The recursive SQL for other directories is not.
- The watch-folder and symlink collections. `StoreCollection.GetItem` only says which kind of item a child becomes.
- The queue manager's background loop and its in-progress tracking. The item in progress and its percentage are inputs to `GetQueue.GetQueueSlots`.
- Database transactions, `SaveChangesAsync` and the EF change tracker. A database is a sequence of items.
- The NzbFileSize helper and UTF-8 byte counts of names.

## Findings

| source | as written | input that shows it | evidently intended | confidence | as-written member | corrected member |
|---|---|---|---|---|---|---|
| backend/Streams/LimitedLengthStream.cs:24 | the remaining length is cast with `(int)(length - _position)`, which wraps modulo 2^32 | a limit of 2^32 bytes gives 0 remaining, so the first read ends the stream; a limit of 2^31 gives a negative count, so `buffer[..bytesToRead]` throws | read `min(remaining, buffer.Length)` bytes, computed in `long` | not executed | LimitedLengthStream.ReadAsWritten, LimitedLengthStream.ReadManyAsWritten, LimitedLengthStream.TruncationEndsEarly, LimitedLengthStream.TruncationThrows | LimitedLengthStream.Read, LimitedLengthStream.ReadAgreesBelowInt32, LimitedLengthStream.ReadManyAgreesBelowInt32 |
| backend/Streams/CombinedStream.cs:44,70 | `DiscardBytesAsync` adds `count` to `_position` after each inner `ReadAsync` has already advanced it | discarding 2 bytes of a stream over `[1, 2, 3]` leaves the position at 4 while 2 bytes were consumed | the position advances once, by the bytes actually skipped | not executed | CombinedStream.DiscardBytes, CombinedStream.DiscardDoubleCounts | CombinedStream.DiscardBytesCorrected |
| backend/Api/Controllers/GetWebdavItem/GetWebdavItemRequest.cs:29-34 | `Range: bytes=-N` is split on `-` with empty parts removed, so `N` becomes the start | `bytes=-500` is read as "from byte 500 to the end" instead of "the last 500 bytes" | a suffix range selects the last `N` bytes, as section 14.1.2 of RFC 9110 defines | not executed | GetWebdavItemRequest.ParseRangeAsWritten, GetWebdavItemRequest.SuffixRangeAsWritten, GetWebdavItemRequest.New | GetWebdavItemRequest.ParseRange, GetWebdavItemRequest.SuffixRangeRoundTrip, GetWebdavItemRequest.NewCorrected, GetWebdavItemController.SuffixServesTail |
| backend/Api/Controllers/GetWebdavItem/GetWebdavItemController.cs:33-42 | Content-Length is set to `end - start + 1` from the requested bounds, which are neither clamped to the file size nor checked against each other | `bytes=0-999` on a 10-byte file announces 1000 bytes and sends 10; `bytes=5-2` computes -2, which the host refuses, so the request fails; `bytes=10-` on a 10-byte NZB file fails on the first read | clamp the last byte to `fileSize - 1` so the announced length equals the body, answer 416 to a start at or past the end, and ignore a range whose end is before its start, as sections 14.1.2 and 14.2 of RFC 9110 describe | not executed | GetWebdavItemController.RespondAsWritten, GetWebdavItemController.SendFailure, GetWebdavItemController.LengthMismatchAsWritten, GetWebdavItemController.InvertedRangeAsWritten, GetWebdavItemController.PastEndAsWritten, GetWebdavItemController.HandleRequest | GetWebdavItemController.Respond, GetWebdavItemController.RespondServesSpan, GetWebdavItemController.AgreesInsideFile, GetWebdavItemController.HandleRequestCorrected, GetWebdavItemController.HandlersAgree |
