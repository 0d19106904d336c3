# The basket storage engine, verified

A digital video recorder keeps what it records in *baskets*: pairs of fixed-size files, one
with the stream of video and audio records, one with an index of the I-frames. This project
models, in Dafny, the code that writes, recovers, recycles, replays, searches and backs up
baskets, together with the buffer pool that feeds it, the choice of the disk it writes to, and
the mu-law codec; and it proves what that code is relied on for.

| file | what it models |
|---|---|
| `Layout.dfy`, `Log.dfy` | the record and index layouts, and a basket as a plain append log |
| `Recorder.dfy`, `RecorderRuns.dfy` | the recorder: stream and index buffers, flushes, change of baskets; and whole runs of it |
| `Recovery.dfy` | how a basket that was left in use or stopped is opened again |
| `MinuteTable.dfy`, `Recycling.dfy`, `Soundness.dfy` | the minute table ("RDB"), the basket manager file, and what holds of both |
| `Claims.dfy`, `Coverage.dfy` | which minutes I-frames claim, in the recorder and in the backup, and that the claims get into the table |
| `Storage.dfy`, `DiskRuns.dfy` | one disk in recycle mode with table and manager, and whole runs of it |
| `RdbSearch.dfy` | the searches for the basket before or after another |
| `Player.dfy`, `Lookup.dfy` | the multi-channel reader, and how it finds where to start |
| `AudioSync.dfy` | the search for the audio frame of a video frame |
| `Backup.dfy` | the copy of a time window into a new basket |
| `BufferPool.dfy`, `DiskRing.dfy`, `Ulaw.dfy` | the frame buffer pool, the ring of disks, the codec |

## What the main results say together

- The recorder is a plain append log. Over any run of writes and flushes, through failures, for
  as long as a basket is open and its buffer has room for an end marker, every frame of a write
  that succeeded, and no other, is kept once and in order, in the baskets left on the way or in
  the current one; every record links to the one before, across baskets too, and no basket exceeds
  its size by more than its end markers. Nor is one left too early: only for a record that would have
  taken it to its size, or for a video frame of another day of the month (`RecorderRuns.Run`).
- The disk goes through one state for every write that the steps of a run complete, in the order
  stream, index, headers; each state follows from the one before by that write alone, and the last
  is the disk in the end. In every one, also between the two writes of a flush, every closed basket
  is whole, and each index entry written since the current one was opened leads to a complete
  I-frame record on disk (`RecorderRuns.Run`). What was flushed once is in every later state, until
  its basket is opened again (`Recorder.FlushedIsDurable`).
- A basket closed by a stop is the one that is opened again; the index goes on where it was, and
  the stream if and only if its tail is clean (`Recovery.StopAndResume`). So is one that was opened
  anew and cut off: after a crash in any state of the disk the index goes on behind the entries that
  were flushed, if there is one and those behind are older, and the stream as after a stop
  (`Recovery.AfterCrash`).
- Closed baskets are what the other parts work on. The reader goes from basket to basket by the
  searches of the minute table; repeated calls return exactly the wanted records, byte for byte,
  up to a jump in time, and n I-frame steps back undo n steps forward exactly when every search
  back finds the basket that the search forward had left (`Player.Player.ThereAndBack`), which is
  a matter of the minute table alone (`Player.Player.LinksUndoneIff`). A backup of a window is again
  a closed basket.
- Baskets are used round robin over any run in which the baskets filled end later and later. The
  minute table stays right while they are recycled, names no basket at the moment it is taken, and
  loses no cell but those of the baskets reused, for every run whose frames satisfy a condition
  on their times, their sizes and the writes (`DiskRuns.Run`); a run that misses one flush shows
  that the condition is needed. What is recorded also gets in: on a new disk, over such runs, the
  minute of an I-frame has its cell, or waits to be flushed, if and only if the first I-frame of that
  minute is still in its basket and did not come in the same minute of the hour as its channel's claim
  before (`DiskRuns.Record`). Every right cell leads to an I-frame of its minute, lies within
  the times of its basket, and chasing neighbours through the table ends.

## Assumptions

- A write or a read completes or fails without effect; which writes succeed is an input. When a
  basket cannot be opened, the stream's header has been written and the index's has not.
- The states of the disk are those of the baskets' files; the manager file, the record info and the
  minute table are written in between and are not part of them.
- Stream files are sequences of bytes, index files sequences of entries. Words are 32 bits,
  little-endian; sizes and times read back from a file are taken as unsigned. Bytes the source
  leaves unset (reserved words, an audio header's frame type, the basket and index headers) are
  arbitrary.
- The calendar is a numbering of days by seconds, and a function from day numbers to days of
  the month; local time is folded into the seconds. Where a result needs that function to tell
  days apart it says so, and `Soundness.WithinAMonthIsRegular` gives the usual reason.
- The stream buffer has room for one end marker beyond its nominal size, because the marker is
  appended before any check (`src/basket_rec.c:2492-2493`).
- The index header has the size of its C structure, 272 bytes, which is what the code uses; the
  macro `SIZEOF_INDEX_HDR` (144, `include/udbasket.h:647`) disagrees and is not used.
- Record-once mode is set before recording starts.
- The reader's minute table names its baskets within the times of their headers, which
  `Recycling.RightTableIsWithinTimes` shows of a right table; without that its searches need not end.
- A frame and its headers are smaller than the stream buffer, and fit the copy buffers of the
  backup. Channel numbers are below 16 where the source indexes arrays with them.

## What does not hold in general

Where the code does not do what it is for on every input, the model keeps the code, and a lemma
says exactly when it does.

- The index scan after a crash takes stale entries for live ones unless there is a live entry and
  the entry behind the last is older, points before it, or is none: `Recovery.ScanFindsLiveIff`;
  with no live entry one stale entry is enough: `Recovery.NoLiveEntryFails`. A crash after a resume
  forgets the entries flushed since: `Recovery.CrashAfterResume`.
- The stream scan stops at an end marker left by a failed change of baskets, and runs on into old
  bytes that look like a record: `Recovery.ScanFindsEndIff`, `Recovery.StopAndResume`; at inputs:
  `Recovery.FailedChangeMovesResume`, `Recovery.OldFrameMovesResume`. An old record stops it only if
  both its second and its microsecond are not later, the latter earlier: `Recovery.OlderRecordStopsIff`.
- Every failed change of baskets leaves one more end marker in the buffer, until there is no room
  for the next: `RecorderRuns.FailedChanges`.
- The search for the next basket skips the minutes of the day up to the seed's in the first file
  it reads, also when that is a later day's: `RdbSearch.SearchNextIsExactIff`, and its mirror; at
  inputs: `RdbSearch.NextSkipsEarlyMinutes`, `RdbSearch.PrevSkipsLateMinutes`.
- The search back does not always undo the search forward: `RdbSearch.BackUndoesForwardIff`; a
  basket recorded within the minute in which the next begins is skipped: `RdbSearch.BackSkipsOne`.
- A reader that does not show all channels can be given old bytes from behind the end marker:
  `Player.Player.ReadNextFrame` says exactly when; at an input: `Player.OldFrameIsShown`.
- A reader that found nothing, at the end of the last basket or at a jump in time, is left behind
  a header, and reads on from there when it is called again (`Player.Player.ReadAgain`). Behind the
  end it keeps its place exactly when the loop gives up at once, and its cursor exactly when no
  I-frame is given to it past the last entry: `Player.PlaceKeptIff`; at an input:
  `Player.OldFrameMovesCursor`.
- A basket that audio filled has no end marker; it is read and searched like one that has exactly
  when the bytes behind it are a header neither of video nor of audio:
  `Player.AudioFilledIsPlayableIff`, `AudioSync.AudioFilledIsSearchableIff`.
- The search for an audio frame never ends when it comes to a first record that links to itself,
  is a target and is too late: `AudioSync.EndlessIff`, `AudioSync.SomeSearchIsEndlessIff`. Such a
  link is written after a basket with one record: `AudioSync.OneRecordLeavesSelfLink`.
- Removing a basket from the minute table leaves its cells on later days, so safety needs that a
  basket lies on one day: `MinuteTable.RemovedIsNowhereIff`, and `MinuteTable.LaterCellStays` at an
  input. The change of baskets at midnight compares days of the month; and it keeps entries waiting
  in `r_buf`, so that a basket reused at once may be named by an entry from its last use:
  `MinuteTable.FlushedIsRightIff`, and the run of `DiskRuns.StaleEntryGetsIn`.
- A channel claims a minute of the table only if its minute of the hour is not the one claimed last, so
  that a minute recorded an hour after the last claim is missed: `Claims.MissedIff`, and
  `Claims.NextHourIsMissed` at an input. When a flush of the table fails, the minutes that waited are
  lost and not claimed again: `DiskRuns.FailedFlushLosesMinute`.
- Backed-up records keep the back-links of the source basket, which are wrong in the copy unless
  it is a prefix of the source: `Backup.CopyLinksBackIff`, `Backup.CopyOfOneChannelLinksWrong`.
- Without a disk manager file, or with a negative index in it, disk 0 is chosen whether mounted or
  not: `DiskRing.TargetIsMountedIff`, `DiskRing.UnmountedDiskIsChosen`.
- The codec maps 0x7F to 0xFF on re-encoding, and nothing else: `Ulaw.ReencodeFixpoint`.

## Model

| member | source | states |
|---|---|---|
| Layout.HeaderRoundTrip | include/udbasket.h:561-588 | a stream header written to disk reads back field by field, whatever the reserved words hold |
| Layout.DecodedEncodes | include/udbasket.h:561-588 | and any 44 bytes read as a header are what that header is written as |
| Layout.IndexPositions | src/udbasket.c:83-91 | the conversion of an entry's number to a file position is undone by the conversion back |
| Log.WhichPointsAt | src/basket_rec.c:2541-2558 | entry k of a basket's index is of an I-frame record, at the exact offset where it starts, with k I-frames before it |
| Log.EntryOf | src/basket_rec.c:2541-2558 | every I-frame record has its entry, at the number of I-frames before it |
| Log.LinkIsPreviousStart | src/basket_rec.c:2588-2591 | in a linked log every record's prevFpos is the start of the record before it |
| Log.LastStartIsLink | src/basket_rec.c:2588-2591 | what a basket leaves in gPrevFpos is nothing, the start of a first record, or a start behind one |
| Log.ReadAtPlace | src/basket_rec.c:2593-2597 | reading at a record's place yields its header, sub-header and frame byte for byte |
| Recorder.CrashSafeEntries | src/basket_rec.c:2399-2434 | in a crash-safe state of the disk each index entry written since the basket was opened leads to a complete I-frame record of the same channel and time that is already on disk |
| Recorder.ImageSafe | src/basket_rec.c:2399-2434 | the stream and index invariants make the basket being recorded, at any moment, safe in this sense |
| Recorder.FlushedIsDurable | src/basket_rec.c:2018-2434 | along a trail of disk states in which each follows from the one before by one write, the records flushed into a basket are, in their order, the first that every later state holds of it, unless the basket is opened again in between |
| Recorder.StreamAppend | src/basket_rec.c:2586-2597 | buffering a record keeps: file plus buffer are the records, gPrevFpos is the start of the last, all are linked |
| Recorder.StreamFlush | src/basket_rec.c:2401-2416 | so does writing the buffer out, over whatever the file held behind the write position |
| Recorder.IndexAppend | src/basket_rec.c:2541-2558 | buffering a record keeps: index file plus buffer are the entries of exactly the I-frames |
| Recorder.IndexFlush | src/basket_rec.c:2419-2434 | so does writing the index buffer out, after the stream |
| Recorder.Recorder.WriteStream | src/basket_rec.c:2401-2416 | one stream write: on success everything buffered is in the file and the trail is longer by exactly the disk as it is then; on failure nothing changes, the trail included |
| Recorder.Recorder.WriteIndex | src/basket_rec.c:2419-2434 | one index write, only behind a flushed stream, with the same two outcomes |
| Recorder.Recorder.FlushWriteBuffer | src/basket_rec.c:2399-2450 | a flush keeps the log and the crash safety whichever of its writes fails; it says exactly when it succeeds, which positions it leaves, and which states of the disk it adds: one per write that succeeds, the one between the two with the index as it was |
| Recorder.Recorder.AppendRecord | src/basket_rec.c:2541-2597 | buffers one record, and for an I-frame its entry with the place the record is going to have |
| Recorder.Recorder.SaveHeaders | src/basket_rec.c:2018-2095 | closes the basket behind the records it holds: the files hold them, the header counts the I-frames, the index lists them; with the two states of the disk this takes, the index header first |
| Recorder.Recorder.OpenNextBasket | src/basket_rec.c:1340-1475 | opens the basket that was found with an empty log, leaving the stale index entries, exactly when it may be used and its headers can be written; in record-once mode a full one is refused; with the states of the disk this takes |
| Recorder.VideoRollsIff | src/basket_rec.c:2479-2482 | a video frame calls for the next basket if and only if what is written, what is buffered, the frame with its headers and an index entry reach the basket size in both files together, or the day of the month is another |
| Recorder.AudioRollsIff | src/basket_rec.c:2639-2641 | audio calls for it if and only if the sizes do, without an index entry |
| Recorder.Recorder.WriteVideo | src/basket_rec.c:2454-2625 | the frame is appended to the same log, or to an empty one in the next basket after the old one was closed with one end marker, exactly when the sizes reach that of a basket or the day of the month changed, and otherwise nothing but the frame is new; it says exactly when the frame is taken, and which positions and how many writes of which kind it comes to; after a failure nothing is lost; the capacity bounds hold, and the closed basket exceeds the basket size by less than one end marker |
| Recorder.VideoCase | src/basket_rec.c:2484-2520 | a change of baskets needs the stream, the index if entries wait, a basket that may be used and its headers; a flush needs what it has to write; a frame that fits needs nothing; the disk is reported full exactly when the flush succeeds and a full basket is found in record-once mode |
| Recorder.Recorder.WriteAudio | src/basket_rec.c:2627-2691 | the same for audio, which closes a basket without a marker, does not look at the day, and flushes the table only if that was due already |
| Recorder.AudioCase | src/basket_rec.c:2639-2668 | exactly when audio is taken, and when the disk is reported full |
| Recorder.Recorder.EndBasket | src/basket_rec.c:2484-2512 | marker, flush, close and open of the next basket, with every way in which they can fail |
| RecorderRuns.Run | src/basket_rec.c:2399-2691 | over any run of writes and flushes, through failures, until no basket is open or no marker fits: the frames of exactly the writes that succeeded are kept once and in order, in the baskets left and the current one; every basket left is closed on disk behind a linked log that continues the links of the one before, and exceeds the basket size by less than its end markers; it was left for a record that would have taken it to the basket size in both files together, or for a video frame of another day of the month than all it recorded since it was opened; the capacity bounds hold after each write that succeeds; the results, the positions and the writes completed are exactly those that the steps and their inputs come to; the disk has one state for each of these writes, each following from the one before by that write alone and safe to crash at with all closed baskets whole, and the last is the disk in the end |
| RecorderRuns.SucceedsIff | src/basket_rec.c:2399-2691 | exactly when a step of a run succeeds |
| RecorderRuns.FailedChanges | src/basket_rec.c:2484-2498 | changes of baskets whose flush fails can follow each other exactly as long as the markers before the last leave the buffer below its size; each adds one marker and nothing else changes |
| Recorder.Recorder.Exit | src/basket_rec.c:1917-2016 | a stop closes the basket behind everything recorded and notes it as stopped, exactly when the flush succeeds, or leaves it open with nothing lost |
| Recovery.ScanIndex | src/basket_rec.c:1563-1588 | the scan stops at the first entry that is older, has another id or points back |
| Recovery.ScanFindsLiveIff | src/basket_rec.c:1563-1588 | for live entries in time order the scan stops exactly at their end if and only if what follows does not continue them, and never before |
| Recovery.OlderStaleEntriesAreCut | src/basket_rec.c:1563-1588 | with a live entry and older stale ones, the scan stops exactly at the end of the live ones |
| Recovery.NoLiveEntryFails | src/basket_rec.c:1555-1588 | with no live entry, a single stale one is taken for live |
| Recovery.ScanStream | src/basket_rec.c:1613-1640 | the stream scan ends where the records, followed by their sizes, stop passing its tests |
| Recovery.ScanFindsEndIff | src/basket_rec.c:1613-1640 | started at any record it finds the end of the log if and only if no end marker is in the way and the bytes behind do not pass for one more record; without a marker it never stops short |
| Recovery.OlderRecordStopsIff | src/basket_rec.c:1617-1618 | behind the log a record that is older by seconds stops the scan if and only if its microseconds are fewer too |
| Recovery.LaterRecordIsTaken | src/basket_rec.c:1618-1640 | and one that is not older is taken for one more |
| Recovery.FindAppendPoint | src/basket_rec.c:1553-1738 | the append point: by the two scans when the header counts nothing, else from the counted entry, or a failed read |
| Recovery.StopResume | src/basket_rec.c:1671-1740 | a basket closed with an I-frame reopens with the same fpos_bkt and fpos_idx if and only if its tail is clean; fpos_idx is always the same |
| Recovery.Open | src/basket_rec.c:1139-1211 | a basket that the record info notes with the flag of use or of a stop is the one opened, at the append point found in its files; only with another flag, or no record info, is a found basket started anew, refused when it is full in record-once mode; a flush of the table is no longer due |
| Recovery.StopAndResume | src/basket_rec.c:1477-1832 | a stop followed by opening, with an I-frame recorded in time order, succeeds exactly when the flush and the headers do: the same basket, fpos_idx where it was, and fpos_bkt if and only if the tail, as it was before the stop, is clean; then the recorder is in a valid state again, its trail included, for the same log and with all other baskets as they were |
| Recovery.FailedChangeMovesResume | src/basket_rec.c:1707-1728 | one frame and the marker of a failed change: the stream goes on at the marker |
| Recovery.OldFrameMovesResume | src/basket_rec.c:1707-1728 | one frame and an old later one behind it: the stream goes on behind the old one |
| Recovery.ResumeContinuesLog | src/basket_rec.c:1737-1740 | then the recorder's stream and index invariants hold again, for the same log |
| Recovery.CrashRecovery | src/basket_rec.c:1563-1660 | after a crash in any crash-safe state of the disk in which the header counts nothing, with a flushed entry and older stale ones, the append point that opening finds is the end of the flushed entries, and of the flushed records if and only if the tail is clean |
| Recovery.CrashAfterResume | src/basket_rec.c:1671-1740 | after a crash behind a resume the index append point that opening finds is the end of the flushed entries if and only if none was flushed since, while the stream point is right under the usual condition |
| Recovery.AfterCrash | src/basket_rec.c:1477-1740 | started anew after a crash in any crash-safe state of the disk, with the record info naming the basket as in use, a header that counts nothing, a flushed entry and older stale ones: it is opened again, whatever a search would find, exactly when its header can be written, with fpos_idx behind the flushed entries, and fpos_bkt behind the flushed records if and only if no end marker and no bytes behind keep the scan from it |
| Recovery.CrashAndResume | src/basket_rec.c:1477-1740 | hence a recorder cut off between two operations goes on in the same basket with fpos_idx as it was, and fpos_bkt under that condition |
| MinuteTable.FlushRun | src/basket_rec.c:2232-2397 | the waiting entries up to the next day of the month go into the first one's day file, the rest stay, in order |
| MinuteTable.RunIs | src/basket_rec.c:2323-2339 | the entries a flush takes are those up to the first one under another day of the month |
| MinuteTable.PutAllAt | src/basket_rec.c:2341-2356 | a cell that is taken stays; a free one gets the first entry for it |
| MinuteTable.ClearDay | src/basket_rec.c:1004-1026 | the loop over two minutes a turn clears exactly the cells of one basket |
| MinuteTable.RemoveRdb | src/basket_rec.c:863-1055 | files of earlier days are deleted; the day's file loses the basket's cells if it can be read and written |
| MinuteTable.RemovedIsNowhereIff | src/basket_rec.c:863-1055 | afterwards nothing names the basket if and only if it had no cell on a later day |
| MinuteTable.LaterCellStays | src/basket_rec.c:911-941 | a basket named on two days is still named on the second |
| MinuteTable.RemovedKeepsIff | src/basket_rec.c:863-1055 | no other basket loses a cell if and only if none has one on an earlier day |
| MinuteTable.FlushedIsRight | src/basket_rec.c:2341-2356 | right entries of one day make right cells, and every cell that was there stays |
| MinuteTable.FlushedIsRightIff | src/basket_rec.c:2341-2356 | a wrong entry spoils the day exactly when it is the first for a free cell |
| Claims.MissedIff | src/basket_rec.c:2600-2615 | of I-frames in the order of their times, the minute of one is never queued for the table if and only if its channel's last claim before it was in the same minute of another hour; what is queued is the entry of the first I-frame of its minute |
| Claims.QueuedApart | src/basket_rec.c:2600-2615 | no minute of a channel is queued twice |
| Claims.NextHourIsMissed | src/basket_rec.c:2604 | two I-frames an hour apart, of which the second is missed |
| Recycling.GetMinTs | src/udbasket.c:63-81 | the least of the times that are set, 0x7fffffff if none is |
| Recycling.SearchEmptyBasket | src/basket_rec.c:806-861 | the first empty basket, or none |
| Recycling.SearchOldestBasket | src/basket_rec.c:1057-1136 | the first of the candidates (body 1 whatever its flag, and full ones) with the least earliest end time |
| Recycling.RecyclingIsSafe | src/basket_rec.c:1057-1136 | when all baskets are full, each on one day and the table right, the picked basket is nowhere in the table afterwards and every other cell is still there |
| Recycling.FailedRemovalKeeps | src/basket_rec.c:938-952 | when the day's file is missing or unreadable no other basket loses a cell; when it is missing the basket is nowhere either |
| Recycling.RightIsWithin | src/basket_rec.c:2561-2621 | a right cell lies between its basket's times, which are on its day |
| Recycling.RightTableIsWithinTimes | src/basket_muldec.c:1853-1885 | in a right table every cell of a basket lies within its times, which are those of its header once it is closed |
| Recycling.RecordedChaseForwardEnds | src/basket_muldec.c:682-815 | hence chasing forward through a recorder's table ends, after at most as many baskets as are in use, with the times that the headers hold while one basket is being recorded |
| Recycling.BackNeverFindsNewest | src/basket_muldec.c:817-944 | a search back never leads to the basket being recorded, if nothing began after it |
| Recycling.RecordedChaseBackEnds | src/basket_muldec.c:817-944 | and chasing back ends likewise, also from the basket being recorded |
| Recycling.FirstEmptyIsNext | src/basket_rec.c:1181-1195 | while a basket is empty, the one picked is the next in turn |
| Recycling.OldestIsNext | src/basket_rec.c:1197-1208 | later the one picked is the next in turn, if the earliest end times increase |
| Soundness.WithinAMonthIsRegular | src/basket_rec.c:2467-2482 | frames on days less than 28 days after those of the last frame and of all that waits never meet the same day of another month |
| Soundness.FrameIsSound | src/basket_rec.c:2541-2625 | one more video frame keeps table, waiting entries, times and positions right |
| Soundness.PickIsSound | src/basket_rec.c:1096-1135 | picking the oldest basket keeps them right, whether or not the removal could be written |
| Coverage.NotedFrame | src/basket_rec.c:2541-2615 | a frame later than the ones before is queued if it is an I-frame whose minute is not its channel's last, with the place of its own index entry, and no other frame is; and prev_min stays the minute claimed last |
| Coverage.NotedFlush | src/basket_rec.c:2232-2397 | the entries a flush takes find their cells free and get them; all others stay, and the table holds nothing but what was queued |
| Coverage.NotedRecycled | src/basket_rec.c:1057-1136 | recycling a basket clears the cells of exactly the I-frames that are gone with it |
| Coverage.MinuteIsKnownIff | src/basket_rec.c:2232-2615 | so the minute of a recorded I-frame has a taken cell, or waits, if and only if the first I-frame recorded in it was not missed and is still in its basket; then cell or entry leads to that one |
| Storage.RollsIff | src/basket_rec.c:2479-2482 | whether a video frame changes baskets, by the positions and the day of the month |
| Storage.BuffersFullIff | src/basket_rec.c:2514-2515 | and whether one that does not is preceded by a flush, by what is buffered |
| Storage.Disk.FlushWriteBuffer | src/basket_rec.c:2436-2446 | the table's part of a flush: what it moves, what it drops when it fails, and that nothing in the table is lost |
| Storage.Disk.SaveFull | src/basket_rec.c:2018-2095 | the manager file lists the basket as full with its times |
| Storage.Disk.SearchBasket | src/basket_rec.c:1140-1211 | empty baskets first, until there are none, then the oldest; the basket found is the next in turn, the table is what the removal leaves, the basket is nowhere in the table, and no other basket lost a cell |
| Storage.Disk.OpenFullBasket | src/basket_rec.c:1340-1475 | the found basket becomes the current one, with no times and no entries; it has no cells, and no other basket lost one |
| Storage.Disk.TakeBasket | src/basket_rec.c:1365-1372 | the times and the index position start anew, the minutes claimed last do not |
| Storage.Disk.NoteVideo | src/basket_rec.c:2541-2625 | times, index position and table entry of a frame: its minute is claimed exactly when its channel's last claim was in another minute of the hour and an I-frame of that second is known; after an I-frame its minute is the one claimed last |
| Storage.Disk.WriteVideo | src/basket_rec.c:2454-2625 | a frame that does not fit the basket or opens a new day of the month closes the basket with its times and opens the next; the frame's time and entry are noted in it; positions and buffers grow by its size; the table changes by exactly the flush that is due or the removal; it succeeds exactly when the writes it needs do, and a flush of the table that fails loses what waits; everything stays right if the frame's time is regular and a basket taken anew is named by nothing |
| Storage.Disk.WriteAudio | src/basket_rec.c:2627-2691 | the same for audio, which writes nothing into the table |
| DiskRuns.Run | src/basket_rec.c:1340-2691 | over any run, if the earliest end times of the baskets filled increase, the k-th basket opened is ((k-1) mod count)+1; over any run on at least two baskets whose writes succeed, whose video times do not go back, never leave out more than 13 days and grow where a basket begins, and in which the buffers get full and a video frame is recorded between two changes of baskets, they do increase, every step succeeds, the table names no basket at the moment it is taken, table and waiting entries are right in the end, and no cell is lost but those of the baskets opened on the way; and what the I-frames claim is there: of each entry queued, in their order, the table has the cell exactly as long as its basket holds the I-frame, or it waits, and there is nothing else |
| DiskRuns.NewDisk | src/basket_rec.c:1477-1832 | a new disk starts such a run |
| DiskRuns.Record | src/basket_rec.c:1340-2691 | hence everything recorded by such a run on a new disk: the minute of an I-frame is known, in the table or among what waits, if and only if the first I-frame of its channel in that minute was not missed and is still in its basket |
| DiskRuns.FailedFlushLosesMinute | src/basket_rec.c:2436-2446 | one I-frame and a flush of the table that fails: the minute is not in the table, does not wait, and is the one claimed last |
| DiskRuns.StaleEntryGetsIn | src/basket_rec.c:2489-2512 | in any calendar that tells each of three days from the next, a run of four frames after which the table names, for the first day, a basket that no longer holds it |
| DiskRuns.OnlyAFlushIsMissing | src/basket_rec.c:2489-2520 | that run lacks only a flush between two changes: with the buffers filled once it satisfies the condition |
| RdbSearch.SearchNextBID | src/basket_muldec.c:682-815 | the first slot in the order of day, minute and channel among those it looks at that names another basket, or none if there is none |
| RdbSearch.SearchPrevBID | src/basket_muldec.c:817-944 | the latest earlier minute's lowest channel, likewise |
| RdbSearch.ScannedExactly | src/basket_muldec.c:743-797 | it looks at every later slot but those up to the seed's minute of the day in the first file, if that is a later day's |
| RdbSearch.SearchNextIsExactIff | src/basket_muldec.c:691-815 | what it finds is the true next slot if and only if the seed day has a file or the first later file has no neighbour up to that minute |
| RdbSearch.SearchNextMissIsExactIff | src/basket_muldec.c:691-815 | when it finds nothing there is nothing later, under the same condition |
| RdbSearch.SearchPrevIsExactIff | src/basket_muldec.c:819-944 | the mirror statement for the backward search |
| RdbSearch.SearchPrevMissIsExactIff | src/basket_muldec.c:819-944 | when it finds nothing there is nothing earlier, under the same condition |
| RdbSearch.NextSkipsEarlyMinutes | src/basket_muldec.c:776-797 | a table in which the forward search misses the next basket |
| RdbSearch.PrevSkipsLateMinutes | src/basket_muldec.c:905-926 | a table in which the backward search misses the previous one |
| RdbSearch.BackUndoesForwardIff | src/basket_muldec.c:682-944 | the search back from the basket found finds the first one again if and only if that one recorded last, and in the lowest channel, of the minutes up to the one where the forward search started and before the one where the found basket begins |
| RdbSearch.BackUndoesForwardOnOneDayIff | src/basket_muldec.c:682-944 | the same of any two baskets that each lie on one day, with the clock within their times: up to the end of the first and before the begin of the other |
| RdbSearch.OneMinuteIsSkipped | src/basket_muldec.c:830-924 | so a basket recorded within the minute in which the next one begins is never found again from that one |
| RdbSearch.BackSkipsOne | src/basket_muldec.c:682-944 | three baskets in three minutes that are found 1, 2, 3 going forward, and 3, 1 going back |
| RdbSearch.ChaseNeverRevisits | src/basket_muldec.c:691-815 | along any chase forward the seeds' minutes strictly increase and no basket comes twice |
| RdbSearch.ChaseBackNeverRevisits | src/basket_muldec.c:821-944 | along any chase back they strictly decrease and no basket comes twice |
| RdbSearch.ChaseIsFinite | src/basket_muldec.c:682-944 | a chase is no longer than there are baskets |
| Player.RecordedIsPlayable | src/basket_rec.c:2484-2512 | a basket the recorder closed because a frame did not fit can be played, and what is selected from it is what was recorded |
| Player.SmoothIsWhole | src/basket_muldec.c:1303-1310 | replay is whole exactly when no frame jumps back or ahead by more than 4 s |
| Player.ReplayEndsIff | src/basket_muldec.c:1289-1414 | replay of a basket without an end marker, if nothing in it jumps, ends exactly at its last record if and only if the bytes behind make the loop give up |
| Player.AudioFilledIsPlayableIff | src/basket_rec.c:2639-2660 | a basket that audio filled reads like one with an end marker if and only if the bytes behind it are a header neither of video nor of audio |
| Player.Player.Open | src/basket_muldec.c:161-247 | the reader stands at the I-frame that the minute table named, its cursor on that entry |
| Player.Player.OpenNext | src/basket_muldec.c:250-308 | at the first record, cursor 0 |
| Player.Player.OpenPrev | src/basket_muldec.c:313-450 | at the last I-frame, cursor on its entry |
| Lookup.FindStart | src/basket_muldec.c:107-144 | the first minute from the given one on in which anything was recorded, the basket of its lowest channel, and the least index position of the channels before one that recorded into another basket |
| Lookup.OpenAt | src/basket_muldec.c:63-248 | in a right table this leads to an I-frame record of that minute, at which the reader then stands; it fails exactly when the day has nothing from the given minute on |
| Player.Player.ReadLoop | src/basket_muldec.c:1283-1414 | one call returns the next wanted record with its bytes, or stops at a jump in time or at the end, and keeps the cursor invariant when all channels are enabled |
| Player.RecordIsFrame | src/basket_muldec.c:1283-1414 | the bytes at a record's place, read as a frame, are that record's kind, channel, time, headers and data |
| Player.Player.ReplayBasket | src/basket_muldec.c:1283-1414 | repeated turns return exactly the wanted records of the rest of the basket in order, up to the first jump, meet the end exactly when there is none, and stop at the position that the bytes of the file determine |
| Player.Player.ReadNextFrame | src/basket_muldec.c:1283-1425 | the next wanted frame, with any channels enabled; behind an end marker what the next basket starts with, and nothing exactly when there is none; at a jump, or an end that is no marker, the next I-frame; and exactly when a frame from behind the end marker is returned instead |
| Player.Player.ReadFrames | src/basket_muldec.c:1283-1425 | repeated calls return exactly the wanted records of the basket, in order and with their bytes, up to the first jump in time |
| Player.OldFrameIsShown | src/basket_muldec.c:1476-1533 | a basket and a reader of one channel that is given a frame which the basket does not hold |
| Player.Player.ReadNextFirstFrame | src/basket_muldec.c:1428-1567 | behind an end marker: the first record of the basket that the search finds if it is a frame of an enabled channel, else the I-frame after its first one; with the cursor behind, bytes from behind the marker if they look like such a frame; otherwise it goes on to a later basket, or fails where the search finds none |
| Player.Player.ReadNextIFrame | src/basket_muldec.c:1570-1724 | moves to an enabled I-frame later in the basket or in one that ends in a later minute; with all channels enabled it is the very next entry, or the first one of the basket that the search finds, none is rejected, at most one I-frame is skipped, and it fails exactly when there is none; with any channels enabled every entry it passes over is behind the position or of a channel that is not enabled, it goes past the position, and fails only where the search finds no basket |
| Player.Player.ReadPrevIFrame | src/basket_muldec.c:1726-1826 | moves back likewise; with all channels enabled it is the entry before, or the last one of the basket that the search back finds; with any channels enabled every entry it passes over is of a channel that is not enabled, and it fails only where the search back finds none |
| Player.Player.ThereAndBack | src/basket_muldec.c:1570-1826 | n I-frame steps forward, as far as there are any, and as many back: the way back is the way there if and only if the walk started at an entry and at every change of baskets the search back finds the basket that was left; then the reader is where it was |
| Player.Player.LinksUndoneIff | src/basket_muldec.c:682-944 | of baskets that each lie on one day, with their index times within those of their headers, every search back finds the basket left if and only if at each change that basket was the last in the table to record, and in the lowest channel, of the minutes up to its end and before the next one's begin |
| Player.Player.Perform | src/basket_muldec.c:200-1826 | after every mix of opening and reading, whether it finds something or not, the cursor is the number of index entries before the position, or one less; every I-frame read moves to the entry before or after, or to what the search finds, and fails exactly when there is none, and no other read moves back; it goes on after reads that found nothing, and ends early only where such a read, repeated, meets bytes that do not make the loop give up at once |
| Player.Player.ReadLoopAnywhere | src/basket_muldec.c:1283-1414 | what one call of the loop makes of the bytes at any position of the handle |
| Player.LoopMovesIff | src/basket_muldec.c:1283-1414 | it leaves the saved position exactly when it gives up at once, and moves cursor and clock only with a frame it returns |
| Player.Player.ReadAgain | src/basket_muldec.c:1283-1425 | after a read that found nothing the next one returns what the loop finds from where the handle was left, or nothing, and then place, cursor and clock are as before if the loop gave up at once |
| Player.PlaceKeptIff | src/basket_muldec.c:1283-1414 | behind the end of a basket the position is still that of a record if and only if the loop gave up at once, and the cursor is still within the entries if and only if it did not return an I-frame while the cursor was past the last |
| Player.OldFrameMovesCursor | src/basket_muldec.c:1283-1425 | a basket with an old I-frame of the same second behind its end marker, and a reader that is given it and counts one entry more than there are |
| AudioSync.Sync | src/basket_muldec.c:2230-2578 | in a basket that ends with a header neither of video nor of audio, marker or not, the search ends less than 129 ms from the video time, between two frames more than 128 ms on either side of it, at a record without back-link, after 63 hops without a target, or at the ends of the basket, and every end says what was passed over, all of it more than 128 ms off, in the time stamps themselves; or it has no end, and that exactly when no number of turns ends it |
| AudioSync.ComparedInMicros | src/basket_muldec.c:2498-2552 | what the comparison in milliseconds means in microseconds: a frame that counts as too early or too late is more than 128 ms off, and one that does not is less than 129 ms off |
| AudioSync.HopsOneRecord | src/basket_dec.c:2920-3000 | every hop leads to the start of the record behind or before, except back from a first record that links to itself, which it does not leave |
| AudioSync.SyncEnds | src/basket_muldec.c:2273-2577 | turn by turn every search comes to such an end or to a state that the next turn leads back to |
| AudioSync.EndlessIff | src/basket_muldec.c:2273-2577 | it has no end exactly when it comes to a first record that links to itself, is a target and is too late |
| AudioSync.SomeSearchIsEndlessIff | src/basket_muldec.c:2370-2401 | in a basket there is a search without end if and only if its first record is audio and links to itself |
| AudioSync.OneRecordLeavesSelfLink | src/basket_rec.c:2588-2591 | a basket with one record leaves such a link for the next one |
| AudioSync.RecordedIsSearchable | src/basket_rec.c:2588-2591 | a recorder's basket has the back-links the search needs, and its first record links to itself exactly when the recorder carried that position over |
| AudioSync.AudioFilledIsSearchableIff | src/basket_rec.c:2639-2660 | a basket that audio filled is searched like one with an end marker if and only if the bytes behind it are a header neither of video nor of audio |
| AudioSync.UpToMarkerIsSearchable | src/basket_rec.c:2484-2498 | up to the marker that a failed change left behind, a basket is searched as if it ended there |
| Backup.FindWindow | src/app_bskbackup.c:939-961 | the positions of the first selected entry from t1 on and of the first one behind it from t2 on, or 0 |
| Backup.NoneBeforeFirst | src/app_bskbackup.c:939-961 | no earlier entry would have done |
| Backup.WindowIs | src/app_bskbackup.c:939-961 | the window starts at the first entry of a wanted channel from t1 on that is not at file position 0, and ends at the first one behind it from t2 on; none in between would have done |
| Backup.CopyRecords | src/app_bskbackup.c:375-800 | within a window of a basket the copy is the selected records in order and unchanged, its index exactly their I-frames with the new offsets; in time order the minutes it claims are right, and are exactly those queued of the I-frames copied |
| Backup.BackUpBasket | src/app_bskbackup.c:913-1078 | when a closed basket's index gives both ends, or the start and the end marker is one to be copied, the new files are those of a closed basket holding the selection up to the second end or the marker, and the claims are those queued of its I-frames; with nothing from t1 on it fails |
| Backup.SelectionAt | src/app_bskbackup.c:485-675 | every record of the window that is selected and not before t1 is in the copy, behind those before it |
| Backup.NotedRight | src/app_bskbackup.c:548-625 | in time order only I-frames claim minutes, each with the position of its own entry |
| Backup.NotedClaimsIff | src/app_bskbackup.c:548-607 | in any order of times a frame claims its minute, if that is not its channel's last, exactly when it is an I-frame with a time, or an I-frame of its second or a later one is known |
| Backup.NotedQueues | src/app_bskbackup.c:548-607 | an I-frame claims its minute, with the place of its own entry, exactly when its minute of the hour is not the one that its channel claimed last |
| Backup.UpdateRdb | src/app_bskbackup.c:69-155 | one call puts one entry into its day, if the cell is free, and the cell of its minute is then taken |
| Backup.ClaimedIsRight | src/app_bskbackup.c:69-155 | right claims keep the copy's minute table right and lose nothing |
| Backup.ClaimedTakes | src/app_bskbackup.c:69-155 | after the calls the cell of every claim is taken, by the first claim of its minute if it was free |
| Backup.CopiedMinutesAreFound | src/app_bskbackup.c:585-607 | so the minute of every I-frame copied is in the copy's table, unless it was missed for a claim in the same minute of another hour |
| Backup.CopyLinksBackIff | src/app_bskbackup.c:534-545 | the back-links in the copy are right if and only if it holds at most one record or is a prefix of the source |
| Backup.CopyOfOneChannelLinksWrong | src/app_bskbackup.c:534-545 | of two channels in turn, a copy of one |
| BufferPool.BufInfoTbl.constructor | src/app_writer.c:131-230 | the table starts as one free list of all entries |
| BufferPool.BufInfoTbl.Alloc | src/app_writer.c:299-324 | takes the head of the free list |
| BufferPool.BufInfoTbl.Free | src/app_writer.c:387-408 | puts an entry at the head |
| BufferPool.Prefill | src/app_writer.c:1278-1287 | moves every entry but the last from the free list to the free queue |
| BufferPool.AllocTakesHead | src/app_writer.c:299-324 | on an acyclic free list, taking the head leaves the tail, acyclic again |
| BufferPool.FreePutsHead | src/app_writer.c:387-408 | and giving back an entry that is not on it puts that entry in front |
| BufferPool.EnabledSucceeds | src/app_writer.c:856-1135 | no assert fires, no put fails and no unfilled buffer is read, in any reachable state |
| BufferPool.StepKeepsInv | src/app_writer.c:856-1135 | every step of either thread keeps: each entry in exactly one place, the free list acyclic and ending in the last entry, frames in order |
| BufferPool.EveryInterleaving | src/app_writer.c:824-1135 | under every interleaving all of that holds at every moment, the last entry is never handed out, and the recorder gets the copied frames in order, none lost, none twice |
| BufferPool.NoDeadlock | src/app_writer.c:824-1135 | the receiver thread can go on unless it waits for a buffer, and then the recorder thread can |
| BufferPool.QueuesHaveRoom | src/app_writer.c:856-1135 | a thread about to put a buffer into a queue finds fewer there than there are buffers |
| DiskRing.MountInfo.BuildRing | src/basket_rec.c:3030-3049 | the links built join the mounted disks in index order in one ring, prev inverse to next |
| DiskRing.MountInfo.ChooseTarget | src/basket_rec.c:2831-2945 | the disk chosen is the saved one, or its cyclic successor when that is missing |
| DiskRing.RingVisitsEachDiskOnce | src/basket_rec.c:3030-3049 | following next from any mounted disk visits each mounted disk exactly once and returns |
| DiskRing.WalkAlongRing | src/basket_rec.c:3030-3049 | k steps along the ring lead k mounted disks on, around the end |
| DiskRing.TargetIsMountedIff | src/basket_rec.c:2831-2945 | the disk chosen is mounted if and only if a disk was saved or disk 0 is mounted |
| DiskRing.SavedIsChosen | src/basket_rec.c:2831-2945 | a saved disk is chosen if it is mounted; otherwise the next mounted one above it, or the first of all |
| DiskRing.UnmountedDiskIsChosen | src/basket_rec.c:2831-2945 | two disks of which the one not mounted is chosen |
| Ulaw.CodeIsQuantisationStep | src/app_alg_uLawCodec.c:11-65 | a magnitude below 8159 gets code n exactly when it lies in the n-th quantisation step of ITU-T G.711, Tables 2a and 2b |
| Ulaw.DecodesToMidpoint | src/app_alg_uLawCodec.c:68-99 | a code decodes to the middle of its step, and the steps join |
| Ulaw.HalfStepError | src/app_alg_uLawCodec.c:11-99 | coding and decoding moves the 14-bit value by at most half a step, keeps its sign, and clips to 8031 from the overload point on |
| Ulaw.SampleError | src/app_alg_uLawCodec.c:11-99 | in the 16-bit scale a sample moves by at most twice the step and 3, keeps its sign, and clips to 32124 |
| Ulaw.ReencodeFixpoint | src/app_alg_uLawCodec.c:11-99 | coding what a code decodes to gives the code back, with the single exception 0x7F |
| Ulaw.NeverNegativeZero | src/app_alg_uLawCodec.c:11-65 | the encoder never produces that exception |
| Ulaw.UlawEncode | src/app_alg_uLawCodec.c:11-65 | for fewer than 65536 samples, byte i of the output is the code of sample i, and nothing behind is touched |
| Ulaw.AudioDecode | src/app_audio_EncDec.c:22-37 | sample i of the output is what code i stands for, and nothing behind is touched |
| Ulaw.BufferRoundTrip | src/app_audio_EncDec.c:9-37 | a buffer coded, decoded and coded again gives the same bytes |
| Ulaw.CodeBufferRoundTrip | src/app_audio_EncDec.c:9-37 | a code buffer decoded and coded again is the same, with 0x7F as 0xFF |

## Left out

- Several disks: the change of disks when the last basket of one is full (`src/basket_rec.c:1348-1362`),
  replay across disks, and the two-day branch of the file list. `DiskRing` models the ring and the choice.
- Recorder.Recorder.OpenNextBasket: leaves out that jump to the next disk, and so the search for a used basket there.
- Storage.Disk.OpenFullBasket: one disk and recycle mode only, and a basket that is found can be opened; the recorder's
  module has record-once mode, in which the oldest basket's cells are removed before the mode is looked at, and failed opens.
- DiskRuns.Run: the table's part does not cover stops; a basket that is stopped and resumed on another day lies on two days,
  which is the case that `MinuteTable.RemovedIsNowhereIff` describes.
- Recovery.AfterCrash: gPrevFpos is 0 after a restart, so that the first record does not link back, and the recorder's
  invariant does not hold again as it does in `Recovery.StopAndResume`; and a crash between the headers and the record
  info of a basket, in which the info still names the one before, is left out.
- DiskRuns.Record: of runs that are not orderly it says nothing; nor of a later start, which sets all prev_min to -1
  (`src/basket_rec.c:1487-1488`).
- Recorder.Recorder.FlushWriteBuffer: the minute table is only an input that says whether its flush, if one is due,
  succeeds; what it does is in `Storage`. The capacity of `r_buf` (51 entries) is not modelled, and nothing bounds the
  entries that can wait between two flushes.
- Writing on with closed descriptors after a failed change of baskets, and headers, or the record info, that fail to be
  written when a basket is closed: the source ignores the failure.
- The reader works on closed baskets with an index whose header counts it. Failed reads, the basket being recorded and
  baskets without an I-frame are not modelled.
- Player.Player.OpenPrev: leaves out the search for the last entry when the header counts none.
- Player.Player.Perform: ends where a repeated read gets on behind the end of the last basket, or inside a record
  at a jump; what one such read does is in `Player.Player.ReadAgain`, what follows it is not modelled.
- RdbSearch.BackUndoesForwardIff: asks for a file of either seed's day, which
  `RdbSearch.BackUndoesForwardOnOneDayIff` derives for baskets of one day; a basket resumed on another day is left out.
- Player.ReplayEndsIff: is about the bytes of the file; the reader's methods work on baskets that end with a header
  neither of video nor of audio, marker or not.
- AudioSync.Sync: from behind a marker that a failed change left inside a basket it is not modelled (up to that marker
  `AudioSync.UpToMarkerIsSearchable` applies), nor where a basket that audio filled is followed by bytes that look like
  a record. It stays within one basket, because the backward search across baskets reads an index it has closed.
  When the direction changes at a record without back-link, the handle is set to the target before the last one, or to 0
  when there was only one, and the contract does not say where it is.
- Recycling.RightTableIsWithinTimes: for the basket being recorded the times are the recorder's own;
  `Recycling.RecordedChaseForwardEnds` and `Recycling.RecordedChaseBackEnds` are about what its header holds instead.
- `BKTREC_updateRDB`: the recorder's write path uses `BKTREC_Flush_RDBDATA` instead, which is modelled.
- Event types are carried, picture sizes and stream types are bytes, and none is interpreted.
- Backup.BackUpBasket: the destination's manager file and headers, the progress and cancel messages and the frames
  of the following baskets are left out; when there is no second end and the end marker is not one to be copied, the
  loop runs on into the bytes behind it, and nothing is said about the copy.
- The pre-record list, the player's task handshake, the remote-playback and single-channel readers (near-copies of the
  reader modelled here), encoders, displays, network, CD writing and the user interface.
