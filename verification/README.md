# Verification of the nexrade-core data structures and protocols

A Dafny model of the parts of `nexrade-core` whose correctness is hardest to see by reading: the
persistence admission protocol, the packed and dual-encoded collections, the sharded store with its
expiry, eviction, SCAN, cross-shard operations and shard locks, the RESP parser and printer, and the
append-only-file reader. `dafny verify dfyconfig.toml` checks everything.

## How it is built

* `ByteStrings`, `Packed`, `OrderedSets`, `Routing`: byte strings, length-prefixed packing, ordered sets, shard routing.
* `Glob`: the key pattern matcher.
* `Admission`, `AdmissionCalls`: the writers-and-quiescers protocol as a step relation over any number of threads, and
  what its callers get.
* `RespText`, `FloatText`, `RespInline`, `InlineForms`, `RespValue`, `RespParse`, `RespStream`, `RespPrint`, `RespRoundTrip`,
  `RespLanguage`, `Aof`: wire format, its grammar, and the log file.
* `ListPacking`, `ListEncoding`, `ListRuns`, `ListLaws`, `RangeFraming`, `SetEncoding`, `SetRuns`, `HashEncoding`, `HashRuns`: the
  collections, each as classes proved against plain sequences, sets and maps, and each with a theorem about whole
  runs of commands.
* `Keyspace`, `ShardStore`, `StoreRuns`, `WatchRuns`, `CounterRuns`, `Eviction`: one shard, its bookkeeping over whole runs,
  WATCH, counters, and the memory limit.
* `FlatOps`, `FlatLaws`, `Sharded`, `Scan`: operations over all shards, compared with one flat map.
* `ShardLocks`, `LockedOps`, `ConcurrentRuns`: the locks at the level of single acquisitions, inserts and
  releases; serialisability, progress, and what concurrent clients can rely on.

Code that updates fields in place is modelled by classes and loops; each such method states its new
state through a function on values, and the laws are proved about that function or over whole runs.

## Where the code and its promises differ

* The glob matcher tests for a literal byte before it tests for a star, so pattern `*` does not match
  subject `*a`. It agrees with the textbook definition on all patterns exactly for subjects without a `*`, and
  on all subjects exactly for patterns without one.
* SMOVE looks at the destination's entry even when it has expired. A comment there says an expired
  destination is usable; an expired non-set is refused. `SMoveReplyKeepsPromise` and `SMoveValuesKeepPromise`
  say exactly when that shows.
* LMOVE of a one-element list onto itself deletes the key and creates it again, which drops its deadline.
* Under the volatile eviction policies the loop repeats forever exactly when the bytes it may not evict
  exceed the limit after the expiry pass.
* WATCH misses a change exactly when the key's version started over and later writes caught up with the
  version read. It starts over at 1 when the key is inserted where there was none, at 0 when its slot is pruned
  or flushed, and at the slot's value when an integer's own count is discarded. The comment at
  `crates/nexrade-core/src/store.rs:325-327` says watching an existing key is unaffected and its deletion
  visible, and the one at `store.rs:351-358` that slot plus count only grow; a key incremented twice and then set
  or deleted reads 2 before and after.
* Hashes are said to leave the packed encoding when any threshold is exceeded; an overwritten field is not
  checked against the total size (`OverwriteExceedsSize`).
* MSET sorts by shard with an unstable sort, so the outcome depends on the order exactly when a key occurs
  twice with different entries.
* Of keys with one order key, SCAN can lose all but the one with the smallest name at a page boundary. The
  code's comments mention the limit; `ReturnedAlwaysIff` makes it exact.
* `range_resp_need` is described as exact. For elements under ten million bytes it never is: it reserves
  more than the reply needs. Twelve elements of ten million bytes need more than it reserves.

## Model

| member | source | states |
|---|---|---|
| `Glob.GlobMatchInner` | crates/nexrade-core/src/store.rs:2167-2195 | The iterative matcher with one backtrack point terminates and accepts exactly what full backtracking over all stars (literal test first) accepts, for every pattern and subject. |
| `Glob.GlobMatch` | crates/nexrade-core/src/store.rs:2163-2165 | The public entry decides the same language as the recursive literal-first definition. |
| `Glob.NewStarSubsumesOld` | crates/nexrade-core/src/store.rs:2174-2187 | Why forgetting an earlier star is sound: whatever any later restart of it can accept, the newest star accepts too. |
| `Glob.RestartSubsumed` | crates/nexrade-core/src/store.rs:2183-2187 | The same for every later restart position of the forgotten star. |
| `Glob.AcceptsIsSound` | crates/nexrade-core/src/store.rs:2167-2195 | Whatever the matcher accepts, the textbook definition of `*` and `?` matches, for every subject. |
| `Glob.AcceptsIsComplete` | crates/nexrade-core/src/store.rs:2174-2177 | For a subject without a `*` byte the matcher accepts everything the textbook definition matches. |
| `Glob.AgreesForAllPatterns` | crates/nexrade-core/src/store.rs:2174-2177 | The matcher agrees with the textbook definition on all patterns if and only if the subject contains no `*` byte. |
| `Glob.AgreesForAllSubjects` | crates/nexrade-core/src/store.rs:2174-2177 | The pattern side: the matcher agrees with the textbook definition on all subjects if and only if the pattern contains no `*`. |
| `Glob.SelfWithGap` | crates/nexrade-core/src/store.rs:2174-2187 | Every pattern with a star rejects a subject it should match: itself, with one byte more behind its last star. |
| `Glob.StarRejectsStarSubject` | crates/nexrade-core/src/store.rs:2174-2177 | The concrete failure: pattern `*` does not match subject `*a`. |
| `Admission.InvStep` | crates/nexrade-core/src/db.rs:106-195 | Every atomic step of every thread keeps the protocol invariant: counter exact, one owner, guard excludes permits, no lost wake-up. |
| `Admission.RunInv` | crates/nexrade-core/src/db.rs:76-195 | Every state of every interleaving of any number of writers and quiescers satisfies the invariant. |
| `Admission.SnapshotSeesNoWriter` | crates/nexrade-core/src/db.rs:106-145 | While a quiesce guard is held no mutation permit and no second guard exists, and the counter equals the number of threads between their add and their sub. |
| `Admission.NoLostWakeup` | crates/nexrade-core/src/db.rs:88-138 | A quiescer parked without a pending wake-up implies a counted writer or a notifier on its way; a parked writer implies admission still closed or the reopening notify on its way. |
| `Admission.NoDeadlock` | crates/nexrade-core/src/db.rs:76-195 | In every reachable state with work left, some thread can move without waiting for a timeout. |
| `Admission.BacklogFalls` | crates/nexrade-core/src/db.rs:124-145 | Once admission is closed, every step of a call under way uses up some of a finite backlog. |
| `Admission.QuiesceCompletes` | crates/nexrade-core/src/db.rs:124-145 | For every continuation, of any length, in which no new call begins after admission closes: either the owner has held its guard within as many steps as the backlog, or the continuation is no longer than the backlog and some thread can still move. |
| `Admission.NewCallersCannotStarve` | crates/nexrade-core/src/db.rs:106-145 | Under any schedule and with any number of calls that begin after admission closes: either the owner has held its guard, or no more than a fixed number of turns have gone to the threads it needs and one of those can take the next. |
| `AdmissionCalls.OpenLetsIn` | crates/nexrade-core/src/db.rs:106-115 | A writer that calls while admission is open, and for whom it stays open, holds its permit after three turns of its own, whichever call it made and whatever other threads do meanwhile. |
| `AdmissionCalls.EnterIsDecided` | crates/nexrade-core/src/db.rs:106-123 | `enter_mutation` waits for nobody: within five turns of its own it is refused if and only if its load or its re-load found admission closed, and admitted if and only if neither did. |
| `AdmissionCalls.WaitingGetsIn` | crates/nexrade-core/src/db.rs:76-103 | Once admission has reopened and stays open, a writer anywhere inside a waiting call has had its permit, or has used at most seven turns on its way there and only its own next turn or the reopening notify is missing. |
| `AdmissionCalls.GivesUpOnlyIfClosed` | crates/nexrade-core/src/db.rs:71-103 | `enter_mutation_waiting` gives up only after its deadline has passed and its last attempt, made after that, found admission closed. |
| `AdmissionCalls.DeadlineDecides` | crates/nexrade-core/src/db.rs:96-101 | Once the deadline has passed, one more attempt ends the call within five turns, admitted if and only if its loads find admission open. |
| `AdmissionCalls.DropsFinish` | crates/nexrade-core/src/db.rs:166-195 | Dropping a permit or a guard takes at most three turns, each of them enabled, and ends the call. |
| `RespText.PutI64` | crates/nexrade-core/src/resp.rs:390-419 | The backwards digit loop writes the decimal text of every i64, including the minimum, inside its 20-byte buffer. |
| `RespText.IntTextReadsBack` | crates/nexrade-core/src/resp.rs:390-419 | Decimal text parses back to the same i64. |
| `RespText.ParsesNumerals` | crates/nexrade-core/src/resp.rs:704-747 | The integer parsers read exactly the numerals in their range: a sign, or none, before at least one digit, with the positional value of the digits. |
| `FloatText.FloatIs` | crates/nexrade-core/src/resp.rs:813-821 | A text is a double if and only if it is a sign, or none, before `inf`, `infinity` or `nan` in any case or a decimal: digits, a point, an exponent, with at least one digit before the exponent. |
| `RespInline.TokenizeInline` | crates/nexrade-core/src/resp.rs:914-970 | The tokenizer loop returns exactly the tokens of the recursive grammar, or fails exactly when a quote never closes. |
| `RespInline.ReadQuoted` | crates/nexrade-core/src/resp.rs:929-956 | The inner quote loop returns the unescaped text and the index after the closing quote, as the grammar says. |
| `InlineForms.InlineLanguage` | crates/nexrade-core/src/resp.rs:908-970 | The language of inline lines: a line tokenizes if and only if it is written as arguments between spaces, each bare, single-quoted or double-quoted with any escapes, and then to exactly those arguments. |
| `InlineForms.WrittenReads` | crates/nexrade-core/src/resp.rs:914-970 | The forward half, from any position of the line. |
| `InlineForms.ReadWasWritten` | crates/nexrade-core/src/resp.rs:914-970 | The converse: what tokenizes was so written. |
| `RespParse.ParseValue` | crates/nexrade-core/src/resp.rs:655-675 | The recursive-descent parser with its offset loops computes the reference `ParseResp` on every input: value and consumed length, Incomplete, or the fault. |
| `RespParse.ParseAggregate` | crates/nexrade-core/src/resp.rs:749-892 | Arrays, maps, sets and pushes: count limits, the null array, and the loop over elements agree with the reference. |
| `RespParse.ParseElements` | crates/nexrade-core/src/resp.rs:769-783 | The element loop over a moving offset equals `n` frames parsed one after the other. |
| `RespParse.ParseInlineLine` | crates/nexrade-core/src/resp.rs:894-912 | Inline commands: line search, tokenizing and the two error cases. |
| `RespLanguage.ParsesLanguage` | crates/nexrade-core/src/resp.rs:655-970 | The parser takes `c` bytes off the front as the value `v` if and only if those bytes are a frame standing for `v` in a grammar written without reference to the parser: every type, nested aggregates, numerals with signs and leading zeros, inline lines and all limits. |
| `RespLanguage.WireParses` | crates/nexrade-core/src/resp.rs:655-970 | Every frame of the grammar parses to its value and is consumed whole. |
| `RespLanguage.ParsedIsWire` | crates/nexrade-core/src/resp.rs:655-970 | Whatever parses is a frame of the grammar standing for the value returned. |
| `RespLanguage.NeverStuck` | crates/nexrade-core/src/resp.rs:655-970 | Whatever is incomplete can be decided by more bytes, so no input makes the parser wait for ever. |
| `RespLanguage.StreamIs` | crates/nexrade-core/src/resp.rs:571-636 | A stream is cut into exactly the frames it consists of, up to an unfinished or a malformed one. |
| `RespStream.ParseStable` | crates/nexrade-core/src/resp.rs:655-906 | A frame that parsed or was found malformed stays exactly so whatever bytes are appended. |
| `RespStream.ItemsStable` | crates/nexrade-core/src/resp.rs:749-892 | The same for a run of frames inside an aggregate. |
| `RespStream.FrameLocal` | crates/nexrade-core/src/resp.rs:655-906 | Frames are self-delimiting: the consumed bytes alone parse to the same value. |
| `RespStream.ParseAllConcat` | crates/nexrade-core/src/resp.rs:579-636 | Parsing a stream is parsing a prefix and then going on from what it left over. |
| `RespStream.RespParser.Feed` | crates/nexrade-core/src/resp.rs:579-593 | Feeding appends to the unconsumed bytes. |
| `RespStream.RespParser.ParseOne` | crates/nexrade-core/src/resp.rs:623-636 | One frame comes off the front; the buffer is untouched unless a value is produced. |
| `RespStream.Session` | crates/nexrade-core/src/resp.rs:571-636 | However a byte stream is cut into reads, feeding and parsing yields the values, first error and leftover of the whole stream. |
| `RespStream.FirstErrorIsFinal` | crates/nexrade-core/src/resp.rs:623-636 | Bytes arriving after the first malformed frame change nothing. |
| `RespPrint.WriteTo` | crates/nexrade-core/src/resp.rs:112-272 | The writer appends exactly the wire form of the value for the protocol version to the segmented buffer. |
| `RespPrint.Serialize` | crates/nexrade-core/src/resp.rs:92-106 | Serialising yields the wire form as one byte string. |
| `RespPrint.SegBuf.PushRaw` | crates/nexrade-core/src/resp.rs:463-468 | Pushing a shared segment keeps the order of all bytes written so far. |
| `RespPrint.SegBuf.Finalize` | crates/nexrade-core/src/resp.rs:481-486 | Sealing the active part changes no unread byte. |
| `RespPrint.SegBuf.Advance` | crates/nexrade-core/src/resp.rs:509-527 | Advancing across segment boundaries drops exactly the first `cnt` unread bytes. |
| `RespRoundTrip.RoundTrip` | crates/nexrade-core/src/resp.rs:112-272 | Print then parse, in front of any suffix, gives the degraded value and consumes exactly the printed bytes if and only if line strings are free of CRLF, doubles for a RESP3 peer are the text of a number, and lengths are within the limits. |
| `RespRoundTrip.ReadsBack` | crates/nexrade-core/src/resp.rs:655-892 | The forward half, by induction over nested values. |
| `RespRoundTrip.OnlyPrintable` | crates/nexrade-core/src/resp.rs:714-784 | The converse: a value that comes back was printable, at every depth. |
| `RespRoundTrip.MapKeepsEntries` | crates/nexrade-core/src/resp.rs:205-227 | A map's wire values are its keys and values in order. |
| `RespRoundTrip.InlineLineReads` | crates/nexrade-core/src/resp.rs:894-912 | An inline line up to its CRLF: arguments written in any form arrive as an array of bulk strings; a line without arguments and one that is not so written are refused, each with its own error. |
| `RespRoundTrip.InlineCommandReadsBack` | crates/nexrade-core/src/resp.rs:894-970 | Any nonempty argument vector can be typed as a quoted inline command and arrives unchanged. |
| `Aof.AofReader.NextCommand` | crates/nexrade-core/src/persistence.rs:570-619 | The next item of the file, whatever the read sizes: the raw command bytes, or how and where the file ends; raw mirror and parser stay in step. |
| `Aof.AofReader.ScanToEof` | crates/nexrade-core/src/persistence.rs:624-630 | The preflight reports the same ending as the one-go reference. |
| `Aof.ReplayFile` | crates/nexrade-core/src/persistence.rs:530-619 | Replaying through the reader gives the reference cut of the file into frames, independent of read boundaries. |
| `Aof.ReplayCovers` | crates/nexrade-core/src/persistence.rs:570-619 | Commands replayed are a prefix of the file and the reader stops right after them for the reported reason. |
| `Aof.ReplayCoversFile` | crates/nexrade-core/src/persistence.rs:570-619 | The commands concatenate to the whole file if and only if it ends cleanly; otherwise to the file up to the reported offset, where the frame is cut short or malformed as reported. |
| `Aof.CommandsAreFrames` | crates/nexrade-core/src/persistence.rs:577-589 | Every replayed command is exactly one complete frame. |
| `Packed.ElementReadsBack` | crates/nexrade-core/src/list_data.rs:736-743 | A length prefix and that many bytes give any packed element back. |
| `ListPacking.DefaultLimits` | crates/nexrade-core/src/list_data.rs:20-26 | With the default thresholds the buffer never exceeds 20480 bytes, so 32-bit offsets suffice. |
| `ListPacking.CompactList.EnsureFrontRoom` | crates/nexrade-core/src/list_data.rs:611-627 | Growing the headroom moves the live data, rebases every live offset, and stays within the head cap. |
| `ListPacking.CompactList.EnsureOffFrontRoom` | crates/nexrade-core/src/list_data.rs:630-641 | The offset table gets a free front slot with every live offset unchanged. |
| `ListPacking.CompactList.PushBack` | crates/nexrade-core/src/list_data.rs:643-667 | Appends one element; encoding, offsets and size bounds are kept. |
| `ListPacking.CompactList.PushFront` | crates/nexrade-core/src/list_data.rs:669-685 | Prepends one element through headroom growth and rebasing; encoding, offsets and bounds are kept. |
| `ListPacking.CompactList.PopFront` | crates/nexrade-core/src/list_data.rs:687-718 | Removes and returns the first element, with prefix and offset reclaim, for every list. |
| `ListPacking.CompactList.PopBack` | crates/nexrade-core/src/list_data.rs:720-734 | Removes and returns the last element. |
| `ListPacking.CompactList.Get` | crates/nexrade-core/src/list_data.rs:736-743 | Random access agrees with the sequence, in and out of range. |
| `ListPacking.CompactList.RangeBytes` | crates/nexrade-core/src/list_data.rs:745-760 | A range walk returns that slice of the sequence. |
| `ListPacking.CompactList.RangeSnap` | crates/nexrade-core/src/list_data.rs:774-794 | The snapshot region is exactly the encoding of the slice; the size estimate is compared with the bytes written in RangeFraming.EstimateIs. |
| `RangeFraming.ReplySize` | crates/nexrade-core/src/list_data.rs:774-804 | The exact size of the reply to a range, from the digits of its count and lengths. |
| `RangeFraming.EstimateIs` | crates/nexrade-core/src/list_data.rs:796-804 | The reserved size is enough if and only if count and lengths have at most 13 + 7n digits together, and exact if and only if they have just as many. |
| `RangeFraming.SmallElementsFit` | crates/nexrade-core/src/list_data.rs:786-787 | For elements under ten million bytes, fewer than 10^12 of them, the reserved size is always enough and never exact. |
| `RangeFraming.TwelveLongElementsOverflow` | crates/nexrade-core/src/list_data.rs:786-787 | Twelve elements of ten million bytes need one byte more than is reserved. |
| `ListPacking.OffsetExact` | crates/nexrade-core/src/list_data.rs:643-667 | A buffer offset survives its 32-bit cast if and only if it is below 2^32. |
| `ListPacking.CompactList.BufferBounded` | crates/nexrade-core/src/list_data.rs:611-734 | Within the limits the whole buffer is at most the head cap plus the live data cap. |
| `ListEncoding.ListData.EnsureLinked` | crates/nexrade-core/src/list_data.rs:215-231 | Promotion keeps the contents and the byte total. |
| `ListEncoding.ListData.MaybeDemote` | crates/nexrade-core/src/list_data.rs:233-256 | Demotion happens exactly when count, every element and the total fit the thresholds, and keeps the contents. |
| `ListEncoding.ListData.PushFront` | crates/nexrade-core/src/list_data.rs:268-284 | Prepends; the list promotes exactly when a threshold would be exceeded. |
| `ListEncoding.ListData.PushBack` | crates/nexrade-core/src/list_data.rs:286-301 | Appends; the list promotes exactly when a threshold would be exceeded. |
| `ListEncoding.ListData.PopFront` | crates/nexrade-core/src/list_data.rs:303-312 | Pops the first element, then demotes exactly when allowed. |
| `ListEncoding.ListData.PopBack` | crates/nexrade-core/src/list_data.rs:314-323 | Pops the last element, then demotes exactly when allowed. |
| `ListEncoding.ListData.Set` | crates/nexrade-core/src/list_data.rs:334-351 | LSET replaces one element in range and reports the exact payload change. |
| `ListEncoding.ListData.Insert` | crates/nexrade-core/src/list_data.rs:353-387 | LINSERT before or after the first pivot, with the new length, or nothing when the pivot is missing. |
| `ListEncoding.ListData.Rem` | crates/nexrade-core/src/list_data.rs:389-454 | LREM from either end removes exactly the right occurrences and reports count and exact delta. |
| `ListEncoding.ListData.Trim` | crates/nexrade-core/src/list_data.rs:456-486 | LTRIM keeps exactly the clipped slice and reports the exact delta. |
| `ListEncoding.DropLastMirrors` | crates/nexrade-core/src/list_data.rs:424-439 | Removing from the tail is removing from the head of the mirrored list. |
| `ListEncoding.DropFirstLen` | crates/nexrade-core/src/list_data.rs:389-420 | Removing matches costs exactly their number times their length in bytes. |
| `ListLaws.RemovedIs` | crates/nexrade-core/src/list_data.rs:389-439 | LREM without reference to how it is computed: for a positive count the first occurrences lie before a cut and are gone, for a negative one the last lie after a cut and are gone, for zero all are gone; everything else stays in order. |
| `ListLaws.RemovedCounts` | crates/nexrade-core/src/list_data.rs:389-454 | LREM loses exactly min(|count|, occurrences) copies of the element, all of them for zero, and no other element. |
| `ListLaws.SliceIs` | crates/nexrade-core/src/list_data.rs:456-501 | LTRIM and LRANGE keep exactly the indices from start to stop that the list has, in order. |
| `ListLaws.InsertIs` | crates/nexrade-core/src/list_data.rs:353-387 | LINSERT puts the element right before or right after the first occurrence of the pivot and leaves the rest as it was; without the pivot nothing changes. |
| `ListLaws.PushStaysCompactIff` | crates/nexrade-core/src/list_data.rs:258-301 | A push leaves a compact list compact if and only if the longer list is within the three thresholds. |
| `ListLaws.RemovalPacksIff` | crates/nexrade-core/src/list_data.rs:233-256 | A removal turns a linked list compact if and only if what is left is within the thresholds for that. |
| `ListLaws.CompactObeys` | crates/nexrade-core/src/list_data.rs:20-48 | Over every run under fixed thresholds, no list is ever compact beyond them. |
| `ListRuns.RunList` | crates/nexrade-core/src/list_data.rs:215-501 | Every run of list commands, under thresholds that may change between calls, answers like a plain sequence; after each call the list is compact exactly when the thresholds say so, and then its buffer and offset table hold the elements within the caps on the whole buffer and on its spent front. |
| `ListRuns.WithinAllowed` | crates/nexrade-core/src/list_data.rs:258-266 | Thresholds within the limits keep every run within the cap. |
| `ListRuns.SmallAllowed` | crates/nexrade-core/src/list_data.rs:233-266 | So does data that stays small, whatever the thresholds. |
| `SetEncoding.CompactSet.Contains` | crates/nexrade-core/src/set_data.rs:463-473 | The packed scan finds a member if and only if it is there. |
| `SetEncoding.CompactSet.Remove` | crates/nexrade-core/src/set_data.rs:475-502 | The rebuild drops exactly the member, with the exact delta. |
| `SetEncoding.CompactSet.Nth` | crates/nexrade-core/src/set_data.rs:504-523 | Indexed access by scanning agrees with the listing, in and out of range. |
| `SetEncoding.SwapCutRemoves` | crates/nexrade-core/src/set_data.rs:157-179 | Filling a removed slot with the last member removes exactly that member. |
| `SetEncoding.SetData.MaybeDemote` | crates/nexrade-core/src/set_data.rs:272-300 | Demotion happens exactly when the thresholds allow it and keeps the listing. |
| `SetEncoding.SetData.Insert` | crates/nexrade-core/src/set_data.rs:302-327 | Adds the member; newness, contents and byte delta are those of a plain set, and promotion happens exactly on a new member over a threshold. |
| `SetEncoding.AcceptsIff` | crates/nexrade-core/src/set_data.rs:302-327 | A new member leaves a packed set packed if and only if the larger set is within the thresholds. |
| `SetEncoding.SetData.Remove` | crates/nexrade-core/src/set_data.rs:337-346 | Removes the member; reply, contents, delta and demotion are exact. |
| `SetEncoding.SetData.RemoveAt` | crates/nexrade-core/src/set_data.rs:382-400 | SPOP by index removes and returns exactly the member listed at that index. |
| `SetRuns.RunSet` | crates/nexrade-core/src/set_data.rs:233-414 | Every run of set commands, under thresholds that may change between calls, answers as a plain set does, and every delta and byte total is exact. |
| `HashEncoding.CompactHash.Get` | crates/nexrade-core/src/hash_data.rs:468-481 | The packed scan returns the value of the field, or nothing when it is absent. |
| `HashEncoding.CompactHash.Overwrite` | crates/nexrade-core/src/hash_data.rs:441-446 | A same-length value is overwritten where it stands and the buffer is again a packed listing of the updated map. |
| `HashEncoding.CompactHash.Replace` | crates/nexrade-core/src/hash_data.rs:447-458 | A value of another length is cut out and appended; the buffer packs the updated map and the byte total is exact. |
| `HashEncoding.CompactHash.Insert` | crates/nexrade-core/src/hash_data.rs:426-466 | Newness, the updated map and the delta are those of a plain map, on all three paths. |
| `HashEncoding.CompactHash.Remove` | crates/nexrade-core/src/hash_data.rs:487-514 | The rebuild drops exactly the field, returning its value and the exact delta. |
| `HashEncoding.HashData.MaybeDemote` | crates/nexrade-core/src/hash_data.rs:225-255 | Demotion, decided by a walk in any order that may give up early, happens exactly when all thresholds hold, and keeps the map. |
| `HashEncoding.HashData.Insert` | crates/nexrade-core/src/hash_data.rs:258-293 | HSET behaves as on a plain map with exact delta; the hash promotes exactly when the packed encoding must not take the write. |
| `HashEncoding.AcceptsIff` | crates/nexrade-core/src/hash_data.rs:258-293 | A new field leaves a packed hash packed if and only if the larger hash is within all thresholds; an overwritten one if and only if it is within those other than the total size. |
| `HashEncoding.OverwriteExceedsSize` | crates/nexrade-core/src/hash_data.rs:276-287 | So overwriting takes a packed hash past the limit on its size. |
| `HashEncoding.HashData.Remove` | crates/nexrade-core/src/hash_data.rs:310-319 | HDEL behaves as on a plain map with exact delta and exact demotion. |
| `HashRuns.RunHash` | crates/nexrade-core/src/hash_data.rs:173-327 | Every run of hash commands, under thresholds that may change between calls, answers as a plain map does, and every delta and byte total is exact. |
| `ShardStore.Database.Insert` | crates/nexrade-core/src/store.rs:371-431 | Replaces or adds the entry; index, byte counter and version slot follow, and a vacant key starts at version 1. |
| `ShardStore.Database.SetPlain` | crates/nexrade-core/src/store.rs:437-511 | SET in place: value replaced, deadline cleared, version raised, bookkeeping exact. |
| `ShardStore.Database.GetOrInsertWith` | crates/nexrade-core/src/store.rs:513-611 | An expired entry counts as absent; the entry returned is fresh or refreshed, and its version is raised. |
| `ShardStore.Database.IncrInt` | crates/nexrade-core/src/store.rs:613-690 | Increments an integer or integer string, or refuses on wrong type or overflow without changing anything. |
| `CounterRuns.IncrAnswers` | crates/nexrade-core/src/store.rs:613-690 | An increment of an entry that stands for n, an integer, a numeral in range or, being missing or expired, 0, answers n + delta if that is in range and Overflow otherwise; any other string is not an integer and any other type the wrong one. |
| `CounterRuns.IncrStores` | crates/nexrade-core/src/store.rs:651-687 | The entry stored stands for the answer and keeps the deadline of a live key. |
| `CounterRuns.CounterAddsUp` | crates/nexrade-core/src/store.rs:1136-1168 | In every trace in which nothing but increments, on either path, touches a key, refused ones and traffic on other keys included, the key ends as the number it was plus the sum of the deltas taken, with the deadline it had. |
| `CounterRuns.IncrementAnswersSum` | crates/nexrade-core/src/store.rs:1136-1168 | And the next increment answers that number plus that sum plus its own delta, if it is in range. |
| `ShardStore.Database.FastIncr` | crates/nexrade-core/src/types.rs:73-91 | INCRBY under the read lock: adds to the cell of a live integer and counts the write there, refuses on overflow, and leaves every other key, all sizes and all slots alone. |
| `ShardStore.Database.GetMut` | crates/nexrade-core/src/store.rs:271-289 | Hands out a live entry with its version raised, dropping an expired one. |
| `ShardStore.Database.Edit` | crates/nexrade-core/src/store.rs:213-244 | An in-place edit that reports its exact delta keeps the byte counter exact, so the saturating subtraction never saturates. |
| `ShardStore.Database.Remove` | crates/nexrade-core/src/store.rs:692-706 | Removes entry, deadline and bytes together, and prunes version slots when due. |
| `ShardStore.Database.SetExpiry` | crates/nexrade-core/src/store.rs:834-852 | Changes the deadline and the index together and raises the version. |
| `ShardStore.Database.MaybePrune` | crates/nexrade-core/src/store.rs:328-357 | Pruning changes no slot, drops either none or exactly those of absent keys, and restores the slot bound. |
| `ShardStore.Database.ExpireBatch` | crates/nexrade-core/src/store.rs:745-787 | Deletes exactly the first due keys of the index, at most the given number; the slot of each has moved on by one or been pruned, and no other slot has changed. |
| `ShardStore.Database.ExpireCycle` | crates/nexrade-core/src/store.rs:798-830 | The adaptive rounds delete exactly the first 3372 due keys in deadline order, or all of them if there are fewer, in at most sixteen rounds, with the same effect on slots. |
| `ShardStore.CycleIsExact` | crates/nexrade-core/src/store.rs:798-830 | Only expired keys go, earliest deadlines first, at most 20+40+80+160+12*256 of them; if fewer go, no expired key is left. |
| `ShardStore.PutConsistent` | crates/nexrade-core/src/store.rs:371-431 | Writing one entry keeps index, byte counter and slots in agreement with the entries. |
| `ShardStore.DropConsistent` | crates/nexrade-core/src/store.rs:692-706 | So does dropping one. |
| `StoreRuns.RunShard` | crates/nexrade-core/src/store.rs:213-852 | Every run of mutators from an empty shard is a trace of a step relation that fixes the entries after each call and every version slot, pruning of absent keys' slots apart; in every shard of the trace the index is exactly the set of (deadline, key), the byte counter the exact sum of entry sizes, every live key has a slot, and slots number at most live keys + max(most keys so far, 4096) + 1023. |
| `WatchRuns.WatchSeesSameIff` | crates/nexrade-server/src/connection.rs:950-961 | For every window of every run: EXEC reads the version at the last restart in the window plus the moves since, less the count of an integer past its deadline. If nothing started over, it reads what WATCH read if and only if the moves make up for what a deadline hides, modulo 2^64. |
| `WatchRuns.ChangeMissedIff` | crates/nexrade-server/src/connection.rs:950-961 | A key that was written, removed or re-created reads as before if and only if its version started over and caught up with the version read, or moved on by a positive multiple of 2^64. |
| `WatchRuns.OriginReads` | crates/nexrade-core/src/store.rs:291-369 | Slot and cell together are always the version at the last restart, or the one read before, plus the writes and removals since. Restarts: a vacant insert at 1, the loss of a slot at 0, the loss of a cell at what the slot says. |
| `WatchRuns.UntouchedKeeps` | crates/nexrade-core/src/store.rs:271-308 | A key whose version neither moved nor started over holds the same value, LRU stamp apart, and reads the same. |
| `WatchRuns.WriteMissedIff` | crates/nexrade-core/src/store.rs:351-369 | A write to a present key, or its removal, leaves the reading as it was if and only if it discards an integer cell that had counted one write more than what replaces it. |
| `WatchRuns.WatchCounts` | crates/nexrade-core/src/store.rs:271-308 | While a key stays and no cell of it is discarded, its version moves by exactly the number of writes, modulo 2^64; fewer than 2^64 are noticed if and only if there are any. |
| `WatchRuns.RecreatedStartsOver` | crates/nexrade-core/src/store.rs:409-425 | A key inserted where there was none has counted on from 1 at every later moment while it stays. |
| `WatchRuns.RecreatedGoesOn` | crates/nexrade-core/src/store.rs:513-690 | A key re-created by get_or_insert_with or incr_int counts on from its slot at every later moment while it stays; from 1 if it has no slot, which is when it was pruned or flushed or the key is new. |
| `WatchRuns.DeletionNoticed` | crates/nexrade-core/src/store.rs:297-327 | EXEC on a deleted key reads one more than the slot was, or 0 once the slot is pruned or flushed; it notices unless the key was an integer whose cell had counted one write, or the slot is lost and the version read was 0. |
| `WatchRuns.RecreationGoesUnnoticed` | crates/nexrade-core/src/store.rs:409-425 | The case occurs: insert, remove, insert again. |
| `WatchRuns.CatchingUpGoesUnnoticed` | crates/nexrade-core/src/store.rs:409-425 | With any version: two inserts, remove, two inserts again. |
| `WatchRuns.FlushGoesUnnoticed` | crates/nexrade-core/src/store.rs:1180-1193 | With a flush: insert, flush, INCR. |
| `WatchRuns.CounterGoesUnnoticed` | crates/nexrade-core/src/store.rs:1150-1168 | With a counter that is never re-created: INCR, INCR, then SET or DEL reads 2 before and after. |
| `WatchRuns.Watch` | crates/nexrade-core/src/store.rs:360-369 | Runs any operations on a shard and reports both readings of a key and their origin, all of them as in the trace. |
| `Eviction.SampleLruVictim` | crates/nexrade-core/src/store.rs:991-1025 | Sampling finds a victim whenever one exists, and the least recently used one whenever at most five keys are eligible. |
| `Eviction.EvictOne` | crates/nexrade-core/src/store.rs:879-956 | Evicts one eligible key under each policy if and only if there is one, and nothing else changes; volatile-ttl takes an earliest deadline, the LRU policies the least recently used of up to five. |
| `Eviction.VictimsAre` | crates/nexrade-core/src/store.rs:879-956 | Which keys each policy may take: none, any, or those with a deadline, which for volatile-random and volatile-lru must not have passed. |
| `Eviction.SparedStays` | crates/nexrade-core/src/store.rs:2008-2048 | However many keys are evicted under a volatile policy, a key without a deadline stays as it is. |
| `Eviction.PinnedStays` | crates/nexrade-core/src/store.rs:879-956 | Evicting a victim leaves the bytes of the keys the policy may not touch unchanged. |
| `Eviction.Store.EvictIfNeeded` | crates/nexrade-core/src/store.rs:2008-2048 | After the expiry pass, whose result is a function of the contents before the call, the loop repeats without changing anything if and only if the bytes the policy may not evict exceed the limit; otherwise it evicts eligible keys one by one, each while memory was above the limit, and ends at or below it. Allkeys policies always end. |
| `Eviction.AllKeysPinsNothingAnywhere` | crates/nexrade-core/src/store.rs:2008-2048 | Under allkeys policies no byte is beyond eviction, given exact byte accounting. |
| `Eviction.CycleLosesOnlyExpired` | crates/nexrade-core/src/store.rs:2008-2026 | The expiry pass before eviction removes only expired entries. |
| `Routing.OrderKeyStep` | crates/nexrade-core/src/command/mod.rs:80-128 | The top bits of a key's order key are its bit-reversed shard index, for every power-of-two shard count. |
| `Routing.StepVisitsShard` | crates/nexrade-core/src/store.rs:1281-1283 | Step i of the walk visits exactly the shard whose keys carry step i. |
| `Routing.OrderKeyRange` | crates/nexrade-core/src/command/mod.rs:80-98 | Order keys are nonzero, so cursor 0 is free to mean the end. |
| `Scan.ScanPage` | crates/nexrade-core/src/store.rs:1268-1335 | One page is the first COUNT live matching keys above the cursor in order-key order and the right next cursor, for every shard count of at least two. |
| `Scan.FindsMatches` | crates/nexrade-core/src/store.rs:1285-1318 | MATCH in textbook terms: only live keys of the right type that the pattern matches are found, and every such key without a `*` in its name. |
| `Scan.CursorsClimb` | crates/nexrade-core/src/store.rs:1241-1335 | Along an iteration cursors only climb and pages stay between their cursors. |
| `Scan.ReturnedAtMostOnce` | crates/nexrade-core/src/store.rs:1241-1335 | No key is returned twice in an iteration, whatever changes between calls. |
| `Scan.ReturnedExactlyOnce` | crates/nexrade-core/src/store.rs:1241-1335 | A key that stays matching and is the foremost of those with its order key is returned by exactly one call, whatever else changes between calls. |
| `Scan.ScanAll` | crates/nexrade-core/src/store.rs:1241-1335 | A client's whole loop over stores whose keys, clock and shard count change between calls: each page answers its call, each call resumes where the last stopped, the loop is done exactly when the cursor is 0, and then every key shown in all calls occurs exactly once in the pages. |
| `Scan.UnchangedScanEnds` | crates/nexrade-core/src/store.rs:1241-1335 | Over a store that does not change, the cursor is 0 after at most one call more than there are matches. |
| `Scan.ReturnedAlwaysIff` | crates/nexrade-core/src/command/mod.rs:62-64 | Over a store that does not change, every iteration returns a key if and only if no match with the same order key has a smaller name. |
| `Scan.SkippingIteration` | crates/nexrade-core/src/command/mod.rs:62-64 | For every other key there is an iteration, cut at a page boundary inside the shared order key, that never returns it. |
| `Sharded.FlatWith` | crates/nexrade-core/src/store.rs:1104-1106 | A step on the owning shard is the same step on one flat map. |
| `Sharded.ShardedDatabase.Rename` | crates/nexrade-core/src/store.rs:1412-1431 | RENAME equals the operation on one flat map, for every power-of-two shard count, same shard and same key included. |
| `Sharded.ShardedDatabase.RenameNx` | crates/nexrade-core/src/store.rs:1433-1458 | RENAMENX equals its flat-map form, with its three replies. |
| `Sharded.ShardedDatabase.CopyEntry` | crates/nexrade-core/src/store.rs:1460-1493 | COPY with and without REPLACE equals its flat-map form. |
| `Sharded.ShardedDatabase.LMove` | crates/nexrade-core/src/store.rs:1497-1610 | LMOVE equals its flat-map form: the destination's type is checked before anything is popped. |
| `Sharded.ShardedDatabase.SMove` | crates/nexrade-core/src/store.rs:1618-1723 | SMOVE equals its flat-map form. |
| `Sharded.ShardedDatabase.MSet` | crates/nexrade-core/src/store.rs:1762-1779 | MSET stores the pairs of any batch in some order; if equal keys carry equal entries the result is that of storing them one by one in a flat map. |
| `Sharded.ShardedDatabase.MSetNx` | crates/nexrade-core/src/store.rs:1795-1816 | MSETNX stores all pairs, in some order, if and only if no key of the batch is visible, and otherwise changes nothing. |
| `Sharded.ShardedDatabase.TagAndSort` | crates/nexrade-core/src/store.rs:1830-1847 | Tagging and sorting reorders exactly the pairs of any batch, by shard, and yields the distinct shards in ascending order. |
| `Sharded.ShardedDatabase.CommitTagged` | crates/nexrade-core/src/store.rs:1909-1921 | The moving guard index always finds the shard of the next pair. |
| `FlatLaws.RenameIs` | crates/nexrade-core/src/store.rs:1412-1431 | RENAME moves the entry over whatever is at the target, and touches no third key. |
| `FlatLaws.RenameNxIs` | crates/nexrade-core/src/store.rs:1433-1458 | RENAMENX answers 0 if and only if the target is visible, and then nothing changes; nothing if and only if the target is not visible and there is no other source; 1 otherwise, and then the source's entry has moved. No third key is touched. |
| `FlatLaws.CopyIs` | crates/nexrade-core/src/store.rs:1460-1493 | COPY happens if and only if the source is visible and the target is free or to be replaced; then both keys hold the source's entry, and otherwise nothing changes. No third key is touched. |
| `FlatLaws.LMoveAnswers` | crates/nexrade-core/src/store.rs:1497-1585 | LMOVE moves if and only if the destination is free or a list and the source is a nonempty list; when it answers wrong type and when nothing is exact too. |
| `FlatLaws.LMoveDeadlines` | crates/nexrade-core/src/store.rs:1512-1610 | A created list has no deadline, one that stays keeps its own, an emptied one is gone. |
| `FlatLaws.SMoveAnswers` | crates/nexrade-core/src/store.rs:1618-1723 | SMOVE's three answers, each if and only if; the destination counts even when it has expired. |
| `FlatLaws.SMoveDeadlines` | crates/nexrade-core/src/store.rs:1618-1723 | A created set has no deadline, one that stays keeps its own, an emptied one is gone. |
| `FlatOps.LMoveConserves` | crates/nexrade-core/src/store.rs:1497-1610 | The two lists together hold the same elements before and after, also when source and destination are one key. |
| `FlatOps.LMoveElements` | crates/nexrade-core/src/store.rs:1512-1565 | Exactly which element leaves which end and arrives at which end. |
| `FlatOps.LMoveFrame` | crates/nexrade-core/src/store.rs:1566-1585 | A move that does not happen, a wrong-type destination included, changes no live value, and no third key is touched. |
| `FlatOps.RotateKeepsDeadline` | crates/nexrade-core/src/store.rs:1512-1565 | Rotating a list onto itself keeps its deadline if and only if it had none or the list has at least two elements. |
| `FlatOps.SMoveMoves` | crates/nexrade-core/src/store.rs:1618-1723 | The member leaves the source, arrives at the destination, and every other membership stays. |
| `FlatOps.SMoveFrame` | crates/nexrade-core/src/store.rs:1618-1723 | A refused or empty move changes no live value, and no third key is touched. |
| `FlatOps.ExpiredStringBlocksSMove` | crates/nexrade-core/src/store.rs:1637-1650 | An expired string at the destination is invisible to readers and yet makes SMOVE answer wrong type. |
| `FlatOps.SMoveReplyKeepsPromise` | crates/nexrade-core/src/store.rs:1630-1640 | SMOVE answers as if an expired destination were absent if and only if the destination is not an expired non-set or the source is a live non-set anyway. |
| `FlatOps.SMoveValuesKeepPromise` | crates/nexrade-core/src/store.rs:1630-1640 | It leaves the live values it would leave then if and only if the destination is not an expired non-set or the member is not in the source. |
| `FlatOps.PutAllAnyOrder` | crates/nexrade-core/src/store.rs:1830-1847 | If equal keys carry equal entries, the order of the batch does not matter. |
| `FlatOps.OrderIrrelevantIff` | crates/nexrade-core/src/store.rs:1838-1838 | On every map, all orders of a batch store the same result if and only if equal keys carry equal entries. |
| `FlatOps.PutAllPicks` | crates/nexrade-core/src/store.rs:1909-1921 | In any order a named key ends up with one of its entries and every other key keeps what it had. |
| `ShardLocks.InvStep` | crates/nexrade-core/src/store.rs:1849-1921 | Every single lock attempt, insert and release of any thread keeps mutual exclusion and the agreement of the stored keys with the serial result. |
| `ShardLocks.ReadersSeeWholeOperations` | crates/nexrade-core/src/store.rs:1849-1921 | In every interleaving a reader holding the locks of all its shards sees exactly what the committed operations leave when run whole one after another; never part of an MSET. |
| `ShardLocks.Serialisable` | crates/nexrade-core/src/store.rs:1391-1409 | When no operation is under way, the store is the result of running the operations begun, each exactly once, serially in commit order. |
| `ShardLocks.EachCommitsOnce` | crates/nexrade-core/src/store.rs:1762-1816 | Every operation begun is under way or has committed exactly once. |
| `ShardLocks.WaitsUpward` | crates/nexrade-core/src/store.rs:1391-1409 | A thread that blocks waits only for a shard above all those it holds. |
| `ShardLocks.NoDeadlock` | crates/nexrade-core/src/store.rs:1869-1907 | While any operation is under way some thread can move, even if readers also queue behind waiting writers. |
| `ShardLocks.OperationsFinish` | crates/nexrade-core/src/store.rs:1869-1907 | Under every scheduler the operations under way finish within a computable number of steps: spins and parks are bounded and blocking acquisition cannot cycle. |
| `LockedOps.MovePerforms` | crates/nexrade-core/src/store.rs:1412-1723 | Under their two locks RENAME, RENAMENX, COPY, LMOVE and SMOVE, run whole, are the flat-map operations. |
| `LockedOps.MSetPerforms` | crates/nexrade-core/src/store.rs:1762-1779 | MSET under its locks stores the batch at once, in the order the sort chose, which matters only if equal keys carry different entries. |
| `LockedOps.MSetNxPerforms` | crates/nexrade-core/src/store.rs:1795-1816 | MSETNX under its locks is all or nothing, decided by what its own shards show, in the order the sort chose. |
| `ConcurrentRuns.RenameLosesNoKey` | crates/nexrade-core/src/store.rs:2828-2864 | However many threads read and rename two keys back and forth, one of them holds the original entry afterwards, the other is absent and no third key has changed. |
| `ConcurrentRuns.ReaderCountsEveryElement` | crates/nexrade-core/src/store.rs:2945-2984 | A reader that sees both lists while threads move elements between them counts every element exactly once. |
| `ConcurrentRuns.ExactlyOneWinner` | crates/nexrade-core/src/store.rs:2987-3070 | Of any number of MSETNX competing for a free key among any readers, the first to commit stores its whole batch and the others nothing. |
| `ConcurrentRuns.NxNeverOverwrites` | crates/nexrade-core/src/store.rs:1433-1493 | Whatever RENAMENX, COPY without REPLACE and MSETNX clients fire at a key that is there, in any interleaving with readers, its entry stays. |

## Left out

- Weak memory: the atomics of the admission protocol are taken as sequentially consistent, although the code uses acquire and release around a store followed by a load. Dropping a `quiesce` future while it waits is not modelled.
- The reader-writer lock itself: a lock is granted when no conflicting hold exists, with or without the policy that readers queue behind waiting writers. Spinning, yielding and parking between try-lock sweeps are no-ops.
- Clocks, LRU stamps, random numbers and hash-table iteration order: time and stamps are parameters, iteration order is arbitrary.
- The hash function: any function with 64-bit results; only its use for routing and order keys is modelled.
- Scan.ScanPage: needs at least two shards, because with one shard the code shifts a 64-bit number by 64.
- Scan.ScanAll: needs at least two shards for the same reason.
- Sorted sets, streams, geo values and hashes inside the store carry only a kind and a size.
- ShardStore.Database.FastIncr: is one step, although the cell's value and its count change one after the other; a reader in between sees the new value with the old count.
- UTF-8 replacement in line strings and error texts: line strings are raw bytes and faults are kinds.
- Floating point: a double is its text, and its grammar is modelled; the number it denotes and how a number is written are not.
- `Resp::Raw` is outside the round trip, as its bytes are the caller's.
- Rust's stack depth and the overflow of machine-size counters; versions and i64 arithmetic do wrap or refuse as in the code.
- ListPacking.CompactList.EnsureFrontRoom: does not take thresholds raised so far that the packed data comes near 2^32 bytes, where the code's 32-bit offsets are truncated.
- ListPacking.CompactList.PushBack: does not take thresholds raised so far that the packed data comes near 2^32 bytes, where the code's 32-bit offsets are truncated.
- ListPacking.CompactList.PushFront: does not take thresholds raised so far that the packed data comes near 2^32 bytes, where the code's 32-bit offsets are truncated.
- ListEncoding.ListData.MaybeDemote: does not take thresholds raised so far that the packed data comes near 2^32 bytes, where the code's 32-bit offsets are truncated.
- ListEncoding.ListData.PushFront: does not take thresholds raised so far that the packed data comes near 2^32 bytes, where the code's 32-bit offsets are truncated.
- ListEncoding.ListData.PushBack: does not take thresholds raised so far that the packed data comes near 2^32 bytes, where the code's 32-bit offsets are truncated.
- ListEncoding.ListData.PopFront: does not take thresholds raised so far that the packed data comes near 2^32 bytes, where the code's 32-bit offsets are truncated.
- ListEncoding.ListData.PopBack: does not take thresholds raised so far that the packed data comes near 2^32 bytes, where the code's 32-bit offsets are truncated.
- ListEncoding.ListData.Rem: does not take thresholds raised so far that the packed data comes near 2^32 bytes, where the code's 32-bit offsets are truncated.
- ListEncoding.ListData.Trim: does not take thresholds raised so far that the packed data comes near 2^32 bytes, where the code's 32-bit offsets are truncated.
- ListRuns.RunList: does not take thresholds raised so far that the packed data comes near 2^32 bytes, where the code's 32-bit offsets are truncated.
- SetEncoding.SetData.Insert: does not take a string of 2^32 bytes or more, whose stored length is truncated; the parser lets none over 512 MiB through.
- SetRuns.RunSet: does not take a string of 2^32 bytes or more, whose stored length is truncated; the parser lets none over 512 MiB through.
- HashEncoding.CompactHash.Replace: does not take a string of 2^32 bytes or more, whose stored length is truncated; the parser lets none over 512 MiB through.
- HashEncoding.CompactHash.Insert: does not take a string of 2^32 bytes or more, whose stored length is truncated; the parser lets none over 512 MiB through.
- HashEncoding.HashData.Insert: does not take a string of 2^32 bytes or more, whose stored length is truncated; the parser lets none over 512 MiB through.
- HashRuns.RunHash: does not take a string of 2^32 bytes or more, whose stored length is truncated; the parser lets none over 512 MiB through.
- An expire batch asked for 2^32 keys or more, whose count would be truncated on its way to the slot pruning.
- Read errors of the log file; a read returns some nonempty part of the rest or the end of the file.
- Capacity hints, `Arc` sharing and copy-on-write of packed buffers.
- `SetData::from_hashset`, iterators over borrowed slices, and the HGETALL and SMEMBERS framing helpers: they repeat the walks modelled here.
- KEYS, RANDOMKEY, snapshots, cluster slots, replication, scripting, ACL, pub/sub, networking, metrics and configuration: plumbing or bookkeeping without a deep property.
