# Verified models of the MAVERIC ground station

This project models the parts of the ground station software in which several steps or
several files have to fit together, and proves that they do:

- the AX.25 over-the-air encoder, with a receiver written as its specification;
- the bit and token cursors, the binary type codec, bit fields, and the walk over
  marker-delimited text frames;
- the session log and its two-phase rename, with I/O failing at any call;
- the alarm registry and its audit filter, the packet pipeline, the parameter cache;
- the command path: operator line, arguments, MAVERIC packet, CSP, ASM+Golay or AX.25, and
  back through the receiver and the packet parser.

Code that changes state is modelled by methods and classes, proved against functions on
values; the theorems are about those functions, over every input and every run. A module
stands for a source file or a part of one and says so in its first lines. `dafny verify
dfyconfig.toml` checks everything.

## Where the code does not do what is promised

Each of these is a lemma with the exact condition, or a concrete run.

- `prepare_rename` says the log stays functional after any I/O error. When reopening the
  old file fails too, no writer runs; records queued then are lost by the next rename
  (`PrepareKeeps`, `WithoutWriterTheQueueIsLost`, and the run `FailedReopenLosesRecord`).
- A rename prepared before another one was committed can replace the canonical file by an
  older copy (`StaleCommit`, `StaleCommitLoses`).
- Records accepted while `commit_new_session` is between its join and its new queue are
  lost (`NewSessionWindow`).
- Two sessions within one second have the same file; when the first has no records, the
  file is removed and the second's records go nowhere (`SameSecondSession`).
- A repeat without a count, or with a negative one, of a type that reads nothing (an
  aggregate without members, an array of dimension 0) never ends while a token is left
  (`EndlessRepeat`, and the run `NothingRepeatedForever`).
- Two MAVERIC ids that differ as given and agree once converted are accepted, and the
  names of the first are then shown as the second (`NamesComeBack`, `SharedIdIsAccepted`).
- `FramerChain.max_payload` is too large when AX.25 is not the outermost framer
  (`Ax25GolayPromisesTooMuch`).
- A source typed in routed form is dropped without an error when the command neither
  declares nor allows one; the ground station is sent instead (`RoutingReachesTheWire`).
- In routed form, a destination or source named like a command is taken for that command,
  and a command named like a packet type cannot be reached without typing a source
  (`RoutedKeepsRemainder`, and the runs `NodeNamedLikeCommand` and `CommandNamedLikePtype`).
- `encode_args` sends the text `None` for a text argument that is missing; only validation
  reports it (`MissingIsSpelt`).
- `read_bytes` takes a negative length, as a dynamic size may be, and moves back
  (`ReadBytes`).
- NUL-terminated strings are encoded without their terminator and never round-trip, and
  neither does an aggregate packed into one integer (`RoundTripExactlyWhenItFits`).
- `clear_group` and an immediate `apply` leave a cache that is not dirty and differs from its
  file when the write fails (`ClearGroup`, `Apply`).
- Bit field registers are always read least significant byte first; the byte order declared
  on the bit field type is not used (`DeclaredOrderIsIgnored`, and `BigEndianRegister`).

## Model

| member | source | states |
|---|---|---|
| Ax25Receiver.RoundTrip | mav_gss_lib/platform/framing/ax25.py:190-240 | For every packet, and whatever level and register a receiver starts from, unpacking, NRZI decoding, descrambling, flag search, destuffing and the FCS check give back exactly that packet and nothing else; the bits that do not arrive are the last 17 to 24 of the stream |
| Ax25Receiver.LinkDelivers | mav_gss_lib/platform/framing/ax25.py:220-240 | On any bit stream, received bit n + 17 is sent bit n for every n that the packer and the register let through, but for the first, which also depends on the level the receiver assumed |
| Ax25Receiver.SelfSynchronising | mav_gss_lib/platform/framing/ax25.py:135-139 | Two descramblers started in any two register states agree from the 17th received bit on |
| Ax25Receiver.ScramblerLaw | mav_gss_lib/platform/framing/ax25.py:228-230 | The bits pushed into the register satisfy y[n] = b[n] xor y[n-12] xor y[n-17] |
| Ax25Receiver.ScramblerDelay | mav_gss_lib/platform/framing/ax25.py:228-230 | What is sent is that sequence 17 bits late: the old register first |
| Ax25Receiver.DescramblerLaw | mav_gss_lib/platform/framing/ax25.py:228-230 | The receiver's pass computes b[n] from the received y by the inverse of the same recurrence |
| Ax25Line.FusedLoop | mav_gss_lib/platform/framing/ax25.py:220-240 | The one-pass loop over integer registers (mask, shift, bit count, accumulator) equals scrambling, then NRZI, then packing, as three separate passes over bits |
| Ax25Line.ScramblerStep | mav_gss_lib/platform/framing/ax25.py:228-230 | One turn on the integer register is one push of the feedback bit into the 17-bit register |
| Ax25Line.BuildAx25GfskFrame | mav_gss_lib/platform/framing/ax25.py:208-240 | The frame builder gives the three passes over the HDLC bits of the packet |
| Ax25Hdlc.StuffingIsTransparent | mav_gss_lib/platform/framing/ax25.py:174-187 | Destuffing a line gives `bits` if and only if the line is the stuffing of `bits`, from any run of ones |
| Ax25Hdlc.StuffedHasNoSixOnes | mav_gss_lib/platform/framing/ax25.py:174-187 | Stuffed data never holds six consecutive ones |
| Ax25Hdlc.StuffedLength | mav_gss_lib/platform/framing/ax25.py:174-187 | Stuffing adds at most one bit in five |
| Ax25Hdlc.BitStuff | mav_gss_lib/platform/framing/ax25.py:174-187 | The loop computes the stuffing |
| Ax25Hdlc.FlagsOnlyWhereInserted | mav_gss_lib/platform/framing/ax25.py:190-203 | In preamble, stuffed frame and postamble the flag pattern stands at a position if and only if a flag was inserted there, boundaries included |
| Ax25Hdlc.HdlcFrame | mav_gss_lib/platform/framing/ax25.py:190-203 | The frame bits are 20 flags, the stuffed payload with its FCS, 20 flags |
| Ax25Hdlc.BytesToBitsLsb | mav_gss_lib/platform/framing/ax25.py:165-171 | Bytes become bits least significant first |
| Ax25Crc.CrcCcitt | mav_gss_lib/platform/framing/ax25.py:144-157 | The byte-wise register loop equals the bit-serial CRC over the bits of the data |
| Ax25Crc.WordEqualsItsBits | mav_gss_lib/platform/framing/ax25.py:148-156 | Feeding the bits of a word one by one is XORing it into the register and turning the register as often |
| Ax25Crc.AcceptsExactlyTheFcs | mav_gss_lib/platform/framing/ax25.py:190-196 | After a payload, the good-FCS residue is reached with exactly one 16-bit trailer: the FCS |
| Ax25Crc.GoodFrameLeavesResidue | mav_gss_lib/platform/framing/ax25.py:190-196 | A payload with its FCS, low byte first, always leaves 0xF0B8 (RFC 1662, appendix C.2) |
| Ax25Crc.RunIsLinear | mav_gss_lib/platform/framing/ax25.py:148-156 | The register after the XOR of two streams is the XOR of the registers |
| Ax25Crc.UndetectedErrors | mav_gss_lib/platform/framing/ax25.py:190-196 | A corrupted good frame is accepted if and only if the error pattern alone leaves the zero register zero |
| Ax25Crc.BurstsAreDetected | mav_gss_lib/platform/framing/ax25.py:190-196 | In frames of any length every nonzero change within 16 consecutive bits is rejected |
| Ax25Addresses.HeaderRoundTrip | mav_gss_lib/platform/framing/ax25.py:70-118 | The UI header of every wrapped payload decodes to both addresses, control and PID, and the payload follows it |
| Ax25Addresses.AddressComesBack | mav_gss_lib/platform/framing/ax25.py:43-64 | An encoded address decodes to the callsign cut and stripped, four SSID bits and the last flag |
| Ax25Addresses.SsidBits | mav_gss_lib/platform/framing/ax25.py:55-62 | The SSID byte bit by bit: number, both reserved bits and the extension bit; of a raw byte its own bits |
| Ax25Addresses.CallsignComesBack | mav_gss_lib/platform/framing/ax25.py:43-64 | A callsign survives if and only if it has at most six characters and does not end in a blank |
| BitCursors.BitCursor.ReadBits | mav_gss_lib/platform/spec/cursor.py:42-61 | The value is that of the next n bits of the little-endian stream, the position moves by n, and an underrun is reported exactly when there are fewer |
| BitCursors.BitCursor.ReadBytes | mav_gss_lib/platform/spec/cursor.py:28-40 | Misalignment and underrun are reported exactly when they hold; otherwise the next n bytes. A negative n is taken: the position moves back, and what is returned is the slice Python makes of it |
| BitCursors.BitCursor.RemainingBits | mav_gss_lib/platform/spec/cursor.py:68-71 | The bits from the position to the end of the buffer, also inside a byte |
| BitCursors.ReadIsShiftAndMask | mav_gss_lib/platform/spec/cursor.py:42-61 | Those n bits are the buffer's little-endian value shifted right by the position and masked to n bits |
| BitCursors.ReadsCompose | mav_gss_lib/platform/spec/cursor.py:42-61 | Reading a bits and then b bits is one read of a + b bits, taken apart |
| Bitfields.Decode | mav_gss_lib/platform/spec/runtime.py:363-389 | The loop reads the register once and gives every slice, or stops at the first it cannot cut |
| Bitfields.RawIsSlice | mav_gss_lib/platform/spec/runtime.py:370-378 | Shift and mask give exactly the bits lo to hi of the register |
| Bitfields.FieldIsKept | mav_gss_lib/platform/spec/runtime.py:363-389 | A field keeps its slice's value unless a later slice writes the same name |
| Bitfields.PartitionReassembles | mav_gss_lib/platform/spec/runtime.py:370-378 | Slices that cover a register without overlap, listed in any order, add up to it again |
| Bitfields.DecodedMapTellsRegister | mav_gss_lib/platform/spec/runtime.py:363-389 | So does the decoded map: from the flags, numbers, signed numbers and labels of such slices, with distinct names, the register can be computed |
| Bitfields.DeclaredOrderIsIgnored | mav_gss_lib/platform/spec/bitfield.py:27-32 | For such slices decoding gives what the declared byte order means if and only if that is little-endian or the bytes are a palindrome |
| Bitfields.BigEndianRegister | mav_gss_lib/platform/spec/runtime.py:363-389 | Two bytes a, b declared big-endian decode to 256 * b + a |
| Bitfields.FieldTells | mav_gss_lib/platform/spec/runtime.py:370-383 | The value of a slice by its bits: flag, number, signed number or raw value |
| Bitfields.LabelTells | mav_gss_lib/platform/spec/runtime.py:383-386 | The label of an enumerated value is the first one declared for it, and unknown when that is empty |
| Bitfields.LabelIsKept | mav_gss_lib/platform/spec/runtime.py:380-386 | It is written under the slice's name and `_name`, and stays unless a later slice writes that key |
| Bitfields.SignedIsUnique | mav_gss_lib/platform/spec/runtime.py:376-382 | A signed slice is the one number in [-2^(w-1), 2^(w-1)) congruent to its bits |
| TypeCodecs.DecodeBinary | mav_gss_lib/platform/spec/runtime.py:127-189 | The recursive reads through the cursor give what the value semantics says, and leave the cursor behind exactly those bytes; inside a byte, the first type that asks for bytes raises and nothing moves |
| TypeCodecs.RoundTripExactlyWhenItFits | mav_gss_lib/platform/spec/runtime.py:127-218 | For every type and every value that encodes: decoding the encoding, followed by any bytes, gives the value back and consumes exactly the encoding if and only if the value fits (no NUL inside fixed text, no overlong text or data, arrays of the declared length, no packed aggregate, nothing NUL-terminated) |
| TypeCodecs.FittingSurvives | mav_gss_lib/platform/spec/runtime.py:127-218 | The direction used downstream, by induction over nested arrays and aggregates |
| TypeCodecs.IntegersDecode | mav_gss_lib/platform/spec/runtime.py:127-189 | An integer, an enumerated value or a packed aggregate decodes to the one number whose encoding the bytes are, and takes just those |
| TypeCodecs.FailuresPass | mav_gss_lib/platform/spec/runtime.py:127-189 | An aggregate or array fails as its first failing part does |
| TypeCodecs.DecodingTakes | mav_gss_lib/platform/spec/runtime.py:127-218 | Whatever bytes decode, decoding takes at least as many as encoding the value gives, and as many only if it fits |
| TypeCodecs.IntegersRoundTrip | mav_gss_lib/platform/spec/runtime.py:127-218 | Both byte orders and both signs, at any width |
| TokenCursors.TokenCursor.ReadToken | mav_gss_lib/platform/spec/cursor.py:87-99 | While index and offset are in step, the offset found by searching lands on the end of the token if and only if the token is ASCII |
| TokenCursors.TokenCursor.ReadRemainingBytes | mav_gss_lib/platform/spec/cursor.py:101-111 | The rest of the buffer from the offset, any bytes, without leading space, tab, line feed or carriage return |
| TokenCursors.MarkerCursor.ReadRemainingBytes | mav_gss_lib/platform/spec/cursor.py:156-198 | On ASCII tokens: exactly the trimmed bytes before the next marker, which is then the next token |
| TokenCursors.TrimLeftTells | mav_gss_lib/platform/spec/cursor.py:101-111 | Trimming takes all spaces, tabs, line feeds and carriage returns off the front, and no other whitespace |
| TokenCursors.TrimRightTells | mav_gss_lib/platform/spec/cursor.py:156-198 | And off the end |
| TokenCursors.MarkerCursor.ReadToken | mav_gss_lib/platform/spec/cursor.py:144-149 | No token is given at a marker or at the end, and then nothing moves |
| TokenCursors.MarkerCursor.RemainingTokens | mav_gss_lib/platform/spec/cursor.py:151-154 | None remain exactly when the text is used up or a marker is next |
| Texts.FindWord | mav_gss_lib/platform/spec/cursor.py:92-98 | Searching for a token from anywhere in the gap before it finds the token itself if and only if it is ASCII |
| PagedWalks.FrameIsItsBlocks | mav_gss_lib/platform/spec/runtime.py:632-684 | The walk of a frame is the concatenation of the walks of its marker-delimited blocks, each decoded alone, up to the first that raises or hangs; short and unknown blocks do not disturb the others |
| PagedWalks.EveryTextIsItsBlocks | mav_gss_lib/platform/spec/runtime.py:632-684 | Every text is such a frame: a part without markers, then blocks with one marker each; so its walk is that of the blocks alone |
| PagedBlocks.BlockDecodes | mav_gss_lib/platform/spec/runtime.py:506-630 | What a block decodes to: when its container's entries take their pieces off the tokens behind the marker (a reference one item, a repeat as many as its count says or there are, a dynamic count being the number read for its reference), the updates are, entry by entry, the name of each emitted one with the tokens of each of its items, in order, and nothing else |
| PagedBlocks.SizedDecodes | mav_gss_lib/platform/spec/runtime.py:569-573 | A sized entry behind those gives the rest of the block without its leading padding, with the size read for its reference; without such a number the walk raises |
| PagedBlocks.BytesDecode | mav_gss_lib/platform/spec/runtime.py:68-84 | A type that takes the remaining bytes gives them the same way, if they are acceptable, and raises otherwise |
| PagedBlocks.ShortBlock | mav_gss_lib/platform/spec/runtime.py:680-684 | With too few tokens for a reference the block gives what stands before it, and the walk raises or goes on as the container says |
| PagedBlocks.InvalidBlock | mav_gss_lib/platform/spec/runtime.py:60-95 | A token that is not acceptable makes the walk raise, behind what stands before it |
| PagedBlocks.UncountedBlock | mav_gss_lib/platform/spec/runtime.py:602-604 | So does a dynamic count that is no number or was not read |
| PagedBlocks.UnknownBlock | mav_gss_lib/platform/spec/runtime.py:656-672 | A marker without a container is skipped, reported, or makes the walk raise, and dispatched in each case |
| PagedWalks.EveryMarkerOnce | mav_gss_lib/platform/spec/runtime.py:632-684 | The markers dispatched are the frame's markers, each once and in order; a raise or a hang only cuts the list short |
| PagedWalks.EndlessRepeat | mav_gss_lib/platform/spec/runtime.py:591-630 | A repeat goes round forever, turn after turn without end, if and only if its count is open or negative, its type reads nothing, and a token is left |
| PagedWalks.TurnMovesOn | mav_gss_lib/platform/spec/runtime.py:607-630 | A completed turn of the repeat moves on if and only if its type reads something |
| PagedWalks.WellFormedWalksEnd | mav_gss_lib/platform/spec/runtime.py:632-684 | When every repeat that may be open-ended reads something, every walk ends |
| PagedWalks.NothingRepeatedForever | mav_gss_lib/platform/spec/runtime.py:607-630 | The frame `A:1 7` hangs when A:1 is an open-ended repeat of an aggregate without members |
| PagedWalks.EntriesOfExtended | mav_gss_lib/platform/spec/runtime.py:506-630 | A child container decodes the same from its own block as in front of further blocks |
| PagedWalkers.WalkPaged | mav_gss_lib/platform/spec/runtime.py:632-684 | The loop over a shared mutable cursor, with a bounded cursor for each child, computes that walk, hangs included |
| PagedWalkers.WalkContainer | mav_gss_lib/platform/spec/runtime.py:506-527 | The entries of a container, read through the cursor, up to the first exception |
| PagedWalkers.RepeatItems | mav_gss_lib/platform/spec/runtime.py:591-630 | Fixed, counted and open-ended repeats, which stop early when no token is left, and say so where the source would not stop |
| PagedWalkers.WalkEntryAt | mav_gss_lib/platform/spec/runtime.py:529-630 | One entry, with what it adds to the decoded values |
| SessionLogs.EveryRunHolds | mav_gss_lib/logging/_base.py:118-172 | Over every run of accepted records, writer turns, prepares, commits, rollbacks and closes, with I/O failing at any point that is recovered from: the canonical file and then the queue hold all accepted records, once each, in order, restamped by every rename that took effect |
| SessionLogs.PrepareKeeps | mav_gss_lib/logging/_base.py:275-344 | Whatever fails, preparing leaves the accepted records where they were, and the log stays functional if and only if there was nothing to stop, or reopening and restarting the writer work and a partial sidecar can be removed |
| SessionLogs.CommitKeeps | mav_gss_lib/logging/_base.py:346-419 | Whatever fails, committing a fresh rename loses nothing: the canonical file, old or new, is complete; and the log stays functional if and only if the commit works, or the log was closed, or its recovery can reopen, restart and clean up |
| SessionLogs.RestampTells | mav_gss_lib/logging/_base.py:311-324 | Restamping keeps every line at its index: a record keeps its body and gets the session id, any other line stays as it is |
| SessionLogs.PrepareTells | mav_gss_lib/logging/_base.py:275-344 | Exactly when preparing succeeds, and that the sidecar then holds every accepted line at its index, records with their own bodies and the new id, nothing else on the disk having changed |
| SessionLogs.CommitTells | mav_gss_lib/logging/_base.py:346-419 | Exactly when a commit succeeds and when the new file is canonical, and that the canonical file then holds every accepted line at its index, records with their own bodies and the new id |
| SessionLogs.EveryRunKeepsBodies | mav_gss_lib/logging/_base.py:118-437 | Over every such run, the canonical file and then the queue hold the lines accepted before the close, each once and in order, with their own bodies |
| SessionLogs.RollbackKeeps | mav_gss_lib/logging/_base.py:421-437 | A rollback never deletes the canonical file, not even after a commit that fell back to the new one |
| SessionLogs.CloseKeeps | mav_gss_lib/logging/_base.py:446-472 | Closing drains the queue and removes only a file without records |
| SessionLogs.WithoutWriterTheQueueIsLost | mav_gss_lib/logging/_base.py:325-344 | After a recovery that failed itself there is no writer; the next prepare keeps the accepted records if and only if nothing is queued |
| SessionLogs.FailedReopenLosesRecord | mav_gss_lib/logging/_base.py:325-344 | A run from an opened log: a prepare that cannot reopen the file, a record, a prepare that works; the record is gone |
| SessionLogs.StaleCommit | mav_gss_lib/logging/_base.py:371-419 | Committing a rename whose old file is gone keeps the records if and only if its new file is canonical or a complete restamped copy |
| SessionLogs.StaleCommitLoses | mav_gss_lib/logging/_base.py:371-419 | A run from an opened log in which it is neither: two prepares, the first commit, a record, the second commit; the record is gone |
| SessionLogs.NewSessionWindow | mav_gss_lib/logging/_base.py:187-253 | Starting a new session keeps the old session's records exactly when none is accepted between the join and the new queue, whether the new path is another or, within the same second, the same |
| SessionLogs.SameSecondSession | mav_gss_lib/logging/_base.py:241-249 | With the same path, the next record is kept if and only if the old session had records or its file could not be removed |
| SessionLogs.SessionLog.WriteJsonl | mav_gss_lib/logging/_base.py:163-172 | Accepts into the queue unless closed |
| SessionLogs.SessionLog.TakeTurn | mav_gss_lib/logging/_base.py:118-161 | The writer moves one record from the queue to its file |
| SessionLogs.SessionLog.StopWriter | mav_gss_lib/logging/_base.py:296-309 | Sentinel and join: the writer's turns drain the queue |
| SessionLogs.SessionLog.RewriteFile | mav_gss_lib/logging/_base.py:311-324 | Line by line, restamping session ids, up to an exception |
| SessionLogs.SessionLog.PrepareRename | mav_gss_lib/logging/_base.py:275-344 | The state after every combination of failures, and the exception or the prepared rename |
| SessionLogs.SessionLog.CommitRename | mav_gss_lib/logging/_base.py:346-419 | The same for a commit, and on the disk after every single I/O call from the drained queue on, each line written included, one of the two files holds every accepted record |
| SessionLogs.SessionLog.RecoverRename | mav_gss_lib/logging/_base.py:403-419 | The recovery branch, with the same guarantee at each call |
| SessionLogs.SessionLog.RollbackRename | mav_gss_lib/logging/_base.py:421-437 | Deletes the sidecar unless it is the canonical file |
| SessionLogs.SessionLog.CloseLog | mav_gss_lib/logging/_base.py:446-472 | Idempotent; the file stays unless it is empty |
| Alarms.ClientHoldsTheRegistry | mav_gss_lib/platform/alarms/registry.py:109-239 | Over every run, a client that upserts and deletes by the changes holds exactly the registry's alarms, equal in all but context and last evaluation; pending and live ids stay disjoint and no latched alarm is UNACKED_CLEARED |
| Alarms.AuditLogTellsLiveAlarms | mav_gss_lib/platform/alarms/dispatch.py:54-89 | Replaying only the audited rows of any run gives exactly the live alarms, with their state and severity |
| Alarms.AuditReplays | mav_gss_lib/platform/alarms/dispatch.py:67-89 | The same for any change stream, not only the registry's |
| Alarms.FiresOnTheNth | mav_gss_lib/platform/alarms/registry.py:126-135 | An absent alarm with persistence n is live after exactly the n-th consecutive active verdict, whatever else happens in between; before that the verdicts are counted |
| Alarms.UnacknowledgedStays | mav_gss_lib/platform/alarms/registry.py:109-239 | Over every run, an alarm that no operator acknowledges does not go away: it stays in one of the two unacknowledged states |
| Alarms.LiveAlarmTells | mav_gss_lib/platform/alarms/registry.py:109-239 | Over every run, an alarm that is there has the severity of the latest active verdict about it and the last non-empty detail since it fired, was first seen when it last fired or fired again, and has the source, title and latching it fired with |
| Alarms.ObserveTells | mav_gss_lib/platform/alarms/registry.py:109-204 | What an observation does to its own alarm, field by field, the time of the last transition moving exactly with state or severity; every other alarm stays |
| Alarms.ObserveReports | mav_gss_lib/platform/alarms/registry.py:109-204 | An observation is reported exactly when the alarm appears, goes, or changes state, severity or detail, with the alarm as it is and its state and severity before |
| Alarms.AcknowledgeTells | mav_gss_lib/platform/alarms/registry.py:208-229 | An acknowledgement changes only state and time of transition, and is reported, with the operator, exactly when it changes the state or removes the alarm |
| Alarms.AuditedExactly | mav_gss_lib/platform/alarms/dispatch.py:67-89 | Of any change stream exactly removals, operator actions and changes to an alarm that is new or has another state or severity are written |
| Alarms.ObserveFollowsDiagram | mav_gss_lib/platform/alarms/contract.py:3-18 | An observation takes its own alarm along the documented state diagram and leaves every other where it was |
| Alarms.AcknowledgeFollowsDiagram | mav_gss_lib/platform/alarms/contract.py:3-18 | So does an acknowledgement |
| Alarms.InactiveResets | mav_gss_lib/platform/alarms/registry.py:118-120 | An inactive verdict starts the count again |
| Alarms.LatchedStays | mav_gss_lib/platform/alarms/registry.py:184-229 | Over every run, a latched alarm stays, active and latched |
| Alarms.StaleIsLatest | mav_gss_lib/platform/alarms/registry.py:79-89 | Over every run, a carrier is stale if and only if the latest verdict about it is active; acknowledging and latching play no part |
| Alarms.VerdictTellsCarrier | mav_gss_lib/platform/alarms/registry.py:79-89 | An active container verdict makes its container stale, an inactive one fresh, and no other verdict does either |
| Alarms.RunsStayConsistent | mav_gss_lib/platform/alarms/registry.py:109-229 | Over every run, no id is pending while its alarm is there, and no latched alarm is in the cleared state |
| Alarms.ParameterStaleness | mav_gss_lib/platform/alarms/registry.py:72-77 | A parameter is stale if and only if it has carriers and the latest verdict about each is active |
| Alarms.AcknowledgedAll | mav_gss_lib/platform/alarms/registry.py:231-239 | Acknowledging every alarm, in any order, leaves exactly those that were active, all acknowledged |
| AlarmRegistries.AlarmRegistry.Observe | mav_gss_lib/platform/alarms/registry.py:109-124 | The object, its entries updated in place, takes the model's transition and returns its change |
| AlarmRegistries.AlarmRegistry.UpdateExisting | mav_gss_lib/platform/alarms/registry.py:149-182 | Which fields of an entry change, and when a change is sent |
| AlarmRegistries.AlarmRegistry.MaybeClear | mav_gss_lib/platform/alarms/registry.py:184-204 | What clears, what is removed, and what latching keeps |
| AlarmRegistries.AlarmRegistry.Acknowledge | mav_gss_lib/platform/alarms/registry.py:208-229 | Acknowledged, removed or ignored, by the state |
| AlarmRegistries.AlarmRegistry.AcknowledgeAll | mav_gss_lib/platform/alarms/registry.py:231-239 | The loop is one acknowledgement per present id, in whatever order the table lists them |
| AlarmRegistries.CarrierStaleIndex.SetParameterCarriers | mav_gss_lib/platform/alarms/registry.py:66-70 | The declared carriers are replaced; a parameter is then stale exactly when all carriers declared now are, whatever order verdicts and declaration came in |
| AlarmRegistries.CarrierStaleIndex.IsStale | mav_gss_lib/platform/alarms/registry.py:72-77 | Declared carriers, and all of them stale |
| AlarmRegistries.CarrierStaleIndex.UpdateFromVerdict | mav_gss_lib/platform/alarms/registry.py:79-89 | Only container verdicts that name a container count |
| AlarmRegistries.AlarmDispatch.Emit | mav_gss_lib/platform/alarms/dispatch.py:54-65 | What is audited and what is sent |
| AlarmRegistries.AlarmDispatch.ShouldWriteAudit | mav_gss_lib/platform/alarms/dispatch.py:67-89 | A row is written for an unknown alarm, a removal, an operator action, or a new state or severity, and the mark follows |
| PacketPipelines.PacketPipeline.Process | mav_gss_lib/platform/rx/packet_pipeline.py:56-117 | Counters and sequence number; a reported duplicate had the same key less than one second before; a real one is missed only when at least max + 1 - max(1, max div 5) distinct other keys came in between, and never reported once max did; with wall time not going back, the rate window is the newest at most 3600 counted arrivals of the past minute |
| PacketPipelines.DuplicateVerdict | mav_gss_lib/platform/rx/packet_pipeline.py:136-146 | The same, for any table that follows its history |
| PacketPipelines.BatchTells | mav_gss_lib/platform/rx/packet_pipeline.py:136-146 | The eviction batch is a fifth of the table, rounded down, and at least one |
| PacketPipelines.ArrivalKeeps | mav_gss_lib/platform/rx/packet_pipeline.py:136-146 | Touching and evicting keep the table the newest part of all keys by last arrival, at most max long |
| PacketPipelines.RecentTells | mav_gss_lib/platform/rx/packet_pipeline.py:136-146 | An entry carries its key's last arrival, and the entries behind it are exactly the keys that arrived since |
| PacketPipelines.TableIsOrdered | mav_gss_lib/platform/rx/packet_pipeline.py:136-146 | With nondecreasing times the table is ordered by time |
| PacketPipelines.PacketPipeline.CheckDuplicate | mav_gss_lib/platform/rx/packet_pipeline.py:136-146 | The lookup, the move to the end and the eviction loop do that |
| PacketPipelines.RateStep | mav_gss_lib/platform/rx/packet_pipeline.py:148-152 | Appending to a bounded deque and dropping old times keeps it the newest part of the past minute |
| PacketPipelines.PacketPipeline.UpdateRate | mav_gss_lib/platform/rx/packet_pipeline.py:148-152 | The pruning loop does that |
| PacketPipelines.PacketPipeline.ResetCounts | mav_gss_lib/platform/rx/packet_pipeline.py:47-54 | Everything starts again |
| ParameterCaches.HoldsTheWinner | mav_gss_lib/platform/parameter_cache.py:43-55 | For each name the table holds the last-arriving offer among those of greatest timestamp, what was loaded being the first |
| ParameterCaches.OneWinner | mav_gss_lib/platform/parameter_cache.py:43-55 | There is only one such offer |
| ParameterCaches.BatchingIsIrrelevant | mav_gss_lib/platform/parameter_cache.py:38-66 | Only the concatenation of the batches matters |
| ParameterCaches.OrderIsIrrelevant | mav_gss_lib/platform/parameter_cache.py:43-55 | With distinct timestamps per name, any two streams of the same updates, in any order and with any repetitions, leave the same table |
| ParameterCaches.PermutationIsIrrelevant | mav_gss_lib/platform/parameter_cache.py:43-55 | In particular every permutation does |
| ParameterCaches.TiesDependOnOrder | mav_gss_lib/platform/parameter_cache.py:50-53 | Without distinct timestamps it is false: two tied updates |
| ParameterCaches.ReturnedExactly | mav_gss_lib/platform/parameter_cache.py:43-66 | An update is returned exactly when it is display-only or no held entry of its name is newer |
| ParameterCaches.ReplayGivesTheSame | mav_gss_lib/platform/parameter_cache.py:38-66 | Replaying the returned changes that are not display-only gives the same table, by overwriting or by last-writer-wins |
| ParameterCaches.ClearingForgets | mav_gss_lib/platform/parameter_cache.py:73-81 | Clearing a group leaves what would be there had its updates never arrived |
| ParameterCaches.ClearedExactly | mav_gss_lib/platform/parameter_cache.py:73-81 | Exactly the names that start with the group and a dot go, and the others keep their entries |
| ParameterCaches.ParameterCache.Apply | mav_gss_lib/platform/parameter_cache.py:38-66 | Table, changes and callback; 'not dirty means the file holds the table' survives every batch that is deferred or written, and a failed immediate write exactly when the batch brings nothing: what prevails in it for each name is out of date or there already |
| ParameterCaches.UnchangedExactly | mav_gss_lib/platform/parameter_cache.py:43-55 | A batch leaves the table as it was if and only if the last update of greatest timestamp for each name is out of date or there already |
| ParameterCaches.ParameterCache.ClearGroup | mav_gss_lib/platform/parameter_cache.py:73-81 | The same invariant survives a successful write; after a failed one, from a clean cache, exactly when the group was empty |
| ParameterCaches.ParameterCache.Flush | mav_gss_lib/platform/parameter_cache.py:83-89 | The invariant survives a flush whether or not the write works |
| ParameterCaches.ParameterCache.Replay | mav_gss_lib/platform/parameter_cache.py:68-71 | Every name once, and together the table |
| AsmGolays.CcsdsScramblerSequence | mav_gss_lib/platform/framing/asm_golay.py:178-190 | The nine-cell register loop gives the sequence s[n+8] = s[n] xor s[n+3] xor s[n+5] xor s[n+7] from eight ones, packed most significant bit first |
| AsmGolays.PrefixIndependent | mav_gss_lib/platform/framing/asm_golay.py:178-193 | A byte does not depend on the length asked for |
| AsmGolays.GolayEncode | mav_gss_lib/platform/framing/asm_golay.py:209-224 | The accumulator loop gives three bytes: twelve parity bits above the data |
| AsmGolays.CodewordsAreEncodings | mav_gss_lib/platform/framing/asm_golay.py:203-224 | A word satisfies all twelve parity checks of the matrix if and only if it is the encoding of its low half |
| AsmGolays.MatrixIsQuadratic | mav_gss_lib/platform/framing/asm_golay.py:198-206 | The check matrix is that of the extended quadratic residue code modulo 11, beside the identity |
| AsmGolays.BuildAsmGolayFrame | mav_gss_lib/platform/framing/asm_golay.py:229-271 | The pipeline, through whole-number XOR, gives the frame, or the error for a missing encoder or an overlong packet |
| AsmGolays.FrameDelivers | mav_gss_lib/platform/framing/asm_golay.py:229-271 | For every payload up to 223 bytes the frame has 312 bytes, and reading the Golay length, descrambling that many bytes and dropping 32 gives the payload |
| FramerChains.MaxPayload | mav_gss_lib/platform/framing/protocol.py:70-80 | The loop gives the largest size that every cap admits, each less the overhead below it |
| FramerChains.Frame | mav_gss_lib/platform/framing/protocol.py:61-65 | The framers in order, up to the first that refuses |
| FramerChains.ChainTakesWhatFits | mav_gss_lib/platform/framing/protocol.py:61-80 | When framers honour their caps and all but the last add exactly their overhead, the chain takes exactly the payloads that fit |
| FramerChains.MaxPayloadIsExact | mav_gss_lib/platform/framing/protocol.py:70-80 | So `max_payload` is exactly the largest accepted input |
| FramerChains.CspGolayIsExact | mav_gss_lib/platform/framing/protocol.py:70-80 | CSP inside ASM+Golay meets that |
| FramerChains.Ax25GolayPromisesTooMuch | mav_gss_lib/platform/framing/protocol.py:70-80 | AX.25 inside ASM+Golay does not: a payload is taken if and only if the real AX.25 frame fits, and never one of the last 42 sizes promised |
| FramerChains.Ax25Length | mav_gss_lib/platform/framing/ax25.py:253-257 | An AX.25 frame is at least 42 bytes longer than its packet; `overhead` says 16 for the header |
| Csps.HeaderRoundTrip | mav_gss_lib/platform/framing/csp_v1.py:44-106 | The header of every wrapped payload parses to each field modulo its width, negative fields included, and the plausibility test is on those |
| Csps.FieldsAreJoined | mav_gss_lib/platform/framing/csp_v1.py:79-87 | The OR of shifted fields is the fields side by side: none overlaps another |
| Csps.CrcRoundTrip | mav_gss_lib/platform/framing/csp_v1.py:95-106 | A trailer that was appended verifies |
| Csps.VerifiesExactly | mav_gss_lib/platform/framing/crc.py:32-44 | A CSP packet verifies exactly when its last four bytes, most significant first, are the checksum of the others; below eight bytes there is no verdict |
| Csps.DamageFailsToVerify | mav_gss_lib/platform/framing/crc.py:32-44 | A packet damaged in front of its trailer verifies if and only if the damage keeps the checksum |
| Csps.ParsedFields | mav_gss_lib/platform/framing/csp_v1.py:44-60 | Any four bytes are the header of the fields parsed from them |
| Csps.KissFrameRoundTrip | mav_gss_lib/platform/framing/csp_v1.py:28-33 | A KISS frame unescapes to its data, and FEND stands only at its two ends |
| Csps.EscapeOrderMatters | mav_gss_lib/platform/framing/csp_v1.py:28-33 | Escaping in the other order would not be undone |
| MaverCodecs.BuildTable | mav_gss_lib/missions/maveric/codec.py:57-69 | A table is built if and only if every id converts to a byte and none equals, unconverted, an id already converted; its two directions are inverse if and only if the converted ids are distinct; otherwise the error is that of the first offending entry |
| MaverCodecs.FirstErrorTells | mav_gss_lib/missions/maveric/codec.py:57-69 | What each error says of the entry it names, a duplicate naming the last entry before it with the same converted id |
| MaverCodecs.MakeCodec | mav_gss_lib/missions/maveric/codec.py:52-92 | Accepted exactly when both tables are and the ground station has an id; well formed if and only if both tables' converted ids are distinct |
| MaverCodecs.SharedIdIsAccepted | mav_gss_lib/missions/maveric/codec.py:57-69 | The ids 1 and '1' are accepted together, and a command from the first name is shown as from the second |
| MaverCodecs.NamesComeBack | mav_gss_lib/missions/maveric/codec.py:94-116 | Over an accepted table every field is shown by its own name if and only if the converted ids are distinct |
| MaverCodecs.CompleteHeader | mav_gss_lib/missions/maveric/codec.py:118-127 | The source defaults to the ground station; the first missing field is the error |
| MaverCodecs.Wrap | mav_gss_lib/missions/maveric/codec.py:129-162 | The packet bytes, or the first of the eight refusals in the order they are checked |
| MaverCodecs.WrappedExactly | mav_gss_lib/missions/maveric/codec.py:129-162 | A command is wrapped if and only if its four routing fields are there, each a name of its table or a byte, its id is ASCII, and neither id nor arguments exceed 255 |
| MaverCodecs.RefusalNamesFirst | mav_gss_lib/missions/maveric/codec.py:129-162 | The error names what is wrong, everything checked before it being right |
| MaverCodecs.GivenExactly | mav_gss_lib/missions/maveric/codec.py:164-185 | A byte string is a packet if and only if it has a header, both lengths and the two checksum bytes fit, and these are the CRC-16 of what stands before them, low byte first |
| MaverCodecs.GivenTells | mav_gss_lib/missions/maveric/codec.py:164-202 | What any such packet says: arguments, lower-cased id, routing by the tables, and the CSP checksum exactly when four bytes follow |
| MaverCodecs.DamageIsRefused | mav_gss_lib/missions/maveric/codec.py:164-185 | A wrapped command damaged anywhere but in its lengths and checksum is still given if and only if the damage keeps the checksum |
| MaverCodecs.CodecReturns | mav_gss_lib/missions/maveric/codec.py:129-202 | Over any accepted tables: unwrapping a wrapped command, whatever follows, gives arguments of any content, the lower-cased id, the routing as the tables show its ids, and a four-byte tail as the CSP checksum |
| MaverCodecs.CodecRoundTrip | mav_gss_lib/missions/maveric/codec.py:129-202 | With distinct ids the routing comes back by its own names, unknown ids as numbers |
| MaverPackets.ParseRecovers | mav_gss_lib/missions/maveric/packets.py:73-114 | Over CSP with or without a trailer, parsing recovers all of that, the CSP fields modulo their widths, both checksums good; and the packet counts as an uplink echo exactly when its source is the ground station |
| MaverPackets.VerdictExactly | mav_gss_lib/missions/maveric/packets.py:73-114 | For every byte string: the body checksum is reported good exactly when a whole command stands behind the CSP header with a right checksum; otherwise there is no header and there are no arguments; and the packet is reported good exactly when, besides, a CSP trailer that is there is right |
| MaverPackets.HeaderIsStripped | mav_gss_lib/platform/rx/frame_detect.py:27-51 | For every address and payload the search for 03 F0 strips exactly the AX.25 header, and the frame is never taken for noise |
| CommandLines.ShortcutKeepsRemainder | mav_gss_lib/missions/maveric/declarative.py:178-218 | In shortcut form, whatever whitespace was typed, the fixed arguments are the tokens and the last is the remainder as typed |
| CommandLines.ShortcutParses | mav_gss_lib/missions/maveric/declarative.py:178-200 | Any line that starts with a command, whatever its whitespace: refused when the command is only received, and otherwise its further tokens are the arguments, unless the last takes a remainder of several |
| CommandLines.RoutedKeepsRemainder | mav_gss_lib/missions/maveric/declarative.py:220-279 | Behind three or four routing tokens the line is parsed as meant if and only if the first is not the name of a command and, without a source, the command is not named like a packet type |
| CommandLines.RoutedRefusals | mav_gss_lib/missions/maveric/declarative.py:220-263 | Any other line is refused for the first thing wrong with it: no token, fewer than four, unknown source, destination, echo, packet type or command, a command that is only received |
| CommandLines.RoutedParses | mav_gss_lib/missions/maveric/declarative.py:220-279 | And is parsed otherwise: its further tokens are the arguments, under the same condition, and of the routing exactly the fields go on that the command allows or declares otherwise |
| CommandLines.NodeNamedLikeCommand | mav_gss_lib/missions/maveric/declarative.py:178-200 | The line `log A cmd log hi`, with a node named log: the text `A cmd log hi` is sent, without routing |
| CommandLines.CommandNamedLikePtype | mav_gss_lib/missions/maveric/declarative.py:226-263 | The line `A A cmd ack hi`, with a packet type named ack: refused, with cmd as an unknown echo node |
| CommandLines.DecimalRouting | mav_gss_lib/missions/maveric/declarative.py:308-332 | A routing token of decimal digits, zeros in front or not, stands for the name of its value |
| CommandLines.NegativeRouting | mav_gss_lib/missions/maveric/declarative.py:308-332 | With one minus sign only zero does, with more nothing |
| CommandLines.NamedRouting | mav_gss_lib/missions/maveric/declarative.py:308-332 | Any other token stands for itself, if the table has that name |
| CommandLines.SplitMaxTyped | mav_gss_lib/missions/maveric/declarative.py:206-218 | Splitting with a limit leaves the remainder verbatim |
| CommandLines.ParseArgTokens | mav_gss_lib/missions/maveric/declarative.py:281-294 | The loop gives every argument its token, the to_end one unconverted |
| CommandLines.ArgsHold | mav_gss_lib/missions/maveric/declarative.py:281-294 | With distinct names, each argument holds its own token and no other name is there |
| CommandLines.ParseFullForm | mav_gss_lib/missions/maveric/declarative.py:220-279 | The step-by-step parse, with its errors in order, is the specification the theorems are about |
| CommandEncodings.Validate | mav_gss_lib/platform/spec/command_codec.py:125-146 | The issues are exactly one for each name that is no argument and those of each argument |
| CommandEncodings.IntegerIssues | mav_gss_lib/platform/spec/command_codec.py:224-290 | For an integer argument: no number exactly when it does not read as a whole one; out of range exactly when it is beyond the explicit range or, without one, when as many bytes of that sign cannot hold it; not listed exactly when it is not among the declared values |
| CommandEncodings.FloatIssues | mav_gss_lib/platform/spec/command_codec.py:224-290 | The same for a floating-point argument, which only an explicit range limits |
| CommandEncodings.TextIssues | mav_gss_lib/platform/spec/command_codec.py:138-208 | Missing, of an undeclared type, not ASCII, or not one token: each exactly when it is so, byte by byte |
| CommandEncodings.OwnIssues | mav_gss_lib/platform/spec/command_codec.py:138-290 | Every issue is about the argument itself, and only number types have numeric ones |
| CommandEncodings.ValidatedEncodes | mav_gss_lib/platform/spec/command_codec.py:125-290 | Validated arguments can be encoded if and only if none is of a known type that is neither a number nor text |
| CommandEncodings.EncodeArgs | mav_gss_lib/platform/spec/runtime.py:713-723 | The loop joins the spelt arguments, or refuses when one cannot be spelt or is not ASCII |
| CommandEncodings.MissingIsSpelt | mav_gss_lib/platform/spec/runtime.py:719-722 | An argument that is not there goes out as the text None when it is text, and refuses the command otherwise |
| CommandEncodings.MergeHeader | mav_gss_lib/platform/spec/command_codec.py:298-306 | Merged exactly when every override is allowed; the error names an offending field |
| CommandEncodings.Encode | mav_gss_lib/platform/spec/command_codec.py:292-309 | Merging, encoding, completing and wrapping, or a refusal |
| CommandEncodings.RoutingReachesTheWire | mav_gss_lib/missions/maveric/declarative.py:265-279 | Typed destination, echo and type reach the header or encoding fails; a typed source does if and only if the command declares or allows one, or it is the ground station |
| CommandEncodings.TextReadsBack | mav_gss_lib/platform/spec/cursor.py:87-111 | After n tokens and a text joined by spaces, n token reads give the tokens, and the remaining bytes are the text if and only if it does not start with a byte the cursor trims |
| CommandEncodings.ReadArgs | mav_gss_lib/platform/spec/cursor.py:87-111 | A cursor that reads n ASCII tokens and then the rest does that |
| CommandEncodings.ParsedArgsEncode | mav_gss_lib/platform/spec/runtime.py:713-723 | The arguments of a parsed line go out as the spelt tokens and the remainder, joined by single spaces |
| Uplinks.ArrivesTells | mav_gss_lib/missions/maveric/packets.py:73-114 | What arriving means: header, CSP fields, checksums, trailer, fixed arguments and remainder, one by one |
| Uplinks.GolayUplink | mav_gss_lib/platform/framing/asm_golay.py:229-271 | From a parsed line to the receiver, by CSP and ASM+Golay: the frame is 312 bytes and the packet arrives with its routing, id, checksums, fixed arguments and verbatim remainder |
| Uplinks.Ax25Uplink | mav_gss_lib/platform/framing/ax25.py:208-240 | The same by CSP and AX.25, from any receiver state |
| Uplinks.ShortcutLineEncodes | mav_gss_lib/missions/maveric/declarative.py:178-200 | A shortcut line gives a command those two theorems take, as soon as it encodes |
| Uplinks.RoutedLineEncodes | mav_gss_lib/missions/maveric/declarative.py:220-279 | And so does a routed line |

## Left out

- Real locks, threads and clocks: a method is atomic, the time of a call is a parameter, and
  only the log writer takes turns of its own. That changes reach `AlarmDispatch` in the order
  the registry made them is an assumption.
- The writer's join timing out, and a single write to an open log file failing: the session
  log takes both as not happening. Tags are given after sanitising, blank lines are not part
  of a file's records, and opening the file of a new session succeeds.
- libfec's Reed-Solomon code (any 32 parity bytes), crcmod's CRC-16 and CRC-32C (any functions
  to 16 and 32 bits), `str(int)`, `repr(float)` and their inverses (parameters of the
  command modules).
- Floating-point, time, charset and calibrator conversions: decoded values are integers,
  bytes, lists and dictionaries, or the tokens they were read from. Times in the packet
  pipeline are reals.
- `decode_ascii` and `encode_ascii` of telemetry types, `ContainerMatcher` (the paged walk
  holds for any dispatch function), nested paged entries, and the walk of binary containers.
- Type references: types come resolved, which the parser's rejection of cycles allows, with
  distinct member names.
- A bit cursor in front of its buffer, where a negative read can leave it: no operation on
  it is modelled.
- Header fields of a MAVERIC command other than names and whole numbers.
- The issue `validate` gives for an unknown command: `Validate` starts from a command's arguments.
- PagedWalkers.WalkPaged: equals the walk on values for buffers whose tokens are ASCII; on
  others only a valid cursor is stated, because the offset search can then
  land elsewhere.
- Command lines that are not ASCII, the renaming of deprecated argument names, dictionary
  input to `parse_input`, schemas, verifiers and the display facts of packets.
- Insertion order of dictionaries, where the source iterates over one: the loops take the
  keys in any order.
- JSON conversion of cached values, the parsing of the cache file (an entry is well formed or
  is not), and exceptions raised by the `on_apply` callback, which are logged and dropped.
- Mission configuration, YAML and pydantic, GNU Radio, ZMQ, FastAPI and the web runtime, the
  TX queue, orbit prediction, the PTT and IQ recorder helpers: I/O and foreign code, or
  tables.
