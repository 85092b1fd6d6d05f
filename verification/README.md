# POIS conditioning, verified

A Dafny model of the signal-conditioning core of the POIS server: the SCTE-35 section codec with its
in-place editors, the actions that condition a cue, the rules that pick an action, and two small stateful
parts (group sharing, channel naming).

Bytes are integers below 256. The model has a byte-level layout (`Layout`, `Descriptors`, `Frames`) as the
reference for what a section is; every bit-level loop of the program is a method proved against that layout,
and the laws are lemmas about the specifications those methods meet.

| module | program part |
|---|---|
| `Bytes`, `BitIO`, `FieldBits` | bits of bytes; the bit writer and bit reader |
| `Crc32`, `CrcWord` | the CRC register of Annex A of ISO/IEC 13818-1, as 32 booleans and as a `u32` |
| `Layout`, `Walkers` | header and command of a section; the three walks over them |
| `Descriptors`, `Frames` | the descriptor loop, the segmentation descriptor, a section as head, word, loop, stuffing and CRC |
| `FieldEdits`, `MessageEdits`, `EditLaws`, `EditAlgebra` | set duration, adjust duration, delivery flags |
| `UpidRewrite`, `UpidLaws`, `UpidInverse`, `Upids` | the UPID rewrite, which changes sizes, its undoing, and `encode_upid` |
| `Decoders`, `DecoderLaws`, `EditMeaning` | the tools decoder and the monitor's decoder; what they read after an edit |
| `Serializer` | commands, descriptors and whole sections written from their fields, as the standard lays them out |
| `Builder`, `BuilderLaws` | the section builders |
| `Hex`, `Text`, `Validation` | base64, hexadecimal and binary spellings; the validator |
| `Conditioning`, `ConditioningLaws` | actions and the outbound payload |
| `Glob`, `Rules` | wildcard patterns, rule matching, first match, reordering |
| `Sharing`, `SharingLaws` | group links, visibility and membership, request by request and over runs |
| `Naming`, `NamingLaws`, `Mid` | fresh channel names, channels from backups; nested UPIDs |

Things the proofs brought out:

- Conditioning panics in exactly five situations (`ConditioningLaws.FaultsExactly`). A `splice_insert` whose break
  duration is cut off by the end of the message makes the duration editors index past their buffer
  (`ConditioningLaws.CutOffBreakFaults` has a valid section that does). A UPID text with a character that straddles a
  pair of bytes makes `hex_decode` slice inside it, in an editor (`ConditioningLaws.StraddlingUpidFaults`) or in a
  builder; `Upids.EncodePanics` says which texts do. The reader does the same on some `0x` texts
  (`Text.PanicsExactly`). And params that are neither an object nor null cannot take a payload, so that even a noop
  panics on them (`ConditioningLaws.KeylessParamsFault`).
- The validator never compares `section_length` with the length (`Validation.LengthNotChecked`).
- A longer UPID can push a valid section past 4098 bytes, where `section_length` no longer holds it: exactly when the
  size foreseen by `UpidLaws.SizeAfter` exceeds 4098 (`ConditioningLaws.CueKept`, `UpidInverse.LongerUpidBreaksLength`).
  No other action makes a valid section invalid.
- `rewrite_upid_b64` drops a stray trailing byte of the descriptor loop, which the same-width editors keep, so that
  rewriting back does not restore such a section (`UpidInverse.RewriteUpidUndone`, `UpidInverse.LooseByteLost`).
- Extending a break past 2^33 ticks shortens it (`EditLaws.ExtensionWraps`).
- Deleting a group ends additions to it but not its admins' standing: a user created in it afterwards becomes its
  member (`Sharing.DeletedGroupGains`, `Sharing.NewcomersOnly`).
- Where a break duration reaches into the CRC, two adjustments need not be one (`EditAlgebra.CrcBreakDiffers`).
- A group admin who shares somebody else's resource to none of the groups they administer can no longer change it
  (`Sharing.WriteAfterShare`, `Sharing.LockedOut`).
- A `time_signal` build that gives a UPID but neither type carries no descriptor, so the UPID is lost
  (`ConditioningLaws.BuiltSignalCue`).
- `parse_uuid` counts colons towards its 32 characters and `hex_decode` then drops them, so thirty digits and two colons
  make a UUID of fifteen bytes (`Upids.UuidSize`, `Upids.ShortUuid`).
- A `segmentation_upid` of more than 255 - 15 - 5 - 2 = 233 bytes can break a built descriptor;
  `BuilderLaws.FramingExact` and `BuilderLaws.SegmentBodySize` give the exact bound.

## Model

| member | source | states |
|---|---|---|
| `BitIO.BitWriter.WriteBits` | src/scte35.rs:402-414 | appends exactly the low `nbits` bits, keeping `len == ceil(bitpos / 8)` and zeros behind the last bit |
| `BitIO.BitWriter.PatchBit` | src/scte35.rs:428-435 | changes one bit of the buffer and nothing else; a position beyond the buffer is ignored |
| `BitIO.BitWriter.PatchBits` | src/scte35.rs:437-456 | a field inside what was written is overwritten in place, every other written bit stays |
| `BitIO.BitReader.ReadBits` | src/tools_api.rs:1499-1512 | the number spelled by the next bits, or failure at the exact bit where the data ends |
| `BitIO.BitReader.SkipBits` | src/tools_api.rs:1514-1523 | the cursor moves by `nbits`; failure only when it passes the byte behind the data |
| `BitIO.WrittenFieldReadsBack` | src/scte35.rs:402-456 | in the stream a script leaves (`BitIO.RunScript`), a field no patch touches spells its value modulo 2^width |
| `BitIO.PatchReadsBack` | src/scte35.rs:428-456 | a patched range reads back as the patch value modulo 2^width unless a later patch touches it |
| `BitIO.PatchedElsewhere` | src/scte35.rs:428-456 | bits outside every patch keep their value |
| `BitIO.WriterReaderInverse` | src/tools_api.rs:1499-1512 | the reader at a field of the bytes a script leaves (`BitIO.RunScript`) sees the value written, modulo 2^width |
| `BitIO.RunScript` | src/scte35.rs:402-456 | a writer that runs any script of fields and then patches holds exactly the written stream with the patches spliced in |
| `BitIO.ReadScript` | src/tools_api.rs:1499-1512 | reading the same widths in turn succeeds exactly when the bytes hold them all, and returns each field from its place |
| `BitIO.WriteThenRead` | src/scte35.rs:402-456 | writing, patching and reading back in sequence returns every field no patch touches, modulo 2^width |
| `BitIO.PatchedBit` | src/scte35.rs:428-456 | however patches overlap, each bit is that of the last patch covering it, or else the one written |
| `Crc32.ComputeCrc32` | src/scte35.rs:479-492 | the byte loop computes the bit-serial register of the standard from all ones |
| `Crc32.Residue` | src/scte35.rs:479-492 | a message followed by four bytes leaves the register at zero exactly when they are its CRC |
| `Crc32.BitBurstDetected` | src/tools_api.rs:992-1031 | two sealed messages of one length that agree outside 32 consecutive bits are equal |
| `Crc32.ByteBurstDetected` | src/tools_api.rs:992-1031 | any change confined to four consecutive bytes of a sealed message, its CRC included, unseals it |
| `CrcWord.TurnIsShift` | src/scte35.rs:483-489 | one turn of the register is the code's: mask 0x80000000, shift, polynomial 0x04C11DB7 |
| `CrcWord.CrcIsU32` | src/scte35.rs:479-492 | the bit-serial register and the `u32` loop from 0xFFFFFFFF agree on every message |
| `CrcWord.CheckValue` | src/scte35.rs:479-492 | the nine digits 123456789 give the published check value 0x0376E6E7, stored most significant byte first |
| `Validation.ValidateScte35` | src/tools_api.rs:992-1031 | the verdict: the first complaint in the code's order, with both CRCs, or the panic of the reader |
| `Validation.AcceptsSealed` | src/tools_api.rs:992-1031 | accepted exactly when the text spells a sealed message of 14 bytes or more with table id 0xFC |
| `Validation.BurstRejected` | src/tools_api.rs:992-1031 | an accepted message changed within four consecutive bytes is rejected in every spelling |
| `Validation.ValidSectionsAccepted` | src/tools_api.rs:992-1031 | valid sections are exactly what is accepted and has a right section_length |
| `Validation.LengthNotChecked` | src/tools_api.rs:992-1031 | with a fresh CRC every value of section_length is accepted; it is right for one value only |
| `Text.Base64RoundTrip` | src/tools_api.rs:509-509 | decoding the base64 of any bytes returns them (section 4 of RFC 4648) |
| `Text.Base64Canonical` | src/tools_api.rs:509-509 | a text that decodes is the canonical text of what it decodes to |
| `Text.HexReads` | src/tools_api.rs:455-464 | a text, sliced as UTF-8, reads as given bytes exactly when its pairs of characters spell them |
| `Text.PanicsExactly` | src/tools_api.rs:455-506 | the reader panics exactly on `0x` texts in which a character straddles the end of a pair of bytes, behind pairs that are all numbers; of a text without separators as it stands |
| `Text.DigitsNeverPanic` | src/tools_api.rs:510-514 | the unprefixed hexadecimal reading never panics |
| `Hex.DecodePairs` | src/scte35.rs:265-272 | the loop over pairs of bytes: a slice off a character boundary panics, a pair that is no number gives up |
| `Hex.PairsPanic` | src/scte35.rs:265-272 | exactly which byte strings make it panic |
| `Text.BinaryReads` | src/tools_api.rs:488-500 | the bits of the bytes read are the digits of the text |
| `Text.ReadsItsSpellings` | src/tools_api.rs:476-529 | a message of two bytes or more starting with 0xFC is read from a text without separators exactly when the text is one of its binary, hexadecimal or base64 spellings; `Text.SeparatorsIgnored` carries this to every text |
| `Text.ReadIsSpelling` | src/tools_api.rs:476-529 | whatever is read, for any bytes, is spelled by the text; of a text without separators as it stands |
| `Text.OneByteIsNotBinary` | src/tools_api.rs:488-493 | the two-byte bound is needed: the eight digits of a lone 0xFC read as six bytes of base64 |
| `Text.SeparatorsIgnored` | src/tools_api.rs:477-480 | inserting a colon or any character with the property White_Space anywhere changes neither what is read nor whether the reader panics |
| `Text.PrefixedReads` | src/tools_api.rs:487-506 | every message, also an empty one or one without the table id, is read from its prefixed binary or hexadecimal text |
| `Text.AmbiguousReads` | src/tools_api.rs:509-528 | a text that spells bytes both as base64 and as hexadecimal is read as hexadecimal exactly when only that reading begins with 0xFC |
| `Text.HexSpells` | src/tools_api.rs:455-464 | the digits 0 to 9 and a to f, each in either case, spell their bytes |
| `Text.AlphabetOf64` | src/tools_api.rs:509-509 | the base64 symbols are those of section 4 of RFC 4648, in order |
| `Text.LowerLetters` | src/main.rs:1117-1117 | the 26 capitals become their small letters and no other character changes |
| `Walkers.ParseSpliceTime` | src/tools_api.rs:1387-1397 | the time, or its absence, and the cursor at its end; failure exactly when bytes are missing |
| `Walkers.ParseComponents` | src/tools_api.rs:674-694 | the component list for any count, and the cursor behind it |
| `Walkers.ParseCommandInfo` | src/tools_api.rs:627-741 | the decoded command and the cursor at its byte-aligned end, for every command type |
| `Walkers.ParseSpliceInsert` | src/tools_api.rs:635-716 | the splice_insert of section 9.7.3 of ANSI/SCTE 35, through every flag combination |
| `Walkers.LocateDescriptorLoop` | src/tools_api.rs:1068-1101 | the loop's place as the layout gives it; the misalignment exit is unreachable |
| `Walkers.LocateBreakDuration` | src/tools_api.rs:1336-1385 | the break duration's place as the layout gives it; the misalignment exit is unreachable |
| `Walkers.ParseSpliceInsertPts` | src/esam.rs:742-794 | ends at the same bit as the tools parser and returns the PTS of the command that one returns; fails on exactly the same bytes |
| `Walkers.ParseComponentPts` | src/esam.rs:759-772 | the first PTS among the components; an unreadable time is ignored, an unreadable tag is not |
| `Walkers.FirstPtsMeans` | src/esam.rs:759-772 | that PTS belongs to the first component that has one, and is absent exactly when none has |
| `Layout.BreakPrecedesLoop` | src/tools_api.rs:1336-1385 | where both walkers succeed the loop word is nine bytes behind the break duration |
| `Layout.CommandAdvances` | src/tools_api.rs:627-741 | a command never ends before it starts or behind the buffer |
| `Layout.CommandLocal` | src/tools_api.rs:627-741 | a command is decoded from the bytes it covers alone |
| `Layout.InsertLocal` | src/tools_api.rs:635-716 | changing the five bytes of the break duration changes nothing else that is decoded, nor where the command ends |
| `Serializer.CommandRoundTrip` | src/tools_api.rs:627-741 | every command of fields that fit, with all flags, any components and their times, break duration, unique_program_id, avail_num and avails_expected, is read back from its bytes wherever they stand |
| `Serializer.SegmentRoundTrip` | src/tools_api.rs:743-806 | every live segmentation descriptor is read back from its fields, for any components and restrictions and whatever follows segments_expected |
| `Serializer.OtherDescriptorsRoundTrip` | src/tools_api.rs:743-870 | avail and DTMF descriptors and cancelled segmentations are read back from their fields |
| `Serializer.SectionRoundTrip` | src/tools_api.rs:531-625 | a whole section written from any header fields, command, reserved bits and descriptors is read back field by field |
| `Descriptors.FlattenParse` | src/tools_api.rs:1127-1149 | the cursor walk loses nothing: descriptors and remainder spell the loop |
| `Descriptors.ParseFlatten` | src/tools_api.rs:1127-1149 | whole descriptors followed by an exhausted rest are read back in order |
| `Descriptors.SegmentDecodes` | src/tools_api.rs:1424-1467 | the fields found in a live segmentation body spell that body |
| `Descriptors.SegmentEncodes` | src/tools_api.rs:1424-1467 | a well-formed segment is read back from its bytes, for any component count |
| `Descriptors.WalkersAgree` | src/tools_api.rs:1399-1467 | the duration offset plus five is the UPID type's offset, which is where the segment has it; rewriting replaces UPID type, length and bytes and nothing else |
| `Frames.FrameDecodes` | src/tools_api.rs:1068-1101 | whatever is located is a frame and four bytes, and it is sealed exactly when it equals the frame's own section |
| `Frames.FrameEncodes` | src/tools_api.rs:1068-1101 | a frame followed by any four bytes is located where it stands |
| `Frames.WithLengthField` | src/tools_api.rs:1163-1166 | the rewritten section_length is right exactly for sections of at most 4098 bytes, the other bits of its byte kept |
| `MessageEdits.RefreshCrcInPlace` | src/tools_api.rs:1105-1109 | the last four bytes become the CRC of the rest, in place |
| `MessageEdits.EditLoopInPlace` | src/tools_api.rs:1189-1210 | the cursor loop edits every whole descriptor of the loop in place, up to the first that overruns |
| `MessageEdits.RewriteDurations` | src/tools_api.rs:1221-1330 | both duration editors: the edited buffer with a fresh CRC, nothing, or the panic on a cut-off break duration |
| `MessageEdits.RewriteDelivery` | src/tools_api.rs:1178-1215 | the marked buffer with a fresh CRC, or nothing when the loop overruns or holds no live segment |
| `FieldEdits.BreakFieldTicks` | src/tools_api.rs:1226-1233 | the written 33-bit field reads as the new ticks, auto_return kept |
| `FieldEdits.EditBodyFrame` | src/tools_api.rs:1221-1330 | no edit moves the duration or the flags of a descriptor, and its ticks read back as edited |
| `FieldEdits.TopFlags` | src/tools_api.rs:1195-1203 | the flags byte keeps its program and duration flags, clears delivery_not_restricted and carries the five requested bits |
| `FieldEdits.EditSegment` | src/tools_api.rs:1178-1330 | an edit changes one field of a walkable segment: the duration bytes or the flags byte |
| `EditLaws.EditHeadCommand` | src/tools_api.rs:1221-1240 | the command after a duration edit differs in the ticks of its break duration only |
| `EditLaws.EditorMapsFrame` | src/tools_api.rs:1178-1330 | on every located message an editor maps over the frame and reseals it, and leaves it alone exactly when it finds no field |
| `EditLaws.EditReadsBack` | src/tools_api.rs:1178-1330 | same size, same place of the loop, right CRC, section_length as right as before, and the frame of the result is the edited frame |
| `EditLaws.DurationsReadBack` | src/tools_api.rs:1221-1330 | the break duration and every segmentation duration read as the edit says; none appears or goes |
| `EditLaws.AdjustedValue` | src/tools_api.rs:1279-1317 | an adjusted field holds `max(0, cur + delta)` exactly when that fits it |
| `EditLaws.ExtensionWraps` | src/tools_api.rs:1279-1317 | an extension by less than the field shortens the duration exactly when it overflows |
| `EditLaws.AdjustReadsBack` | src/tools_api.rs:1274-1330 | every duration of the result reads `max(0, cur + delta)` exactly when that is below 2^33 for the break, 2^40 for a segment |
| `EditLaws.SetReadsBack` | src/tools_api.rs:1221-1267 | every duration of the result reads the ticks exactly when they are below 2^33 for the break, 2^40 for a segment |
| `EditAlgebra.EditTwiceAll` | src/tools_api.rs:1221-1330 | on every message, two duration edits are one edit, byte for byte, exactly when they compose on every duration it carries; of a break duration that reaches into the CRC only the bytes in front of the CRC count, and the second edit reads CRC bytes |
| `EditLaws.EditTwiceExactly` | src/tools_api.rs:1221-1330 | on located messages composing on the decoded durations is necessary and sufficient |
| `EditAlgebra.ComposesByTicks` | src/tools_api.rs:1226-1234 | in front of the CRC a lone break duration composes exactly by its ticks; anywhere, a set erases what went before |
| `EditAlgebra.CrcBreakDiffers` | src/tools_api.rs:1274-1292 | a message whose break duration reaches into its CRC, on which adjusting by 0 and then by 1 is not adjusting by 1 |
| `EditAlgebra.AdjustTwiceAll` | src/tools_api.rs:1274-1330 | two adjusts are one by the sum, byte for byte, if the first neither clamps nor overflows |
| `EditAlgebra.AdjustUndoneAll` | src/tools_api.rs:1274-1330 | adjusting by a delta and back restores a sealed message byte for byte |
| `EditAlgebra.SetErasesAll` | src/tools_api.rs:1221-1330 | on every message, setting after any duration edit is setting alone |
| `EditAlgebra.BreakStays` | src/tools_api.rs:1336-1385 | where the loop is not found, no duration edit moves the break duration or brings a loop into sight |
| `EditAlgebra.EditedAlike` | src/tools_api.rs:1221-1330 | whether there is a duration to edit depends on the message alone |
| `EditLaws.RestrictAndTicksCommute` | src/tools_api.rs:1178-1330 | marking restrictions and editing durations commute, byte for byte |
| `EditLaws.LastRestrictionsWin` | src/tools_api.rs:1178-1215 | only the latest restrictions remain |
| `EditMeaning.EditDecodes` | src/tools_api.rs:1178-1330 | the tools decoder reads the old message with exactly the edited durations or restrictions |
| `EditMeaning.MonitorKept` | src/esam.rs:522-724 | the monitor's decoder reads the same details before and after every same-width edit |
| `EditMeaning.UntouchedDecodes` | src/tools_api.rs:1178-1330 | where an editor declines, the decoded message has nothing the edit would change |
| `EditMeaning.RewriteDecodes` | src/tools_api.rs:1118-1172 | after a UPID rewrite the tools decoder reads the same command and descriptors, each live segment with the new UPID |
| `UpidRewrite.RewriteDescriptors` | src/tools_api.rs:1123-1153 | the loop with every live walkable segment rewritten in order, or nothing when a descriptor overruns or no longer fits its length byte |
| `UpidRewrite.RewriteUpidInMessage` | src/tools_api.rs:1118-1172 | the whole rewrite, with its early exits |
| `UpidRewrite.Reassemble` | src/tools_api.rs:1154-1169 | header, command, stuffing and reserved bits kept; loop length, section_length and CRC set for the new loop |
| `UpidLaws.RewriteOneMeaning` | src/tools_api.rs:1424-1467 | a live walkable segment changes in UPID type, length and bytes only, panics exactly when its UPID cannot be encoded and stops the walk exactly when it outgrows its length byte; everything else is copied |
| `UpidLaws.RewriteAllAt` | src/tools_api.rs:1123-1153 | the k-th descriptor of the result is the rewritten k-th descriptor |
| `UpidLaws.RewriteUpidCases` | src/tools_api.rs:1118-1172 | when a rewrite panics and when it goes through, as conditions on the incoming message and the new UPID |
| `UpidLaws.RewriteUpidMeaning` | src/tools_api.rs:1118-1172 | the result's frame, its descriptors and command, its CRC and loop length; its size is the incoming size plus what the UPIDs gain less a stray byte, and section_length is right exactly when that is at most 4098 |
| `UpidLaws.RewriteUpidTwice` | src/tools_api.rs:1118-1172 | rewriting twice with one type and value is rewriting once, byte for byte |
| `UpidInverse.RewriteUpidUndone` | src/tools_api.rs:1118-1172 | rewriting a UPID back restores the message byte for byte exactly when it was sealed, its length field was the one the editor writes, whole descriptors tiled its loop and every live segment carried that UPID |
| `UpidInverse.LongerUpidBreaksLength` | src/tools_api.rs:1163-1166 | a valid section of 4098 bytes on which every longer UPID of up to 200 bytes goes through and breaks the length field |
| `UpidInverse.LooseByteLost` | src/tools_api.rs:1127-1161 | a valid section with one loose byte in its loop that no rewrite back restores |
| `Upids.HexDecodeMeans` | src/scte35.rs:259-274 | `hex_decode` returns exactly the bytes whose digits the text spells once dashes, spaces and colons are gone, and panics exactly when a character straddles a pair behind pairs that are numbers |
| `Upids.EncodePanics` | src/scte35.rs:234-283 | the texts on which `encode_upid` panics, for each UPID type |
| `Upids.EncodeAscii` | src/scte35.rs:234-283 | no ASCII text panics |
| `Upids.EncodeSize` | src/scte35.rs:234-283 | no text grows |
| `Upids.StraddlingPanics` | src/scte35.rs:259-274 | a four-byte text on which it panics |
| `Upids.PunctuationIgnored` | src/scte35.rs:259-282 | inserting a dash or a space anywhere changes neither `hex_decode` nor `parse_uuid`, and inserting a colon does not change `hex_decode` |
| `Upids.PlainReads` | src/scte35.rs:259-282 | a text without dash, space or colon is read as the bytes its digits spell, as a UUID exactly when there are sixteen, and panics exactly when a character straddles a pair behind numbers |
| `Upids.PlainEncodes` | src/scte35.rs:234-257 | of such a text types 0x08, 0x09 and 0x0B take the bytes its digits spell, else the text itself |
| `Upids.OtherTypesKeep` | src/scte35.rs:234-257 | for every other UPID type any text stands for itself |
| `Upids.UuidSize` | src/scte35.rs:276-282 | a decoded UUID has sixteen bytes exactly if its text has no colon, and never more |
| `Upids.ShortUuid` | src/scte35.rs:276-282 | thirty digits and two colons decode to a UUID of fifteen bytes |
| `Decoders.DecodeScte35` | src/tools_api.rs:531-625 | the tools decoder on arbitrary bytes: header fields with pts_adjustment, command, and descriptors up to the first unreadable one |
| `Decoders.ReadSectionHeader` | src/tools_api.rs:546-562 | protocol version, encryption flag, pts_adjustment and command type, or failure exactly when bytes are missing |
| `Decoders.ParseDescriptor` | src/tools_api.rs:743-870 | one descriptor of any tag, with the cursor where the code leaves it |
| `Decoders.DescriptorAdvances` | src/tools_api.rs:589-612 | each turn of the loop advances at least 16 bits and stays inside the buffer |
| `Decoders.DecodeScte35Details` | src/esam.rs:522-724 | the monitor's decoder on arbitrary bytes, with its own failures |
| `DecoderLaws.DecodeReads` | src/tools_api.rs:531-625 | on a loop tiled by complete descriptors the tools decoder returns the command and, in order, what each descriptor means by itself |
| `DecoderLaws.DecodersAgree` | src/esam.rs:522-724 | on such a message the monitor's details are a summary of the tools decoder's answer |
| `DecoderLaws.SummaryMeans` | src/esam.rs:662-709 | the monitor's type is that of the last live segment, its UPID that of the last live segment with a UPID |
| `Builder.BuildTimeSignal` | src/scte35.rs:60-104 | the exact bytes of a time_signal section with or without a descriptor, or the panic of `encode_upid` |
| `Builder.BuildSpliceInsertOut` | src/scte35.rs:106-159 | the exact bytes of an OUT section, or the panic of `encode_upid` |
| `Builder.BuildSpliceInsertIn` | src/scte35.rs:285-377 | the exact bytes of an IN section, immediate or at a PTS |
| `Builder.AddSegmentationDescriptor` | src/scte35.rs:162-231 | the loop word, tag, patched lengths and body, each length cut to its field |
| `Builder.AlignToByte` | src/scte35.rs:461-465 | pads with ones to the next byte boundary and no further |
| `Builder.Finalize` | src/scte35.rs:461-477 | the section with its length patched and its CRC appended |
| `BuilderLaws.FramingExact` | src/scte35.rs:519-529 | a section with a descriptor is strictly framed exactly when the descriptor body has at most 255 bytes |
| `BuilderLaws.SegmentBodySize` | src/scte35.rs:162-231 | the body's size from the UPID, the duration and the type the author asked for; a UPID of at most 233 bytes always fits |
| `BuilderLaws.EmptyLoopFramed` | src/scte35.rs:519-529 | a section without descriptors is always strictly framed |
| `BuilderLaws.SectionLengthCorrect` | src/scte35.rs:461-477 | every section is sealed, and its length field is right exactly up to 4098 bytes |
| `BuilderLaws.BuiltDecodes` | src/scte35.rs:64-231 | both decoders return the given command and duration and the type, UPID type and UPID the author gave, or 0x10, 0x0C and POIS-OUT where none was given, for every argument that fits |
| `BuilderLaws.BuiltAsAsked` | src/scte35.rs:162-231 | type, UPID type and UPID are the author's or the documented defaults; sub-segment bytes follow exactly for types 0x34, 0x36, 0x38 and 0x3A |
| `BuilderLaws.BuiltHeader` | src/scte35.rs:64-104 | every built header: table id 0xFC, version 0, unencrypted, no pts_adjustment, tier 0xFFF |
| `BuilderLaws.TimeSignalRoundTrip` | src/scte35.rs:64-104 | the same for time_signal, over the author's arguments |
| `BuilderLaws.TimeSignalImmediateRoundTrip` | src/scte35.rs:60-62 | the time_signal without arguments decodes to itself in both decoders |
| `BuilderLaws.SpliceInsertOutRoundTrip` | src/scte35.rs:106-159 | both durations read `duration_s * 90000`, the break duration exactly up to 95443 seconds |
| `BuilderLaws.SpliceInsertInRoundTrip` | src/scte35.rs:285-377 | both decoders read `pts mod 2^33`, or an immediate splice |
| `Conditioning.ParamValue.MaybeBuild` | src/main.rs:1185-1231 | the payload becomes the built section for a known command and stays otherwise, unless the UPID cannot be encoded |
| `Conditioning.ParamValue.ApplyAction` | src/main.rs:1111-1183 | the payload after any action on any JSON params and incoming cue, or a panic of the builder, of the reader, of an editor or of the assignment |
| `Conditioning.BuildText` | src/main.rs:1187-1224 | the text of the built section, nothing for an unknown command, or a panic of `encode_upid` |
| `ConditioningLaws.LiteralPayloadKept` | src/main.rs:1111-1231 | params that build nothing keep their literal payload: in a delete and a plain replace whatever comes in, in every action when nothing does |
| `ConditioningLaws.VerbHonest` | src/esam.rs:190-196 | a cue that leaves under noop leaves as it came, and every action that may change it leaves under replace |
| `ConditioningLaws.NullParams` | src/main.rs:1135-1156 | what the actions do with params that are null |
| `ConditioningLaws.UpidTextTwice` | src/tools_api.rs:1118-1172 | on every text, rewriting twice with one UPID gives the text of rewriting once |
| `ConditioningLaws.DeliveryTextTwice` | src/tools_api.rs:1178-1215 | on every text, only the latest restrictions remain |
| `ConditioningLaws.DurationsTextSet` | src/tools_api.rs:1221-1330 | on every text, setting the durations after any duration edit gives the text of setting alone |
| `ConditioningLaws.EditedTextReads` | src/tools_api.rs:1118-1330 | the text of an edit reads back as exactly the edited message |
| `ConditioningLaws.EditKeepsValid` | src/tools_api.rs:1178-1330 | same-width editors keep valid sections valid and of one size, even when the loop is not found |
| `ConditioningLaws.CueKept` | src/main.rs:1111-1183 | for a valid incoming section every action but delete and a plain replace, unless it panics, sends a payload that reads back as the edited message, sealed and of the size foreseen from the incoming message; it is valid exactly when that size is at most 4098, which holds for every action that rewrites no UPID |
| `ConditioningLaws.FaultsExactly` | src/main.rs:1111-1183 | when conditioning panics, for every action, all JSON params and every incoming text: a build whose UPID cannot be encoded, params that are neither an object nor null when there is an incoming text to put there, an edit of a text on which the reader panics, a duration action on a cut-off break duration, or a UPID action that reaches a live segment it cannot encode |
| `ConditioningLaws.StraddlingUpidFaults` | src/scte35.rs:259-274 | a valid section and a UPID text on which regionalize panics |
| `ConditioningLaws.KeylessParamsFault` | src/main.rs:1096-1121 | with params such as `[]` a noop panics on every cue and a delete does not |
| `ConditioningLaws.ConditionedDecodes` | src/main.rs:1111-1183 | what the tools decoder reads from the outbound payload, action by action, and that it panics only for a UPID that cannot be encoded and for params that are neither an object nor null |
| `ConditioningLaws.EmitsNothing` | src/esam.rs:190-222 | with an incoming cue nothing is sent exactly for a delete, whatever its params, and for a replace whose params hold neither a rewrite, nor a build of a known command, nor a payload |
| `ConditioningLaws.BuiltOutCue` | src/main.rs:1185-1231 | a replace that builds an OUT cue sends a valid, strictly framed section that decodes to the durations, type, UPID type and UPID the author gave, or to the defaults |
| `ConditioningLaws.BuiltSignalCue` | src/main.rs:1185-1231 | a replace that builds a time_signal sends one that decodes to the author's type, UPID type and UPID; without either type it carries no descriptor |
| `ConditioningLaws.CutOffBreakFaults` | src/tools_api.rs:1226-1234 | a valid section on which the duration editors panic |
| `Glob.GlobMatch` | src/rules.rs:73-102 | true exactly when some runs of text in place of the stars turn the pattern into the text |
| `Glob.Find` | src/rules.rs:95-95 | the leftmost occurrence, or none when there is none |
| `Glob.LeftmostSuffices` | src/rules.rs:93-98 | taking the leftmost occurrence of an interior part loses no match |
| `Glob.AnchoredFills` | src/rules.rs:77-78 | the parts between stars match in order exactly when the pattern does |
| `Rules.Eval` | src/rules.rs:26-66 | the first key both asked for and known decides, globs by their declarative meaning |
| `Rules.KeyMeans` | src/rules.rs:26-56 | commands and segmentation types are equal but for the case of the letters A to Z, signals and UPIDs match by the meaning of the pattern, and a condition that asks nothing fails |
| `Rules.FirstKeyDecides` | src/rules.rs:26-66 | a key without a fact is as if not asked, and behind the first key that has one nothing else counts |
| `Rules.WindowMeans` | src/rules.rs:58-65 | a window holds exactly the times from its start to its end in dictionary order; without a start nothing is too early, without an end nothing that begins before the tilde is too late |
| `Rules.AtMostMeans` | src/rules.rs:63-63 | the order of texts: a prefix first, else by the first character that differs |
| `Rules.TotalOrder` | src/rules.rs:63-63 | it is reflexive, antisymmetric, transitive and total |
| `Rules.MatchesRule` | src/rules.rs:8-24 | no clause catches everything; else some anyOf or every allOf condition holds |
| `Rules.FirstMatch` | src/main.rs:618-626 | the first rule of the list that matches, if any |
| `Rules.RuleTable.Reorder` | src/main.rs:1000-1017 | priorities 0, 10, 20, ... down the list, other columns untouched |
| `Rules.ReorderedAt` | src/main.rs:1000-1017 | only priorities change, and each says where its rule was last mentioned |
| `Rules.OrderDecides` | src/main.rs:979-1019 | after a reorder dispatch answers exactly when some rule matches, and never with a listed rule behind another listed match |
| `Sharing.Store.Effective` | src/rbac.rs:302-321 | the groups of the caller's rows, and those the caller administers |
| `Sharing.Store.LinkGroups` | src/rbac.rs:190-206 | adds the links whose group and resource exist, and nothing else |
| `Sharing.Store.SetGroupsScoped` | src/rbac.rs:261-290 | replaces the links inside the scope and leaves those outside untouched |
| `Sharing.Store.SetShare` | src/rbac.rs:692-730 | status and new state of a share request, which `SharingLaws.AnswersExactly`, `SharingLaws.LinkExactly` and `SharingLaws.ResourceExactly` say row by row |
| `Sharing.Store.Update` | src/main.rs:774-814 | status and new state of the sharing part of a channel update, by the same three laws row by row |
| `Sharing.Store.Create` | src/main.rs:730-772 | status and new state of the sharing part of a channel creation, which `SharingLaws.CreatedExactly` and `SharingLaws.CreatedLinks` say row by row |
| `Sharing.WriteImpliesRead` | src/rbac.rs:133-187 | whoever may write a resource may read it |
| `Sharing.LinkStep` | src/rbac.rs:261-290 | one request changes a link of an existing resource only if it names the resource, its caller may write it and is a super-admin or a current member of the group; the link then is as requested |
| `Sharing.RunAuthorised` | src/rbac.rs:692-730 | over every run: a link that has come or gone was changed by a request authorised when it was made |
| `Sharing.RunKeeps` | src/rbac.rs:190-206 | over every run foreign keys hold and no resource row goes |
| `Sharing.MembersRun` | src/rbac.rs:538-602 | over every run without super-admins a group nobody administers gains no member |
| `Sharing.EmptyGroupIsolated` | src/rbac.rs:692-730 | and what is shared with a group without members stays as it is |
| `Sharing.WriteAfterShare` | src/rbac.rs:692-730 | after a share its caller may still write exactly as a super-admin, as the owner, or as an admin of a group just named |
| `Sharing.AddMemberMeans` | src/rbac.rs:538-583 | a granted addition gives one user one role in one group and changes nobody else's standing |
| `Sharing.RemoveMemberMeans` | src/rbac.rs:586-602 | a granted removal takes one user out of one group and changes nobody else's standing |
| `Sharing.AddThenRemove` | src/rbac.rs:538-602 | removing a member just added restores everybody's standing |
| `Sharing.NewGroupEmpty` | src/rbac.rs:420-437 | a new group is linked to nothing and stays without members over every run without super-admins |
| `Sharing.DissolvedForGood` | src/rbac.rs:496-583 | over every run, super-admins included, a deleted group stays deleted and nobody who was a user at the start joins it |
| `Sharing.NewcomersOnly` | src/auth_handlers.rs:272-325 | whoever does join a deleted group is a new user, created in it by a super-admin or by somebody who still administers it |
| `Sharing.DeletedGroupGains` | src/auth_handlers.rs:284-310 | the case is real: the admin of a group still administers it once it is deleted, and the user they then create is its member |
| `Sharing.MembershipExactly` | src/auth_handlers.rs:272-525 | for every request and every user and group, membership afterwards is membership before unless removed, or a granted addition to a live group, or creation in the group |
| `Sharing.RunJoined` | src/rbac.rs:538-583 | over every run, whoever has come into a group was brought in by a request granted when it was made |
| `Sharing.CreateUserMeans` | src/auth_handlers.rs:272-325 | a new user is a member of the group they were created in and administers none; nobody else's standing changes |
| `Sharing.DeletedForGood` | src/main.rs:816-835 | over every run a deleted resource stays deleted and is read and written by super-admins only |
| `Sharing.LastShareWins` | src/rbac.rs:261-290 | a second share by the same caller is granted exactly if the first left the right to write, and then leaves the second choice alone |
| `Sharing.LockedOut` | src/rbac.rs:162-187 | whoever shares a resource without keeping that right is refused every further request about it |
| `SharingLaws.AccessMeans` | src/rbac.rs:133-187 | who reads and who writes, over memberships, links, owner and flags alone |
| `SharingLaws.ResourceExactly` | src/rbac.rs:711-724 | what any request leaves of a resource: the owner stays, only a deletion by somebody who may write ends it, and only a super-admin moves the org-wide flag, of a live resource, to the value asked for |
| `SharingLaws.CreatedExactly` | src/main.rs:730-772 | a resource appears exactly when somebody creates it as they may; it belongs to the caller, is live, and is org-wide only if a super-admin asked |
| `SharingLaws.CreatedLinks` | src/main.rs:741-771 | the links of a new resource are the groups named that exist, or the caller's own if none was named |
| `SharingLaws.LinkExactly` | src/rbac.rs:261-290 | for every request, resource and group: a granted share decides the link for the groups its caller can reach, and every other link stays |
| `SharingLaws.AnswersExactly` | src/rbac.rs:703-710 | which shares, updates and deletions are granted, as conditions on rows |
| `SharingLaws.GroupsExactly` | src/rbac.rs:420-510 | groups come and end by super-admins alone |
| `SharingLaws.UsersExactly` | src/auth_handlers.rs:272-525 | which users there are after any request |
| `SharingLaws.AdminsExactly` | src/rbac.rs:538-602 | who administers a group after any request |
| `SharingLaws.SharedReaders` | src/rbac.rs:133-160 | exactly who reads a resource after a granted share: owner, everybody if org-wide, members of the groups named, and members of linked groups its caller could not reach |
| `SharingLaws.CreatedReaders` | src/main.rs:730-772 | exactly who reads a new resource |
| `SharingLaws.RunOpens` | src/rbac.rs:133-160 | over every run: whoever has come to read a resource was let in by a request of the run, a super-admin's org-wide flag, a granted share to one of their groups, or their joining a linked group |
| `SharingLaws.VisibilityRun` | src/rbac.rs:711-724 | over every run no resource changes hands; over every run without super-admins no org-wide flag moves and nothing created is org-wide |
| `Naming.UniqueChannelName` | src/template_library.rs:102-121 | the first free candidate of 10000, else the fallback |
| `Naming.CandidatesDiffer` | src/template_library.rs:104-108 | no candidate is tried twice |
| `Naming.ChoiceIsFirstFree` | src/template_library.rs:102-121 | the choice is the earliest free candidate, and is free exactly when any candidate is |
| `Naming.NameIsFresh` | src/template_library.rs:102-121 | with at most 10000 names in use the chosen one is new |
| `Naming.Library.InstantiateChannelFull` | src/template_library.rs:808-850 | a new channel row and its rules in order, or a refusal that changes nothing |
| `Naming.Library.ApplyProject` | src/template_library.rs:319-353 | every template in order with its links, successes and errors counted |
| `Naming.InstantiateKeeps` | src/template_library.rs:808-850 | names stay unique, old channels and rules stay as they were |
| `Naming.ApplyKeeps` | src/template_library.rs:289-354 | the same for a whole project; the new links are exactly those of the new channels to the applier's groups that exist; up to 10001 channels in all only unparsable bodies fail |
| `NamingLaws.SearchChooses` | src/template_library.rs:102-121 | a free base name is kept, else the first free of base (copy), base (copy 2) up to base (copy 10000) is taken, and the search fails exactly when all are in use |
| `NamingLaws.InstantiateMeans` | src/template_library.rs:808-850 | the created channel has that name, the backup's enabled flag and time zone, the owner, and one row for each rule in order and no other; it is refused exactly when every name is in use |
| `NamingLaws.ApplyMeans` | src/template_library.rs:289-354 | the channels of a project are, in its order, those of its templates, each holding what its template says; a template that is missing does not parse or found every name in use in its turn |
| `Mid.DecodeUpidData` | src/esam.rs:344-363 | terminates on arbitrary bytes, a nested payload being two bytes shorter at least |
| `Mid.DecodeMid` | src/esam.rs:407-431 | the entries up to the first that does not fit |
| `Mid.UpidRoundTrip` | src/esam.rs:344-431 | every encodable tree of UPIDs is read back from its bytes, at any depth |
| `Mid.UpidSpells` | src/esam.rs:344-431 | what is read is encodable, never longer than its bytes, and spells them when none were left over |

## Left out

- Seconds become ticks before the model starts: the float conversions of `apply_action` and the JSON shapes of
  facts and rules are replaced by typed records, as are the keys of a params object. The editors and builders take
  `encode_upid` as any partial function from UPID type to bytes; `Upids.EncodeUpid` is the one of the code.
- MessageEdits.RewriteDurations: the sum `cur + delta` wraps as a release build's does; a debug build would stop
  on an overflow that needs a delta near 2^63.
- ConditioningLaws.FaultsExactly: speaks of a release build for the same reason.
- Error messages, display names of types and commands, printable forms of UPIDs, and JSON output; of a decoded message
  also the hex dump.
- XML: parsing of the request, escaping and the frame of the notification; only the choice of payload is modelled.
- Tables are maps and sequences and each request is one atomic step; names of groups, timestamps, database failures and
  concurrent requests are not modelled.
- Sharing.Store.Create: models the channel handlers, as Sharing.Store.Update and Sharing.Store.DeleteResource do. Projects
  and templates share the link functions and `set_share`, but their creation differs: `create_project` inserts the row
  before it refuses foreign groups (src/template_library.rs:153-181), and a template filed in a project inherits that
  project's groups whether or not the caller belongs to them (src/template_library.rs:42-55, 580-625).
- Sharing.Store.CreateUser: whether the name and role pass the constraints of the table is given with the request;
  passwords, and changes of a user's role, which reach requests only as what a token says, are not part of this model.
- Sharing.Store.DeleteUser: whether rows of other tables hold the user's foreign key is given with the request.
- Sharing.RunKeeps: rows that seeding removes when the server starts are not part of a run.
- Sharing.Store.Update: names, time zones and flags of a channel are not part of this model.
- Commands other than splice_null, splice_insert, time_signal and bandwidth_reservation are not walked by the code
  and count as empty here too; for splice_schedule and private_command the loop is therefore the code's reading, not the
  standard's.
- The SESAME layer, authentication, event statistics, backup files, pages and scripts.
