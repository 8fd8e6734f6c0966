# Verified model of four ScummVM helpers

This project models, in Dafny, four small cores of the ScummVM repository, and proves what their code promises.

- **SCI register values** (`engines/sci/engine/vm_types.h`, module `SciRegister` in `sci_reg.dfy`). A `reg_t` holds a 16-bit segment field and a 16-bit offset field. From SCI3 on, bits 16-17 of the offset are kept in the top two bits of the segment field. The pure accessors, classifiers and comparisons are functions on a `RegT` value. The members that update a register in place are methods of the class `Register`.
- **Last Express savegames** (`engines/lastexpress/game/savegame.cpp`):
  - `LastExpressCodec` (`lastexpress_codec.dfy`) is the run-length coder of `SavegameStream` as pure state machines over its three registers, with a token-level round trip.
  - `LastExpressStream` (`lastexpress_stream.dfy`) is the class `SavegameStream`. It has the growable memory stream, the 256-byte staging buffer and the mode fields, and it proves the same round trip through the stream itself.
  - `LastExpressSaveLoad` (`lastexpress_saveload.dfy`) holds the slot file names, the entry lookup, the game-ending test and the 16-byte entry padding.
- **AGS main game file** (`engines/ags/shared/game/main_game_file.cpp`):
  - `AgsMainGameFile` (`ags_game_file.dfy`): the error texts, the header checks of `OpenMainGameFileBase`, and `ReadSpriteFlags`/`ReadPlugins` on the class `LoadedGameEntities`.
  - `AgsAudioClips` (`ags_audio_clips.dfy`): `BuildAudioClipArray`, with a model of the `sscanf` call it relies on.
  - `AgsGameSetup` (`ags_game_setup.dfy`): the cursor, message and option upgrades of `UpdateGameData` on the class `GameSetup`.
- **Android string resources** (`devtools/generate-android-i18n-strings.py`, module `AndroidI18n` in `android_i18n.dfy`):
  - escaping a translation for an Android string resource;
  - the two language-code patterns, under Python's `re` semantics;
  - the `values-<qualifier>` suffix;
  - the filters that choose catalogue entries and catalogue files.

`wrappers.dfy` holds the shared `Option` and `Result` types.

Versions and limits that live in headers outside the modelled files are parameters:
- `getSciVersion()` becomes `sci3: bool`;
- the AGS `kGameVersion_*` values are a `Versions` record whose only assumption is their order;
- the AGS sprite and plugin limits are parameters;
- the Last Express event codes are a function parameter.

## Model

| member | source | states |
|---|---|---|
| SciRegister.GetOffset | engines/sci/engine/vm_types.h:50-57 | the logical offset agrees with the stored offset in its low 16 bits; before SCI3 it is below 0x10000; in SCI3 it is below 0x40000 and bits 16-17 are bits 14-15 of the segment field |
| SciRegister.GetSegment | engines/sci/engine/vm_types.h:46 | before SCI3 the segment field itself; in SCI3 its low 14 bits (inferred body) |
| SciRegister.WithOffset | engines/sci/engine/vm_types.h:60-68 | setOffset stores the offset mod 2^16; in SCI3 bits 16-17 go to bits 14-15 of the segment field and its low 14 bits are kept |
| SciRegister.WithSegment | engines/sci/engine/vm_types.h:47 | setSegment changes the logical segment and never the logical offset (inferred body) |
| SciRegister.InitValue | engines/sci/engine/vm_types.h:44 | after init the logical segment is the argument (its low 14 bits in SCI3); the logical offset is the argument cut to 18 bits in SCI3 and 16 bits before |
| SciRegister.MakeReg | engines/sci/engine/vm_types.h:196-200 | make_reg builds a register whose logical offset is the argument |
| SciRegister.MakeReg32 | engines/sci/engine/vm_types.h:202-206 | make_reg32 keeps 18 offset bits in SCI3 and 16 before |
| SciRegister.ToUint16 | engines/sci/engine/vm_types.h:78-80 | toUint16 is the stored 16-bit offset |
| SciRegister.ToSint16 | engines/sci/engine/vm_types.h:82-84 | toSint16 is the two's-complement reading of toUint16 |
| SciRegister.ClassicOffsetRoundTrip | engines/sci/engine/vm_types.h:50-68 | before SCI3 getOffset after setOffset(o) is o mod 2^16, and o itself when o < 0x10000 |
| SciRegister.Sci3OffsetRoundTrip | engines/sci/engine/vm_types.h:53-67 | in SCI3 getOffset after setOffset(o) is o mod 2^18, and o itself when o < 0x40000 |
| SciRegister.Sci3NineteenthBitLost | engines/sci/engine/vm_types.h:60-68 | kOffsetMask admits 19 bits, but setOffset(0x40000) reads back as 0 |
| SciRegister.WithOffsetKeepsSegment | engines/sci/engine/vm_types.h:60-68 | setOffset never changes the logical segment or the number/pointer/initialised classification |
| SciRegister.LogicalDeterminesStored | engines/sci/engine/vm_types.h:50-57 | two registers with the same logical offset and segment have the same stored fields |
| SciRegister.WithOwnOffsetIsIdentity | engines/sci/engine/vm_types.h:60-68 | setOffset(getOffset()) changes no stored bit |
| SciRegister.WithOffsetOverrides | engines/sci/engine/vm_types.h:60-68 | a second setOffset overrides the first completely |
| SciRegister.InitIgnoresPrevious | engines/sci/engine/vm_types.h:196-206 | what init leaves does not depend on the previous contents |
| SciRegister.IsNullExactlyZero | engines/sci/engine/vm_types.h:74-76 | isNull holds exactly for the all-zero register, in both layouts |
| SciRegister.IsNull | engines/sci/engine/vm_types.h:74-76 | a null register is a number whose stored offset is 0 |
| SciRegister.IsNumber | engines/sci/engine/vm_types.h:86-88 | a number register is make_reg32 of segment 0 and its own offset |
| SciRegister.IsPointer | engines/sci/engine/vm_types.h:90-92 | a pointer is neither a number nor null |
| SciRegister.IsInitialized | engines/sci/engine/vm_types.h:97-99 | a register is initialised exactly when it is a number or a pointer |
| SciRegister.Eq | engines/sci/engine/vm_types.h:102-104 | a register compares equal to itself and to any register with the same stored fields |
| SciRegister.Neq | engines/sci/engine/vm_types.h:106-108 | != holds exactly when == does not |
| SciRegister.Gt | engines/sci/engine/vm_types.h:110-112 | a > b only when the signed cmp of a and b is non-zero |
| SciRegister.Ge | engines/sci/engine/vm_types.h:114-116 | >= holds exactly when < does not |
| SciRegister.Lt | engines/sci/engine/vm_types.h:118-120 | a < b exactly when b > a under the mirrored comparison |
| SciRegister.Le | engines/sci/engine/vm_types.h:122-124 | <= holds exactly when > does not |
| SciRegister.GtU | engines/sci/engine/vm_types.h:128-130 | gtU only when the unsigned cmp of a and b is non-zero |
| SciRegister.GeU | engines/sci/engine/vm_types.h:132-134 | geU holds exactly when ltU does not |
| SciRegister.LtU | engines/sci/engine/vm_types.h:136-138 | ltU(a, b) exactly when gtU(b, a) under the mirrored comparison |
| SciRegister.LeU | engines/sci/engine/vm_types.h:140-142 | leU holds exactly when gtU does not |
| SciRegister.SignalIsNotNull | engines/sci/engine/vm_types.h:219 | a number register holding SIGNAL_OFFSET is not null |
| SciRegister.EqualityIsStoredEquality | engines/sci/engine/vm_types.h:102-108 | != is the negation of ==, and == holds exactly for equal stored fields |
| SciRegister.RelationalDuality | engines/sci/engine/vm_types.h:110-142 | <= is not >, >= is not <, the same for the unsigned forms, and >= with <= means cmp is 0 |
| SciRegister.IncOffsetValue | engines/sci/engine/vm_types.h:70-72 | incOffset keeps the segment and adds delta to the offset modulo 2^18 (SCI3) or 2^16 |
| SciRegister.IncOffsetInverse | engines/sci/engine/vm_types.h:70-72 | incOffset(-d) undoes incOffset(d) |
| SciRegister.Register.SetOffset | engines/sci/engine/vm_types.h:60-68 | the register's new value is WithOffset of the old one |
| SciRegister.Register.SetSegment | engines/sci/engine/vm_types.h:47 | the new value is WithSegment of the old one |
| SciRegister.Register.Init | engines/sci/engine/vm_types.h:44 | the new value is InitValue of the old one |
| SciRegister.Register.IncOffset | engines/sci/engine/vm_types.h:70-72 | the new value is IncOffsetValue of the old one |
| SciRegister.Register.CompoundAssign | engines/sci/engine/vm_types.h:156-157 | `*this = *this op right` for a register operand |
| SciRegister.Register.CompoundAssignInt16 | engines/sci/engine/vm_types.h:158-159 | the same with an int16 operand |
| LastExpressCodec.Encode | engines/lastexpress/game/savegame.cpp:198-271 | the writeCompressed loop over a whole input; the value count stays in {0,1,2} and is non-zero after any byte |
| LastExpressCodec.EncodeStep | engines/lastexpress/game/savegame.cpp:205-264 | one byte of writeCompressed: the byte becomes the pending value, one or two values are held, and at most one token is emitted |
| LastExpressCodec.Flush | engines/lastexpress/game/savegame.cpp:150-180 | process() in write mode emits at most one token, and none exactly when no value is pending |
| LastExpressCodec.EncodeSound | engines/lastexpress/game/savegame.cpp:205-268 | every emitted token decodes, and tokens plus pending bytes are exactly the input |
| LastExpressCodec.FlushSound | engines/lastexpress/game/savegame.cpp:150-180 | process() in write mode emits exactly the pending bytes as decodable tokens |
| LastExpressCodec.RunTokenSound | engines/lastexpress/game/savegame.cpp:228-256 | a finished run of 2..255 copies is emitted as a token standing for exactly those copies |
| LastExpressCodec.Decode | engines/lastexpress/game/savegame.cpp:273-343 | readCompressed producing n bytes; on success the output has length n and the value count stays in {0,1,2} |
| LastExpressCodec.DecodeStep | engines/lastexpress/game/savegame.cpp:285-336 | a held second value is returned without reading input; any other byte produced consumes input; the value count stays in {0,1,2} |
| LastExpressCodec.DecodeStepControl | engines/lastexpress/game/savegame.cpp:285-329 | a control byte is decoded exactly when its operands are present, with the output and registers of its case |
| LastExpressCodec.DecodeToken | engines/lastexpress/game/savegame.cpp:285-336 | the decoder reads one token's bytes and yields exactly its expansion |
| LastExpressCodec.DecodeTokens | engines/lastexpress/game/savegame.cpp:280-340 | decoding decodable tokens yields their expansion and leaves the rest unread |
| LastExpressCodec.RoundTrip | engines/lastexpress/game/savegame.cpp:132-343 | what writeCompressed plus process() emit for x reads back as x, with the rest untouched |
| LastExpressCodec.EncodeAsWritten | engines/lastexpress/game/savegame.cpp:198-271 | writeCompressed exactly as written, falling through from the 0xFD case |
| LastExpressCodec.FdFallThroughSkipsByte | engines/lastexpress/game/savegame.cpp:255-263 | on [0,0,1,2,3,4] with a count of 5 the as-written encoder keeps the 1 but skips the 2 after it, and writes the 4 from beyond the count |
| LastExpressCodec.FdFallThroughReadsPastEnd | engines/lastexpress/game/savegame.cpp:255-263 | on [0,0,1,2,3] with a count of 5 the as-written encoder reads past the end of the input |
| LastExpressCodec.CorrectedEncoderKeepsByte | engines/lastexpress/game/savegame.cpp:255-259 | the corrected encoder on the same input emits tokens that expand to it |
| LastExpressStream.Overwrite | engines/lastexpress/game/savegame.cpp:59-66 | a memory-stream write at p grows the stream to p plus the written length when it passes the end |
| LastExpressStream.OverwriteParts | engines/lastexpress/game/savegame.cpp:59-66 | a write keeps what lies before and after the written range |
| LastExpressStream.OverwriteTwice | engines/lastexpress/game/savegame.cpp:89-118 | two consecutive writes are one write of their concatenation |
| LastExpressStream.SavegameStream.ReadUncompressed | engines/lastexpress/game/savegame.cpp:77-87 | copies min(dataSize, bytes left), sets eos when clamped, moves the position by the count |
| LastExpressStream.SavegameStream.WriteBuffer | engines/lastexpress/game/savegame.cpp:89-118 | stages the value, or 0xFE and the value when escaped; a full buffer is flushed first; `_offset` grows by the bytes emitted |
| LastExpressStream.SavegameStream.ReadBuffer | engines/lastexpress/game/savegame.cpp:120-130 | returns the next byte of the stream, refilling 256 bytes when the buffer is unused or used up |
| LastExpressStream.SavegameStream.WriteCompressed | engines/lastexpress/game/savegame.cpp:198-271 | fails in read mode and changes nothing; otherwise stages the coder's tokens for the input and returns `_offset` |
| LastExpressStream.SavegameStream.Process | engines/lastexpress/game/savegame.cpp:132-196 | toggles compression, flushes pending tokens and the buffer in write mode, rewinds the unread buffer in read mode, resets the value count and `_offset`, and returns the old `_offset` plus what it flushed |
| LastExpressStream.SavegameStream.ReadCompressed | engines/lastexpress/game/savegame.cpp:273-343 | fails in write mode and changes nothing; otherwise sets the status to ready and decodes dataSize bytes |
| LastExpressStream.SavegameStream.Write | engines/lastexpress/game/savegame.cpp:59-66 | compresses while compression is on, otherwise writes straight to the memory stream |
| LastExpressStream.SavegameStream.Read | engines/lastexpress/game/savegame.cpp:68-75 | decompresses while compression is on, otherwise reads uncompressed |
| LastExpressStream.RoundTripThroughStream | engines/lastexpress/game/savegame.cpp:723-797 | bytes written between two process() calls and read back between two process() calls come back unchanged |
| LastExpressStream.WriteCompressedEntry | engines/lastexpress/game/savegame.cpp:723-736 | a fresh stream then holds exactly the compressed image of x |
| LastExpressStream.ReadCompressedEntry | engines/lastexpress/game/savegame.cpp:784-797 | reading that image from the start yields x |
| LastExpressSaveLoad.GetFilename | engines/lastexpress/game/savegame.cpp:923-928 | fails with InvalidGameId exactly for ids outside 0..5; otherwise the name is as long as target, "-", the slot's colour and ".egg" |
| LastExpressSaveLoad.FilenameParts | engines/lastexpress/game/savegame.cpp:927 | the file name splits back into target, colour and extension |
| LastExpressSaveLoad.FilenameInjective | engines/lastexpress/game/savegame.cpp:923-928 | different (target, slot) pairs get different file names |
| LastExpressSaveLoad.GetEntry | engines/lastexpress/game/savegame.cpp:815-820 | fails exactly for an index past the headers, with that index in the error; otherwise the header at index |
| LastExpressSaveLoad.GetEntryReachesEvery | engines/lastexpress/game/savegame.cpp:815-820 | every header in the list is returned for some index, and two indices give the same result exactly when their headers are equal |
| LastExpressSaveLoad.IsGameFinished | engines/lastexpress/game/savegame.cpp:875-915 | fails exactly when the menu index is out of range |
| LastExpressSaveLoad.IsGameFinishedMeaning | engines/lastexpress/game/savegame.cpp:875-915 | true exactly for the selected entry when it is an event entry whose value is one of the 31 ending events |
| LastExpressSaveLoad.EveryEndingEventFinishes | engines/lastexpress/game/savegame.cpp:884-914 | each listed ending event finishes the game |
| LastExpressSaveLoad.ReadSkip | engines/lastexpress/game/savegame.cpp:804-812 | readEntry skips fewer than 16 bytes, lands on a multiple of 16, and skips nothing exactly when already aligned |
| LastExpressSaveLoad.Uint32Sub | engines/lastexpress/game/savegame.cpp:804-812 | the uint32 difference wraps modulo 2^32 and is the plain difference when no wrap happens |
| LastExpressSaveLoad.WritePadding | engines/lastexpress/game/savegame.cpp:740-744 | writeEntry writes exactly ReadSkip(offset) zero bytes and ends 16-aligned |
| LastExpressSaveLoad.SkipPadding | engines/lastexpress/game/savegame.cpp:803-812 | readEntry moves forward by ReadSkip of the entry size, wrapped as uint32, and leaves the data unchanged |
| AgsMainGameFile.UnknownOnlyForOther | engines/ags/shared/game/main_game_file.cpp:56-98 | "Unknown error." is the text of exactly the codes the switch does not list |
| AgsMainGameFile.ErrorTextIdentifies | engines/ags/shared/game/main_game_file.cpp:56-98 | different listed codes have different texts |
| AgsMainGameFile.GetMainGameFileErrorText | engines/ags/shared/game/main_game_file.cpp:56-98 | every code has a non-empty text, and a code the switch does not list gets "Unknown error." |
| AgsMainGameFile.OpenMainGameFileBase | engines/ags/shared/game/main_game_file.cpp:163-190 | a bad signature, a version below 2.5.0 and one above the current version are each reported exactly when they occur, in that order; caps are read only from 3.4.1 on |
| AgsMainGameFile.ToSize | engines/ags/shared/game/main_game_file.cpp:370 | an int32 stored in size_t keeps a non-negative value, and a negative one becomes huge |
| AgsMainGameFile.SpriteCountFor | engines/ags/shared/game/main_game_file.cpp:687-696 | before 2.5.6 the legacy maximum; from 2.5.6 the stored count, with a negative int32 turned into a huge size_t |
| AgsMainGameFile.Fill | engines/ags/shared/game/main_game_file.cpp:697-698 | a buffer resized to n and read from the stream holds the available bytes, then zeros |
| AgsMainGameFile.ResizeRead | engines/ags/shared/game/main_game_file.cpp:697-698 | resize keeps the old elements that fit and pads with zeros, and the read overwrites the front; from an empty vector this is Fill |
| AgsMainGameFile.LoadedGameEntities.constructor | engines/ags/shared/game/main_game_file.cpp:100-103 | no sprites, no flags and no plugins |
| AgsMainGameFile.LoadedGameEntities.ReadSpriteFlags | engines/ags/shared/game/main_game_file.cpp:687-700 | TooManySprites exactly when the count is over the maximum, with nothing changed; otherwise the count is stored and the flags vector is resized (keeping its old elements that fit) and read over from the front |
| AgsMainGameFile.LoadedGameEntities.ReadPlugins | engines/ags/shared/game/main_game_file.cpp:362-384 | a format other than 1 fails and adds nothing; otherwise plugins are appended up to the first record over the size limit, which fails the read |
| AgsMainGameFile.LoadedGameEntities.ReadPlugin | engines/ags/shared/game/main_game_file.cpp:368-382 | a record is refused exactly when its size is over the limit; otherwise its plugin is appended |
| AgsMainGameFile.FirstTooLarge | engines/ags/shared/game/main_game_file.cpp:367-373 | the index of the first record over the limit, with all before it within the limit |
| AgsMainGameFile.AcceptedPlugins | engines/ags/shared/game/main_game_file.cpp:362-384 | at most one plugin per record, none holding more data than the limit |
| AgsMainGameFile.AcceptedStops | engines/ags/shared/game/main_game_file.cpp:372-373 | once a record is too large, nothing after it is read |
| AgsMainGameFile.AcceptedShape | engines/ags/shared/game/main_game_file.cpp:375-381 | every accepted plugin keeps its name and exactly its record's data size |
| AgsAudioClips.ScanString | engines/ags/shared/game/main_game_file.cpp:396 | a `%5s` conversion takes 1 to 5 characters and advances |
| AgsAudioClips.ScanInt | engines/ags/shared/game/main_game_file.cpp:396 | a `%d` conversion advances past at least one digit |
| AgsAudioClips.ScanStringNoSpace | engines/ags/shared/game/main_game_file.cpp:396 | a `%s` conversion never takes a space |
| AgsAudioClips.ScanAssetShape | engines/ags/shared/game/main_game_file.cpp:396-397 | sscanf returns 3 exactly when the name, number, dot and extension conversions all succeed in turn; the name has 1-5 and the extension 1-3 non-space characters |
| AgsAudioClips.ScanAsset | engines/ags/shared/game/main_game_file.cpp:396 | when sscanf returns 3, the name and the extension it assigned are non-empty |
| AgsAudioClips.Lower | engines/ags/shared/game/main_game_file.cpp:400-416 | the case-folded string ags_stricmp compares, character by character |
| AgsAudioClips.FileTypeOf | engines/ags/shared/game/main_game_file.cpp:400-414 | the extension chain; MIDI exactly for "mid" in any case |
| AgsAudioClips.ClipOf | engines/ags/shared/game/main_game_file.cpp:396-434 | every clip produced is well formed |
| AgsAudioClips.ClipOfSkips | engines/ags/shared/game/main_game_file.cpp:396-430 | an asset is skipped exactly when the scan fails, the extension is unknown or the name is neither music nor sound in any case; a kept clip has type 2 exactly when the name is music |
| AgsAudioClips.BuildAudioClipArray | engines/ags/shared/game/main_game_file.cpp:390-437 | the table gains exactly the clips of the accepted assets, in order; each new clip's id is its index and it is well formed |
| AgsAudioClips.NewClips | engines/ags/shared/game/main_game_file.cpp:390-437 | at most one clip per asset, numbered on from the table's old size |
| AgsAudioClips.AppendClip | engines/ags/shared/game/main_game_file.cpp:395-435 | one asset appends its clip, with id = table size, or nothing |
| AgsAudioClips.NewClipsShape | engines/ags/shared/game/main_game_file.cpp:432-435 | every appended clip is well formed and its id is its position |
| AgsAudioClips.ScanFormatted | engines/ags/shared/game/main_game_file.cpp:396-424 | scanning a name formatted as prefix, number, dot and extension gives those parts back |
| AgsAudioClips.RebuildFromFileName | engines/ags/shared/game/main_game_file.cpp:396-434 | a clip's file name, fed back in as an asset, yields the same clip |
| AgsAudioClips.IntToString | engines/ags/shared/game/main_game_file.cpp:417-418 | `%d` formatting: a sign only for negatives, then digits |
| AgsGameSetup.UpgradedCursors | engines/ags/shared/game/main_game_file.cpp:610-618 | as many cursors as before; none of the first n has view 0, and the others are unchanged |
| AgsGameSetup.UpgradedCursorsMeaning | engines/ags/shared/game/main_game_file.cpp:610-618 | after the upgrade none of the first numcursors cursors has view 0, and nothing else changes |
| AgsGameSetup.UpgradedCursorsIdempotent | engines/ags/shared/game/main_game_file.cpp:610-618 | upgrading twice is upgrading once |
| AgsGameSetup.WithDefault | engines/ags/shared/game/main_game_file.cpp:646-652 | the table keeps its size; a set slot leaves it unchanged; the slot is left empty only by an empty default |
| AgsGameSetup.WithDefaultMeaning | engines/ags/shared/game/main_game_file.cpp:646-652 | an empty slot gets the text, a set slot and all others are kept, and a second call changes nothing |
| AgsGameSetup.DefaultGlobalMessage | engines/ags/shared/game/main_game_file.cpp:655-670 | a default text exists exactly for messages 983-996 and is non-empty |
| AgsGameSetup.Defaulted | engines/ags/shared/game/main_game_file.cpp:655-670 | the table keeps its size and no set message changes |
| AgsGameSetup.DefaultedMeaning | engines/ags/shared/game/main_game_file.cpp:655-670 | no set message is overwritten, slots 483-496 end up non-empty, others are untouched, and defaulting twice is defaulting once |
| AgsGameSetup.UpdatedOptions | engines/ags/shared/game/main_game_file.cpp:905-920 | the array keeps its size; relative asset resolution is 1 before 3.5.0; the dialog API option is kept from 3.4.0.2 on |
| AgsGameSetup.UpdatedOptionsMeaning | engines/ags/shared/game/main_game_file.cpp:905-920 | talk speed 5 before 3.1.2; from 3.1.2 to before 3.3.0 a non-zero value becomes 5 and zero becomes -6; dialog API -1 before 3.4.0.2; relative asset resolution 1 before 3.5.0; other options untouched |
| AgsGameSetup.GameSetup.constructor | engines/ags/shared/game/main_game_file.cpp:897 | the arrays hold the given cursors, messages and options |
| AgsGameSetup.GameSetup.UpgradeMouseCursors | engines/ags/shared/game/main_game_file.cpp:610-618 | up to 2.7.2 the cursor array becomes UpgradedCursors of the old one; later versions change nothing |
| AgsGameSetup.GameSetup.SetDefaultGlmsg | engines/ags/shared/game/main_game_file.cpp:646-652 | slot msgnum-500 becomes WithDefault of the old table |
| AgsGameSetup.GameSetup.SetDefaultGlobalMessages | engines/ags/shared/game/main_game_file.cpp:655-670 | the message array becomes Defaulted of the old one |
| AgsGameSetup.GameSetup.UpdateGameData | engines/ags/shared/game/main_game_file.cpp:896-923 | cursors, messages and options end as the three rules give |
| AndroidI18n.ReplaceAllAppend | devtools/generate-android-i18n-strings.py:73-78 | str.replace distributes over concatenation |
| AndroidI18n.ReplaceAllAbsent | devtools/generate-android-i18n-strings.py:73-78 | replacing a character that does not occur changes nothing |
| AndroidI18n.EscapeSpecialCharacters | devtools/generate-android-i18n-strings.py:69-80 | the escaped text is never shorter than the translation |
| AndroidI18n.EscapeChar | devtools/generate-android-i18n-strings.py:73-78 | each of the six characters becomes a backslash pair, any other is kept |
| AndroidI18n.EscapeOneChar | devtools/generate-android-i18n-strings.py:73-78 | no replacement creates a character a later one rewrites, so each character is escaped once |
| AndroidI18n.EscapeIsPerChar | devtools/generate-android-i18n-strings.py:69-80 | escape_special_characters equals the one-pass per-character escape |
| AndroidI18n.EscapeSpecialCharactersMeaning | devtools/generate-android-i18n-strings.py:69-80 | identity on texts without the six characters; the output is longer by their count |
| AndroidI18n.UnescapeEscaped | devtools/generate-android-i18n-strings.py:69-80 | Android reads the escaped text back as the translation when it has no backslash |
| AndroidI18n.BackslashNotEscaped | devtools/generate-android-i18n-strings.py:73-78 | a translation holding backslash-n is written unchanged and shown as a newline |
| AndroidI18n.UnescapeEscapedForAndroid | devtools/generate-android-i18n-strings.py:69-80 | with the backslash escaped first, every translation reads back unchanged |
| AndroidI18n.RegionalIsBcp47 | devtools/generate-android-i18n-strings.py:83-90 | every code the regional pattern accepts, the BCP 47 pattern accepts |
| AndroidI18n.SplitJoin | devtools/generate-android-i18n-strings.py:100-101 | splitting a join on a separator no piece contains gives the pieces back |
| AndroidI18n.JoinSplit | devtools/generate-android-i18n-strings.py:100-101 | joining a split on one character gives the text back |
| AndroidI18n.Bcp47CoreSplit | devtools/generate-android-i18n-strings.py:88-101 | the BCP 47 pattern matches a whole text exactly when its re.split pieces are 1-8 letters, then 1-8 letters or digits each |
| AndroidI18n.IsRegionalLanguageCode | devtools/generate-android-i18n-strings.py:83-85 | an accepted code has 2 to 6 characters, counting the final newline `$` admits, and begins with two letters |
| AndroidI18n.IsBcp47LanguageCode | devtools/generate-android-i18n-strings.py:88-90 | an accepted code begins with a letter |
| AndroidI18n.IsBcp47Subtags | devtools/generate-android-i18n-strings.py:88-90 | is_bcp47_language_code in terms of subtags, with the final newline `$` admits |
| AndroidI18n.Bcp47HasNoPlus | devtools/generate-android-i18n-strings.py:88-90 | an accepted code holds no '+' |
| AndroidI18n.GetLangQualifier | devtools/generate-android-i18n-strings.py:93-105 | every code the BCP 47 pattern accepts gets a qualifier of two or more characters; the error message is "Invalid language code: " and the code |
| AndroidI18n.QualifierOfRegional | devtools/generate-android-i18n-strings.py:97-98 | a regional code is kept, except that an underscore after the language becomes "-r"; a hyphenated code passes unchanged |
| AndroidI18n.QualifierOfBcp47 | devtools/generate-android-i18n-strings.py:99-102 | any other accepted code gives "b+" and its subtags joined by '+', from which the subtags split back out |
| AndroidI18n.QualifierError | devtools/generate-android-i18n-strings.py:97-105 | get_lang_qualifier raises exactly for codes the BCP 47 pattern rejects, with the message "Invalid language code: " and the code |
| AndroidI18n.Translations | devtools/generate-android-i18n-strings.py:60-66 | every msgid in the dictionary, and its translation, is non-empty |
| AndroidI18n.ExtractTranslations | devtools/generate-android-i18n-strings.py:60-66 | the loop builds the dictionary Translations of the entries |
| AndroidI18n.TranslationsDomain | devtools/generate-android-i18n-strings.py:63-65 | a msgid has a translation exactly when some entry with it has non-empty msgid and msgstr and is not fuzzy; translations are never empty |
| AndroidI18n.TranslationsLastWins | devtools/generate-android-i18n-strings.py:63-65 | the translation is the msgstr of the last usable entry with that msgid |
| AndroidI18n.RFind | devtools/generate-android-i18n-strings.py:144 | the last occurrence of a character, or -1 |
| AndroidI18n.IsWantedPoFile | devtools/generate-android-i18n-strings.py:135-142 | a wanted name ends in ".po" and its stem is not be-tarask |
| AndroidI18n.SplitextRoot | devtools/generate-android-i18n-strings.py:144 | the root is a prefix of the name, cut only just before a dot |
| AndroidI18n.PoFileNames | devtools/generate-android-i18n-strings.py:132-146 | at most one root per directory entry |
| AndroidI18n.GetPoFiles | devtools/generate-android-i18n-strings.py:132-146 | the loop builds the list PoFileNames of the names |
| AndroidI18n.PoFileRoot | devtools/generate-android-i18n-strings.py:144 | for a name ending ".po", splitext drops ".po" unless only dots precede it, and the root plus ".po" is the name |
| AndroidI18n.PoFileNamesMeaning | devtools/generate-android-i18n-strings.py:132-146 | every wanted .po name contributes its root, every listed root comes from one, and "be-tarask" is never listed |

## Left out

- SciRegister: the bodies of `cmp`, the arithmetic and bitwise operators, `requireUint16`/`requireSint16`, `lookForWorkaround`, `pointerComparisonWithInteger` and `sci32Comparison` are only declared in the header. `cmp` and the binary operators are parameters, and only the relations between the operators are proved.
- SciRegister.GetSegment: `getSegment`, `setSegment` and `init` have no body in the header. In SCI3 they are taken to act on the low 14 bits of the segment field, the bits `setOffset` keeps; before SCI3, on the whole field.
- SciRegister: `NULL_REG`, `SIGNAL_REG` and `TRUE_REG` are defined elsewhere, and the segment manager's liveness table is external.
- LastExpressStream: `SaveLoad::init`, `loadStream`, `flushStream`, `saveGame`, `loadLastGame`, `loadGame`, `list` and `remove` are save-file I/O and callbacks into game state outside this model.
- LastExpressStream: the header serialisation of `writeEntry`/`readEntry` is left out; the entry data is an opaque byte sequence.
- LastExpressStream.SavegameStream.ReadUncompressed: requires dataSize < 2^31. For larger sizes the source's `(int32)` cast makes the size negative, so the clamp is skipped and memcpy copies past the end of the stream; the model does not capture that overrun.
- LastExpressStream.SavegameStream.ReadCompressed: readCompressed sets the status to ready, not to reading. `process()`'s reading branch is therefore never entered from the code shown. This is modelled as written.
- LastExpressCodec: `_repeatCount`'s type is declared outside this file. It is an unbounded integer here, so the `_repeatCount == -1` test in writeCompressed never holds, and 0xFC is emitted only by `process()`.
- LastExpressCodec: the default of writeBuffer's `onlyValue` argument is declared outside this file. It is taken as true, the only value for which the reader agrees with the writer.
- LastExpressStream.SavegameStream.constructor: the initial field values are declared outside this file. They are taken as an empty stream, an unused buffer, cleared registers and compression off.
- AgsMainGameFile: `FindGameData`/`IsMainGameLibrary` (filesystem and asset library) are left out. So are `ReadGameData`, `PreReadGameData`, `ReadViews` and `ReadDialogs`, which delegate to readers outside this model.
- AgsMainGameFile.OpenMainGameFileBase: the header is a record of already-read fields. The global `loaded_game_file_version` and `game_compiled_version` it sets are not modelled, and neither are the error message details.
- AgsGameSetup.GameSetup.UpdateGameData: `ApplySpriteData`, `UpgradeFonts`, `UpgradeAudio`, `UpgradeCharacters`, `UpgradeGUI` and `FixupSaveDirectory` work on sprite caches, GUI vectors, directories and path rules outside this model. They are not called.
- AgsGameSetup.GameSetup: the upgrade steps write `_GP(game)` while `UpdateGameData` passes `ents.Game`. Both are taken to be the same object.
- AgsGameSetup: the indices of OPT_GLOBALTALKANIMSPD, OPT_DIALOGOPTIONSAPI and OPT_RELATIVEASSETRES are declared outside this file. They are parameters, assumed in range and distinct.
- AgsAudioClips.ScanInt: `%d` is an unbounded integer, so an out-of-range number is not cut to `int`.
- AgsAudioClips.Lower: `ags_stricmp` is taken as ASCII case folding.
- AgsAudioClips.BuildAudioClipArray: the vector passed by reference is modelled as a value in and a value out. The fixed buffers `temp_name[30]` and `temp_extension[10]` never overflow, because the widths are 5 and 3.
- AndroidI18n: `generate_fake_cpp`, `generate_translated_xml`, polib, ElementTree and the os calls are file and XML work, left out. ExtractTranslations takes the entries polib would read, and GetPoFiles takes the names `os.listdir` would return.
- AndroidI18n.PoFileNamesMeaning: names from `os.listdir` contain no '/', so that is assumed; SplitextRoot itself handles '/'.
- AndroidI18n.Unescape: how Android reads a string resource is modelled only for backslash escapes (`\n`, `\t`, and a backslash before any other character). Quotes and `\u` escapes are not modelled.

## Findings

| source | as written | input that shows it | evidently intended | confidence | as-written member | corrected member |
|---|---|---|---|---|---|---|
| engines/lastexpress/game/savegame.cpp:255-263 | after the 0xFD run code, the case has no `break`. It falls through to `++data; ++_repeatCount`: the byte just taken as the new value is kept, but the byte after it is skipped | [0, 0, 1, 2, 3, 4] with dataSize 5: the 2 is lost and the 4, beyond dataSize, is written; [0, 0, 1, 2, 3] with dataSize 5: the loop reads past the input | `break` after `_valueCount = 1`, as in the two cases above it | high, not executed | LastExpressCodec.FdFallThroughSkipsByte | LastExpressCodec.RoundTrip |
| devtools/generate-android-i18n-strings.py:73-78 | the backslash itself is not escaped, while Android treats a backslash in a string resource as the start of an escape | a translation holding a backslash followed by 'n' is shown as a newline | escape the backslash first, before the six other characters | medium, not executed | AndroidI18n.BackslashNotEscaped | AndroidI18n.UnescapeEscapedForAndroid |
