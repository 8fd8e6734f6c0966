/**
  Checks made while opening and reading an AGS main game file
  (engines/ags/shared/game/main_game_file.cpp): the error texts, the
  signature and version gate at the head of the file, and the sprite-flag
  and plugin-data blocks with their size limits.

  The data-version constants, the sprite limits and the plugin buffer size
  are defined in headers outside this model; they enter as the parameters
  `Versions` and `Limits`, in the order the names imply.
*/
module AgsMainGameFile {

  import opened Wrappers

  type byte = x: int | 0 <= x < 256

  /** A value read with ReadInt32. */
  type int32 = x: int | -0x8000_0000 <= x < 0x8000_0000

  /** The error codes the text table lists, plus any other code. */
  datatype MainGameFileErrorType =
    | NoError | FileOpenFailed | SignatureFailed | FormatVersionTooOld
    | FormatVersionNotSupported | CapsNotSupported | InvalidNativeResolution
    | TooManySprites | InvalidPropertySchema | InvalidPropertyValues
    | CreateGlobalScriptFailed | CreateDialogScriptFailed | CreateScriptModuleFailed
    | GameEntityFailed | PluginDataFmtNotSupported | PluginDataSizeTooLarge
    | ExtListFailed | ExtUnknown
    | OtherError(code: int)

  const TextNoError: string := "No error."
  const TextFileOpenFailed: string := "Main game file not found or could not be opened."
  const TextSignatureFailed: string := "Not an AGS main game file or unsupported format."
  const TextFormatVersionTooOld: string := "Format version is too old; this engine can only run games made with AGS 2.5 or later."
  const TextFormatVersionNotSupported: string := "Format version not supported."
  const TextCapsNotSupported: string := "The game requires extended capabilities which aren't supported by the engine."
  const TextInvalidNativeResolution: string := "Unable to determine native game resolution."
  const TextTooManySprites: string := "Too many sprites for this engine to handle."
  const TextInvalidPropertySchema: string := "Failed to deserialize custom properties schema."
  const TextInvalidPropertyValues: string := "Errors encountered when reading custom properties."
  const TextCreateGlobalScriptFailed: string := "Failed to load global script."
  const TextCreateDialogScriptFailed: string := "Failed to load dialog script."
  const TextCreateScriptModuleFailed: string := "Failed to load script module."
  const TextGameEntityFailed: string := "Failed to load one or more game entities."
  const TextPluginDataFmtNotSupported: string := "Format version of plugin data is not supported."
  const TextPluginDataSizeTooLarge: string := "Plugin data size is too large."
  const TextExtListFailed: string := "There was error reading game data extensions."
  const TextExtUnknown: string := "Unknown extension."
  const TextOtherError: string := "Unknown error."

  /** GetMainGameFileErrorText: one fixed sentence per listed code,
      "Unknown error." for anything else. */
  function GetMainGameFileErrorText(err: MainGameFileErrorType): (text: string)
    ensures |text| > 0
    ensures err.OtherError? ==> text == TextOtherError
  {
    match err
    case NoError => TextNoError
    case FileOpenFailed => TextFileOpenFailed
    case SignatureFailed => TextSignatureFailed
    case FormatVersionTooOld => TextFormatVersionTooOld
    case FormatVersionNotSupported => TextFormatVersionNotSupported
    case CapsNotSupported => TextCapsNotSupported
    case InvalidNativeResolution => TextInvalidNativeResolution
    case TooManySprites => TextTooManySprites
    case InvalidPropertySchema => TextInvalidPropertySchema
    case InvalidPropertyValues => TextInvalidPropertyValues
    case CreateGlobalScriptFailed => TextCreateGlobalScriptFailed
    case CreateDialogScriptFailed => TextCreateDialogScriptFailed
    case CreateScriptModuleFailed => TextCreateScriptModuleFailed
    case GameEntityFailed => TextGameEntityFailed
    case PluginDataFmtNotSupported => TextPluginDataFmtNotSupported
    case PluginDataSizeTooLarge => TextPluginDataSizeTooLarge
    case ExtListFailed => TextExtListFailed
    case ExtUnknown => TextExtUnknown
    case OtherError(_) => TextOtherError
  }


  /** "Unknown error." is the text of the codes the table does not list,
      and of no listed one. */
  lemma UnknownOnlyForOther(err: MainGameFileErrorType)
    ensures GetMainGameFileErrorText(err) == "Unknown error." <==> err.OtherError?
  {
    if !err.OtherError? {
      assert |GetMainGameFileErrorText(err)| != 14;
    }
  }

  /** Different listed codes are described by different texts, so the text
      identifies the error: the lengths and the first two characters tell
      them apart, and the sixteenth those of length 29. */
  lemma ErrorTextIdentifies(a: MainGameFileErrorType, b: MainGameFileErrorType)
    requires GetMainGameFileErrorText(a) == GetMainGameFileErrorText(b)
    requires !a.OtherError? && !b.OtherError?
    ensures a == b
  {
    var t := GetMainGameFileErrorText(a);
    assert |t| == |GetMainGameFileErrorText(b)|;
    assert t[0] == GetMainGameFileErrorText(b)[0];
    assert t[1] == GetMainGameFileErrorText(b)[1];
    if |t| == 29 {
      assert t[15] == GetMainGameFileErrorText(b)[15];
    }
  }

  // ---------------------------------------------------------------------
  // Header gate
  // ---------------------------------------------------------------------

  /** MainGameSource::Signature */
  const Signature: string := "Adventure Creator Game File v2"

  /** The GameDataVersion values the checks compare with. */
  datatype Versions = Versions(
    v230: int, v250: int, v256: int, v260: int, v272: int, v312: int,
    v330: int, v340_2: int, v341: int, v350: int, current: int)
  {
    predicate Ordered() {
      v230 < v250 < v256 < v260 < v272 < v312 < v330 < v340_2 < v341 < v350 <= current
    }
  }

  /** What the head of the file holds after the signature, in reading
      order: the data version, then (from 2.3.0) the compiled-with string,
      then (from 3.4.1) the capability list. */
  datatype HeaderInput = HeaderInput(signature: string, dataVersion: int, compiledWith: string, caps: seq<string>)

  /** MainGameSource as OpenMainGameFileBase leaves it; the data version is
      None while it is still kGameVersion_Undefined. */
  datatype MainGameSource = MainGameSource(dataVersion: Option<int>, compiledWith: string, caps: set<string>)

  /** The converted elements of a sequence, as a set. */
  function AsSet(s: seq<string>): (r: set<string>)
    ensures forall x :: x in r <==> x in s
  {
    if |s| == 0 then {} else {s[0]} + AsSet(s[1..])
  }

  /** OpenMainGameFileBase on a freshly reset source: the signature is
      checked before anything else is read; the data version is stored and
      the compiled-with string read (from 2.3.0) before the range checks;
      the capabilities are read only for a supported version from 3.4.1. */
  function OpenMainGameFileBase(vs: Versions, input: HeaderInput): (r: (MainGameSource, MainGameFileErrorType))
    requires vs.Ordered()
    ensures r.1 == SignatureFailed <==> input.signature != Signature
    ensures r.1 == SignatureFailed ==> r.0 == MainGameSource(None, "", {})
    ensures r.1 == FormatVersionTooOld <==>
      input.signature == Signature && input.dataVersion < vs.v250
    ensures r.1 == FormatVersionNotSupported <==>
      input.signature == Signature && input.dataVersion > vs.current
    ensures r.1 == NoError <==>
      input.signature == Signature && vs.v250 <= input.dataVersion <= vs.current
    ensures r.1 in {NoError, SignatureFailed, FormatVersionTooOld, FormatVersionNotSupported}
    ensures r.1 != SignatureFailed ==> r.0.dataVersion == Some(input.dataVersion)
    ensures r.1 != SignatureFailed ==>
      r.0.compiledWith == if input.dataVersion >= vs.v230 then input.compiledWith else ""
    ensures r.0.caps == if r.1 == NoError && input.dataVersion >= vs.v341 then AsSet(input.caps) else {}
  {
    if input.signature != Signature then (MainGameSource(None, "", {}), SignatureFailed)
    else
      var v := input.dataVersion;
      var compiled := if v >= vs.v230 then input.compiledWith else "";
      if v < vs.v250 then (MainGameSource(Some(v), compiled, {}), FormatVersionTooOld)
      else if v > vs.current then (MainGameSource(Some(v), compiled, {}), FormatVersionNotSupported)
      else
        var caps := if v >= vs.v341 then AsSet(input.caps) else {};
        (MainGameSource(Some(v), compiled, caps), NoError)
  }

  // ---------------------------------------------------------------------
  // Sprite flags and plugins
  // ---------------------------------------------------------------------

  /** LEGACY_MAX_SPRITES_V25, SpriteCache::MAX_SPRITE_INDEX and
      PLUGIN_SAVEBUFFERSIZE. */
  datatype Limits = Limits(legacyMaxSpritesV25: nat, maxSpriteIndex: nat, pluginSaveBufferSize: nat)

  /** size_t (64 bits) holding an int32 read from the stream: negative
      values wrap around to huge ones. */
  function ToSize(v: int32): (r: nat)
    ensures v >= 0 ==> r == v
    ensures v < 0 ==> r >= 0x1_0000_0000_0000_0000 - 0x8000_0000
  {
    if v < 0 then 0x1_0000_0000_0000_0000 + v else v
  }

  /** The sprite count ReadSpriteFlags settles on: the legacy maximum
      before 2.5.6, the stored int32 as a size_t from then on. */
  function SpriteCountFor(vs: Versions, limits: Limits, dataVer: int, storedCount: int32): (n: nat)
    ensures dataVer < vs.v256 ==> n == limits.legacyMaxSpritesV25
    ensures dataVer >= vs.v256 && storedCount >= 0 ==> n == storedCount
    ensures dataVer >= vs.v256 && storedCount < 0 ==> n >= 0x1_0000_0000_0000_0000 - 0x8000_0000
  {
    if dataVer < vs.v256 then limits.legacyMaxSpritesV25 else ToSize(storedCount)
  }

  /** A buffer of n bytes resized from empty and then filled by a stream
      read that delivered `available`: what the read did not reach stays 0. */
  function Fill(available: seq<byte>, n: nat): (r: seq<byte>)
    ensures |r| == n
    ensures forall i | 0 <= i < n :: r[i] == if i < |available| then available[i] else 0
  {
    if n <= |available| then available[..n] else available + seq(n - |available|, _ => 0)
  }

  /** A vector resized to n elements and then given to a stream read of n
      bytes that delivered `available`: resize keeps the old elements that
      fit and pads with zeros, and the read overwrites the front. */
  function ResizeRead(prior: seq<byte>, available: seq<byte>, n: nat): (r: seq<byte>)
    ensures |r| == n
    ensures forall i | 0 <= i < n ::
      r[i] == if i < |available| then available[i] else if i < |prior| then prior[i] else 0
    ensures prior == [] ==> r == Fill(available, n)
  {
    var resized := if n <= |prior| then prior[..n] else prior + seq(n - |prior|, _ => 0);
    if n <= |available| then available[..n] else available + resized[|available|..]
  }

  /** One plugin record as it follows in the stream: the name, the int32
      data size and the bytes after it. */
  datatype PluginRecord = PluginRecord(name: string, dataSize: int32, bytes: seq<byte>)

  datatype PluginInfo = PluginInfo(name: string, data: seq<byte>)

  /** The sprite and plugin parts of LoadedGameEntities. */
  class LoadedGameEntities {
    var spriteCount: nat
    var spriteFlags: seq<byte>
    var pluginInfos: seq<PluginInfo>

    constructor ()
      ensures spriteCount == 0 && spriteFlags == [] && pluginInfos == []
    {
      spriteCount, spriteFlags, pluginInfos := 0, [], [];
    }

    /** ReadSpriteFlags: before 2.5.6 the count is the fixed legacy maximum,
        later it is read as an int32 into a size_t; a count above
        MAX_SPRITE_INDEX + 1 is refused and leaves the entities untouched. */
    method ReadSpriteFlags(vs: Versions, limits: Limits, dataVer: int, storedCount: int32, flags: seq<byte>)
      returns (err: MainGameFileErrorType)
      requires vs.Ordered()
      modifies this`spriteCount, this`spriteFlags
      ensures err in {NoError, TooManySprites}
      ensures err == TooManySprites <==> SpriteCountFor(vs, limits, dataVer, storedCount) > limits.maxSpriteIndex + 1
      ensures err == TooManySprites ==> unchanged(this)
      ensures err == NoError ==>
        && spriteCount == SpriteCountFor(vs, limits, dataVer, storedCount)
        && spriteFlags == ResizeRead(old(spriteFlags), flags, spriteCount)
        && (old(spriteFlags) == [] ==> spriteFlags == Fill(flags, spriteCount))
      ensures pluginInfos == old(pluginInfos)
    {
      var count: nat;
      if dataVer < vs.v256 {
        count := limits.legacyMaxSpritesV25;
      } else {
        count := ToSize(storedCount);
      }
      if count > limits.maxSpriteIndex + 1 {
        return TooManySprites;
      }
      spriteCount := count;
      spriteFlags := ResizeRead(spriteFlags, flags, count);
      err := NoError;
    }

    /** ReadPlugins: the format version must be 1; then pl_count records
        are read, each refused when its data size (an int32 read into a
        size_t) is above PLUGIN_SAVEBUFFERSIZE. Plugins accepted before a
        refused one stay appended. */
    method ReadPlugins(limit: nat, fmtVer: int32, plCount: int32, records: seq<PluginRecord>)
      returns (err: MainGameFileErrorType)
      requires plCount <= |records|
      modifies this`pluginInfos
      ensures err in {NoError, PluginDataFmtNotSupported, PluginDataSizeTooLarge}
      ensures err == PluginDataFmtNotSupported <==> fmtVer != 1
      ensures err == PluginDataFmtNotSupported ==> pluginInfos == old(pluginInfos)
      ensures fmtVer == 1 ==>
        && pluginInfos == old(pluginInfos) + AcceptedPlugins(limit, records[..Max0(plCount)])
        && (err == PluginDataSizeTooLarge <==> FirstTooLarge(limit, records[..Max0(plCount)]).Some?)
    {
      if fmtVer != 1 {
        return PluginDataFmtNotSupported;
      }
      ghost var start := pluginInfos;
      ghost var n := Max0(plCount);
      var i := 0;
      while i < plCount
        invariant 0 <= i <= n
        invariant FirstTooLarge(limit, records[..i]).None?
        invariant pluginInfos == start + AcceptedPlugins(limit, records[..i])
      {
        AcceptedExtend(limit, records, i);
        var accepted := ReadPlugin(limit, records[i]);
        if !accepted {
          assert records[..n][..i] == records[..i];
          AcceptedStops(limit, records[..n], i);
          return PluginDataSizeTooLarge;
        }
        i := i + 1;
      }
      assert records[..i] == records[..n];
      err := NoError;
    }

    /** One pass of the ReadPlugins loop: the record is refused when its
        size is over the limit, otherwise its plugin is appended. */
    method ReadPlugin(limit: nat, rec: PluginRecord) returns (accepted: bool)
      modifies this`pluginInfos
      ensures accepted <==> !TooLarge(limit, rec)
      ensures pluginInfos == old(pluginInfos) + if accepted then [PluginOf(limit, rec)] else []
    {
      var dataSize := ToSize(rec.dataSize);
      if dataSize > limit {
        return false;
      }
      var info := PluginInfo(rec.name, if dataSize > 0 then Fill(rec.bytes, dataSize) else []);
      pluginInfos := pluginInfos + [info];
      accepted := true;
    }
  }

  function Max0(n: int): nat { if n < 0 then 0 else n }

  /** The plugin made from a record whose size is within the limit. */
  function PluginOf(limit: nat, rec: PluginRecord): PluginInfo
  {
    var size := ToSize(rec.dataSize);
    PluginInfo(rec.name, if size > 0 then Fill(rec.bytes, size) else [])
  }

  predicate TooLarge(limit: nat, rec: PluginRecord)
  {
    ToSize(rec.dataSize) > limit
  }

  /** The index of the first record whose size is over the limit, if any. */
  function FirstTooLarge(limit: nat, recs: seq<PluginRecord>): (r: Option<nat>)
    ensures r.Some? ==>
      && r.value < |recs| && TooLarge(limit, recs[r.value])
      && forall j | 0 <= j < r.value :: !TooLarge(limit, recs[j])
    ensures r.None? ==> forall j | 0 <= j < |recs| :: !TooLarge(limit, recs[j])
  {
    if |recs| == 0 then None
    else if TooLarge(limit, recs[|recs| - 1]) then
      match FirstTooLarge(limit, recs[..|recs| - 1])
      case Some(k) => Some(k)
      case None => Some(|recs| - 1)
    else
      FirstTooLarge(limit, recs[..|recs| - 1])
  }

  /** The plugins read from the records: all of them up to the first one
      that is too large. */
  function AcceptedPlugins(limit: nat, recs: seq<PluginRecord>): (r: seq<PluginInfo>)
    ensures |r| <= |recs|
    ensures forall i | 0 <= i < |r| :: |r[i].data| <= limit
  {
    if |recs| == 0 then []
    else if FirstTooLarge(limit, recs[..|recs| - 1]).Some? then AcceptedPlugins(limit, recs[..|recs| - 1])
    else if TooLarge(limit, recs[|recs| - 1]) then AcceptedPlugins(limit, recs[..|recs| - 1])
    else AcceptedPlugins(limit, recs[..|recs| - 1]) + [PluginOf(limit, recs[|recs| - 1])]
  }

  /** One more record read. */
  lemma AcceptedExtend(limit: nat, records: seq<PluginRecord>, i: nat)
    requires i < |records|
    requires FirstTooLarge(limit, records[..i]).None?
    ensures FirstTooLarge(limit, records[..i + 1]).Some? <==> TooLarge(limit, records[i])
    ensures !TooLarge(limit, records[i]) ==>
      AcceptedPlugins(limit, records[..i + 1]) == AcceptedPlugins(limit, records[..i]) + [PluginOf(limit, records[i])]
  {
    assert records[..i + 1][..i] == records[..i];
  }

  /** Once a record is too large, nothing after it is accepted. */
  lemma {:induction false} AcceptedStops(limit: nat, recs: seq<PluginRecord>, k: nat)
    requires k < |recs|
    requires TooLarge(limit, recs[k]) && FirstTooLarge(limit, recs[..k]).None?
    ensures AcceptedPlugins(limit, recs) == AcceptedPlugins(limit, recs[..k])
    ensures FirstTooLarge(limit, recs) == Some(k)
    decreases |recs|
  {
    if |recs| == k + 1 {
      assert recs[..|recs| - 1] == recs[..k];
    } else {
      var init := recs[..|recs| - 1];
      assert init[..k] == recs[..k];
      AcceptedStops(limit, init, k);
    }
  }

  /** Every accepted plugin keeps its record's name and carries exactly as
      many data bytes as its record announced. */
  lemma {:induction false} AcceptedShape(limit: nat, recs: seq<PluginRecord>)
    requires FirstTooLarge(limit, recs).None?
    ensures |AcceptedPlugins(limit, recs)| == |recs|
    ensures forall i | 0 <= i < |recs| ::
      && AcceptedPlugins(limit, recs)[i].name == recs[i].name
      && |AcceptedPlugins(limit, recs)[i].data| == ToSize(recs[i].dataSize) <= limit
  {
    if |recs| > 0 {
      var init := recs[..|recs| - 1];
      AcceptedShape(limit, init);
    }
  }
}
