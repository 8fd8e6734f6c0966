/**
  BuildAudioClipArray (engines/ags/shared/game/main_game_file.cpp): the
  audio clip table a 3.1.x game lacks is rebuilt from the names of its
  asset files. Each name is scanned with the C format "%5s%d.%3s"; names of
  the form music<N>.<ext> and sound<N>.<ext> with a known extension become
  clips, compared without regard to ASCII case.
*/
module AgsAudioClips {

  import opened Wrappers

  // ---------------------------------------------------------------------
  // The sscanf "%5s%d.%3s" scan
  // ---------------------------------------------------------------------

  /** isspace in the C locale. */
  predicate IsSpace(c: char)
  {
    c == ' ' || c == '\t' || c == '\n' || c == '\U{B}' || c == '\U{C}' || c == '\r'
  }

  predicate IsDigit(c: char)
  {
    '0' <= c <= '9'
  }

  /** The index of the first non-space character at or after i. */
  function SkipSpace(s: string, i: nat): (j: nat)
    requires i <= |s|
    ensures i <= j <= |s|
    decreases |s| - i
  {
    if i < |s| && IsSpace(s[i]) then SkipSpace(s, i + 1) else i
  }

  /** The end of the run of at most `width` non-space characters from i. */
  function TakeNonSpace(s: string, i: nat, width: nat): (j: nat)
    requires i <= |s|
    ensures i <= j <= |s| && j - i <= width
    decreases width
  {
    if width > 0 && i < |s| && !IsSpace(s[i]) then TakeNonSpace(s, i + 1, width - 1) else i
  }

  /** The end of the run of decimal digits from i. */
  function TakeDigits(s: string, i: nat): (j: nat)
    requires i <= |s|
    ensures i <= j <= |s|
    decreases |s| - i
  {
    if i < |s| && IsDigit(s[i]) then TakeDigits(s, i + 1) else i
  }

  function DigitValue(c: char): nat
  {
    if IsDigit(c) then c as int - '0' as int else 0
  }

  /** The value of a string of decimal digits. */
  function DigitsValue(ds: string): nat
  {
    if |ds| == 0 then 0
    else DigitsValue(ds[..|ds| - 1]) * 10 + DigitValue(ds[|ds| - 1])
  }

  /** A "%<width>s" conversion from position i: spaces are skipped, then
      one to `width` non-space characters are taken. Returns them and the
      position after them. */
  function ScanString(s: string, i: nat, width: nat): (r: Option<(string, nat)>)
    requires i <= |s|
    ensures r.Some? ==> 1 <= |r.value.0| <= width && i < r.value.1 <= |s|
  {
    var a := SkipSpace(s, i);
    var b := TakeNonSpace(s, a, width);
    if b == a then None else Some((s[a..b], b))
  }

  /** A "%d" conversion from position i: spaces are skipped, then an
      optional sign and at least one decimal digit are taken. Returns the
      number and the position after its digits. */
  function ScanInt(s: string, i: nat): (r: Option<(int, nat)>)
    requires i <= |s|
    ensures r.Some? ==> i < r.value.1 <= |s|
  {
    var c := SkipSpace(s, i);
    var signed := c < |s| && (s[c] == '-' || s[c] == '+');
    var d := if signed then c + 1 else c;
    var e := TakeDigits(s, d);
    if e == d then None
    else
      var magnitude := DigitsValue(s[d..e]);
      Some((if signed && s[c] == '-' then -(magnitude as int) else magnitude, e))
  }

  /** SkipSpace stops at the first character that is not a space. */
  lemma {:induction false} SkipSpaceRun(s: string, i: nat)
    requires i <= |s|
    ensures forall k | i <= k < SkipSpace(s, i) :: IsSpace(s[k])
    ensures SkipSpace(s, i) < |s| ==> !IsSpace(s[SkipSpace(s, i)])
    decreases |s| - i
  {
    if i < |s| && IsSpace(s[i]) {
      SkipSpaceRun(s, i + 1);
    }
  }

  /** TakeNonSpace takes only non-space characters, and stops early only
      at a space or at the end. */
  lemma {:induction false} TakeNonSpaceRun(s: string, i: nat, width: nat)
    requires i <= |s|
    ensures forall k | i <= k < TakeNonSpace(s, i, width) :: !IsSpace(s[k])
    ensures var j := TakeNonSpace(s, i, width); j < |s| && j - i < width ==> IsSpace(s[j])
    decreases width
  {
    if width > 0 && i < |s| && !IsSpace(s[i]) {
      TakeNonSpaceRun(s, i + 1, width - 1);
    }
  }

  /** TakeDigits takes only digits and stops at a non-digit or the end. */
  lemma {:induction false} TakeDigitsRun(s: string, i: nat)
    requires i <= |s|
    ensures forall k | i <= k < TakeDigits(s, i) :: IsDigit(s[k])
    ensures TakeDigits(s, i) < |s| ==> !IsDigit(s[TakeDigits(s, i)])
    decreases |s| - i
  {
    if i < |s| && IsDigit(s[i]) {
      TakeDigitsRun(s, i + 1);
    }
  }

  /** A "%s" conversion never takes a space. */
  lemma ScanStringNoSpace(s: string, i: nat, width: nat)
    requires i <= |s|
    ensures ScanString(s, i, width).Some? ==>
      forall k | 0 <= k < |ScanString(s, i, width).value.0| :: !IsSpace(ScanString(s, i, width).value.0[k])
  {
    TakeNonSpaceRun(s, SkipSpace(s, i), width);
  }

  /** The directives of a scanf format: a "%<width>s" or "%d" conversion,
      or an ordinary character that must come next in the input. */
  datatype Directive = StrConv(width: nat) | IntConv | Literal(c: char)

  /** A value a conversion assigns. */
  datatype Value = StrValue(str: string) | IntValue(n: int)

  /** "%5s%d.%3s" */
  const AssetFormat: seq<Directive> := [StrConv(5), IntConv, Literal('.'), StrConv(3)]

  /** sscanf: the directives are matched in order from position pos, and
      the values of the conversions are collected until a directive fails
      or the format ends; the count of values is what sscanf returns (EOF,
      for input that ends before the first conversion, is not 3 either). */
  function ScanFormat(fmt: seq<Directive>, s: string, pos: nat): (r: seq<Value>)
    requires pos <= |s|
    decreases |s| - pos, 1
  {
    if |fmt| == 0 then []
    else
      match fmt[0]
      case StrConv(width) => ScanStringThen(width, fmt[1..], s, pos)
      case IntConv => ScanIntThen(fmt[1..], s, pos)
      case Literal(c) => if pos < |s| && s[pos] == c then ScanFormat(fmt[1..], s, pos + 1) else []
  }

  /** A "%<width>s" conversion, then the rest of the format. */
  function ScanStringThen(width: nat, rest: seq<Directive>, s: string, pos: nat): (r: seq<Value>)
    requires pos <= |s|
    decreases |s| - pos, 0
  {
    match ScanString(s, pos, width)
    case None => []
    case Some((str, next)) => [StrValue(str)] + ScanFormat(rest, s, next)
  }

  /** A "%d" conversion, then the rest of the format. */
  function ScanIntThen(rest: seq<Directive>, s: string, pos: nat): (r: seq<Value>)
    requires pos <= |s|
    decreases |s| - pos, 0
  {
    match ScanInt(s, pos)
    case None => []
    case Some((n, next)) => [IntValue(n)] + ScanFormat(rest, s, next)
  }

  /** Every string a `%s` conversion assigns is non-empty, and there is at
      most one value per directive. */
  lemma {:induction false} ScanFormatStrings(fmt: seq<Directive>, s: string, pos: nat)
    requires pos <= |s|
    ensures |ScanFormat(fmt, s, pos)| <= |fmt|
    ensures forall k | 0 <= k < |ScanFormat(fmt, s, pos)| ::
      ScanFormat(fmt, s, pos)[k].StrValue? ==> |ScanFormat(fmt, s, pos)[k].str| >= 1
    decreases |s| - pos, |fmt|
  {
    if |fmt| > 0 {
      match fmt[0]
      case StrConv(width) =>
        var o := ScanString(s, pos, width);
        if o.Some? {
          ScanFormatStrings(fmt[1..], s, o.value.1);
        }
      case IntConv =>
        var o := ScanInt(s, pos);
        if o.Some? {
          ScanFormatStrings(fmt[1..], s, o.value.1);
        }
      case Literal(c) =>
        if pos < |s| && s[pos] == c {
          ScanFormatStrings(fmt[1..], s, pos + 1);
        }
    }
  }

  /** The three conversions of a successful scan. */
  datatype Scanned = Scanned(name: string, number: int, ext: string)

  /** sscanf(asset, "%5s%d.%3s", temp_name, &temp_number, temp_extension)
      == 3, with what the three conversions assigned. */
  function ScanAsset(s: string): (r: Option<Scanned>)
    ensures r.Some? ==> |r.value.name| >= 1 && |r.value.ext| >= 1
  {
    ScanFormatStrings(AssetFormat, s, 0);
    var values := ScanFormat(AssetFormat, s, 0);
    if |values| == 3 && values[0].StrValue? && values[1].IntValue? && values[2].StrValue? then
      Some(Scanned(values[0].str, values[1].n, values[2].str))
    else None
  }

  /** A successful scan is a name of one to five non-space characters,
      then the number, a literal '.' right after its digits, and one to
      three non-space characters of extension; whatever follows the
      extension is ignored. */
  lemma ScanAssetShape(s: string)
    ensures ScanAsset(s).Some? <==>
      && ScanString(s, 0, 5).Some?
      && ScanInt(s, ScanString(s, 0, 5).value.1).Some?
      && var e := ScanInt(s, ScanString(s, 0, 5).value.1).value.1;
         e < |s| && s[e] == '.' && ScanString(s, e + 1, 3).Some?
    ensures ScanAsset(s).Some? ==>
      var e := ScanInt(s, ScanString(s, 0, 5).value.1).value.1;
      && ScanAsset(s).value.name == ScanString(s, 0, 5).value.0
      && ScanAsset(s).value.number == ScanInt(s, ScanString(s, 0, 5).value.1).value.0
      && ScanAsset(s).value.ext == ScanString(s, e + 1, 3).value.0
      && 1 <= |ScanAsset(s).value.name| <= 5 && 1 <= |ScanAsset(s).value.ext| <= 3
      && forall k | 0 <= k < |ScanAsset(s).value.ext| :: !IsSpace(ScanAsset(s).value.ext[k])
  {
    ScanAssetCases(s);
    var first := ScanString(s, 0, 5);
    if first.Some? && ScanInt(s, first.value.1).Some? {
      var e := ScanInt(s, first.value.1).value.1;
      if e < |s| {
        ScanStringNoSpace(s, e + 1, 3);
      }
    }
  }

  /** sscanf's result, directive by directive: each conversion that fails
      ends the scan with fewer than three values. */
  lemma ScanAssetCases(s: string)
    ensures ScanAsset(s) ==
      var first := ScanString(s, 0, 5);
      if first.None? then None else
      var second := ScanInt(s, first.value.1);
      if second.None? then None else
      var e := second.value.1;
      if !(e < |s| && s[e] == '.') then None else
      var third := ScanString(s, e + 1, 3);
      if third.None? then None else
      Some(Scanned(first.value.0, second.value.0, third.value.0))
  {
    ScanNameStep(s);
    var first := ScanString(s, 0, 5);
    if first.Some? {
      ScanNumberStep(s, first.value.1);
      var second := ScanInt(s, first.value.1);
      if second.Some? {
        ScanExtensionStep(s, second.value.1);
      }
    }
  }

  /** The "%5s" directive, then the rest of the asset format. */
  lemma ScanNameStep(s: string)
    ensures ScanFormat(AssetFormat, s, 0) ==
      if ScanString(s, 0, 5).Some? then
        [StrValue(ScanString(s, 0, 5).value.0)] + ScanFormat(AssetFormat[1..], s, ScanString(s, 0, 5).value.1)
      else []
  {
    assert AssetFormat[0] == StrConv(5);
  }

  /** The "%d" directive, then the rest of the asset format. */
  lemma ScanNumberStep(s: string, b: nat)
    requires b <= |s|
    ensures ScanFormat(AssetFormat[1..], s, b) ==
      if ScanInt(s, b).Some? then
        [IntValue(ScanInt(s, b).value.0)] + ScanFormat(AssetFormat[2..], s, ScanInt(s, b).value.1)
      else []
  {
    assert AssetFormat[1..][0] == IntConv && AssetFormat[1..][1..] == AssetFormat[2..];
  }

  /** The literal '.' and the "%3s" directive that end the asset format. */
  lemma ScanExtensionStep(s: string, e: nat)
    requires e <= |s|
    ensures ScanFormat(AssetFormat[2..], s, e) ==
      if e < |s| && s[e] == '.' && ScanString(s, e + 1, 3).Some? then
        [StrValue(ScanString(s, e + 1, 3).value.0)]
      else []
  {
    var f := AssetFormat[2..];
    var g := f[1..];
    assert f == [Literal('.'), StrConv(3)] && g == [StrConv(3)] && g[1..] == [];
    if e < |s| && s[e] == '.' {
      var third := ScanString(s, e + 1, 3);
      assert ScanFormat(f, s, e) == ScanFormat(g, s, e + 1);
      assert ScanFormat(g, s, e + 1) == ScanStringThen(3, g[1..], s, e + 1);
      if third.Some? {
        assert ScanFormat(g[1..], s, third.value.1) == [];
      }
    } else {
      assert ScanFormat(f, s, e) == [];
    }
  }

  // ---------------------------------------------------------------------
  // Formatting with %d and case-insensitive comparison
  // ---------------------------------------------------------------------

  function DigitChar(d: nat): (c: char)
    requires d < 10
    ensures IsDigit(c) && c as int - '0' as int == d
  {
    ('0' as int + d) as char
  }

  /** The decimal digits of n, without leading zeros. */
  function NatToString(n: nat): (s: string)
    ensures |s| >= 1
    ensures forall k | 0 <= k < |s| :: IsDigit(s[k])
  {
    if n < 10 then [DigitChar(n)] else NatToString(n / 10) + [DigitChar(n % 10)]
  }

  /** printf "%d". */
  function IntToString(n: int): (s: string)
    ensures |s| >= 1 && (IsDigit(s[0]) || s[0] == '-')
  {
    if n < 0 then "-" + NatToString(-n) else NatToString(n)
  }

  function LowerChar(c: char): char
  {
    if 'A' <= c <= 'Z' then (c as int + 32) as char else c
  }

  /** The string ags_stricmp compares: every ASCII capital lowered. */
  function Lower(s: string): (r: string)
    ensures |r| == |s|
    ensures forall k | 0 <= k < |s| :: r[k] == LowerChar(s[k])
  {
    seq(|s|, k requires 0 <= k < |s| => LowerChar(s[k]))
  }

  // ---------------------------------------------------------------------
  // Clips
  // ---------------------------------------------------------------------

  datatype AudioFileType = FileMP3 | FileWAV | FileVOC | FileMIDI | FileMOD | FileOGG

  /** AUCL_BUNDLE_EXE and AUCL_BUNDLE_VOX. */
  datatype BundlingType = BundleExe | BundleVox

  datatype ScriptAudioClip = ScriptAudioClip(
    id: nat, scriptName: string, fileName: string, fileType: AudioFileType,
    bundlingType: BundlingType, clipType: int, defaultRepeat: int,
    defaultVolume: int, defaultPriority: int)

  const MusicPrefix: string := "music"
  const SoundPrefix: string := "sound"
  const MusicScriptPrefix: string := "aMusic"
  const SoundScriptPrefix: string := "aSound"
  const MidiExtension: string := "mid"

  /** The file type chosen by the extension, if it is one of the known
      ones. */
  function FileTypeOf(ext: string): (r: Option<AudioFileType>)
    ensures r == Some(FileMIDI) <==> Lower(ext) == MidiExtension
  {
    var e := Lower(ext);
    if e == "mp3" then Some(FileMP3)
    else if e == "wav" then Some(FileWAV)
    else if e == "voc" then Some(FileVOC)
    else if e == MidiExtension then Some(FileMIDI)
    else if e == "mod" || e == "xm" || e == "s3m" || e == "it" then Some(FileMOD)
    else if e == "ogg" then Some(FileOGG)
    else None
  }

  /** A clip's fields as BuildAudioClipArray sets them: music clips have
      type 2, repeat 1 and EXE bundling exactly for MIDI; sound clips have
      type 3, repeat 0 and EXE bundling; all have volume 100 and priority
      50, and the file name starts with the lower-case prefix. */
  predicate WellFormedClip(c: ScriptAudioClip)
  {
    && c.defaultVolume == 100 && c.defaultPriority == 50
    && (|| (&& c.clipType == 2 && c.defaultRepeat == 1
            && (c.bundlingType == BundleExe <==> c.fileType == FileMIDI)
            && |c.fileName| > 5 && c.fileName[..5] == MusicPrefix)
        || (&& c.clipType == 3 && c.defaultRepeat == 0 && c.bundlingType == BundleExe
            && |c.fileName| > 5 && c.fileName[..5] == SoundPrefix))
  }

  /** The clip of an asset named music<number>.<ext>, before its id is set. */
  function MusicClip(number: int, ext: string, fileType: AudioFileType): (c: ScriptAudioClip)
    ensures WellFormedClip(c) && c.clipType == 2
  {
    var digits := IntToString(number);
    var c := ScriptAudioClip(0, MusicScriptPrefix + digits, MusicPrefix + digits + "." + ext, fileType,
                             if fileType == FileMIDI then BundleExe else BundleVox, 2, 1, 100, 50);
    assert c.fileName[..5] == MusicPrefix;
    c
  }

  /** The clip of an asset named sound<number>.<ext>, before its id is set. */
  function SoundClip(number: int, ext: string, fileType: AudioFileType): (c: ScriptAudioClip)
    ensures WellFormedClip(c) && c.clipType == 3
  {
    var digits := IntToString(number);
    var c := ScriptAudioClip(0, SoundScriptPrefix + digits, SoundPrefix + digits + "." + ext, fileType,
                             BundleExe, 3, 0, 100, 50);
    assert c.fileName[..5] == SoundPrefix;
    c
  }

  /** The clip a successful scan yields before its id is set, or None
      when its extension is unknown or its name is neither music nor
      sound (compared without regard to case). */
  function ClipOfScan(sc: Scanned): (r: Option<ScriptAudioClip>)
    ensures r.Some? ==> WellFormedClip(r.value)
  {
    match FileTypeOf(sc.ext)
    case None => None
    case Some(ft) =>
      if Lower(sc.name) == MusicPrefix then Some(MusicClip(sc.number, sc.ext, ft))
      else if Lower(sc.name) == SoundPrefix then Some(SoundClip(sc.number, sc.ext, ft))
      else None
  }

  /** The clip one asset name yields before its id is set, or None when the
      asset is skipped. */
  function ClipOf(asset: string): (r: Option<ScriptAudioClip>)
    ensures r.Some? ==> WellFormedClip(r.value)
  {
    match ScanAsset(asset)
    case None => None
    case Some(sc) => ClipOfScan(sc)
  }

  function Listed(o: Option<ScriptAudioClip>): (r: seq<ScriptAudioClip>)
    ensures |r| <= 1
  {
    match o
    case None => []
    case Some(c) => [c]
  }

  /** What each asset yields, in asset order. */
  function Outcomes(assets: seq<string>): (r: seq<Option<ScriptAudioClip>>)
    ensures |r| == |assets|
  {
    if |assets| == 0 then [] else Outcomes(assets[..|assets| - 1]) + [ClipOf(assets[|assets| - 1])]
  }

  /** The clips among the outcomes, in order, before their ids are set. */
  function Kept(outcomes: seq<Option<ScriptAudioClip>>): (r: seq<ScriptAudioClip>)
    ensures |r| <= |outcomes|
  {
    if |outcomes| == 0 then [] else Kept(outcomes[..|outcomes| - 1]) + Listed(outcomes[|outcomes| - 1])
  }

  /** The clips with ids counted from n0, as push_back after
      `clip.id = audioclips.size()` leaves them. */
  function Numbered(n0: nat, clips: seq<ScriptAudioClip>): (r: seq<ScriptAudioClip>)
    ensures |r| == |clips|
  {
    seq(|clips|, i requires 0 <= i < |clips| => clips[i].(id := n0 + i))
  }

  function Relabelled(o: Option<ScriptAudioClip>, id: nat): Option<ScriptAudioClip>
  {
    if o.Some? then Some(o.value.(id := id)) else None
  }

  /** The clips appended for `assets` to a table that held n0 clips. */
  function NewClips(n0: nat, assets: seq<string>): (r: seq<ScriptAudioClip>)
    ensures |r| <= |assets|
    ensures forall i | 0 <= i < |r| :: r[i].id == n0 + i
  {
    Numbered(n0, Kept(Outcomes(assets)))
  }

  /** BuildAudioClipArray: every asset that scans, has a known extension
      and is named music or sound appends one well-formed clip, in asset
      order, whose id is its index in the table; nothing else changes. */
  method BuildAudioClipArray(assets: seq<string>, audioclips: seq<ScriptAudioClip>)
    returns (clips: seq<ScriptAudioClip>)
    ensures clips == audioclips + NewClips(|audioclips|, assets)
    ensures forall i | |audioclips| <= i < |clips| :: clips[i].id == i && WellFormedClip(clips[i])
  {
    clips := audioclips;
    var i := 0;
    while i < |assets|
      invariant 0 <= i <= |assets|
      invariant clips == audioclips + NewClips(|audioclips|, assets[..i])
    {
      ghost var outcomes := Outcomes(assets[..i]);
      var next := AppendClip(assets[i], clips);
      AppendKeepsNumbering(audioclips, clips, outcomes, ClipOf(assets[i]), next);
      OutcomesExtend(assets, i);
      clips := next;
      i := i + 1;
    }
    assert assets[..i] == assets;
    NewClipsShape(|audioclips|, assets);
  }

  /** One pass of the BuildAudioClipArray loop. */
  method AppendClip(asset: string, clips: seq<ScriptAudioClip>) returns (r: seq<ScriptAudioClip>)
    ensures r == clips + Listed(Relabelled(ClipOf(asset), |clips|))
  {
    r := clips;
    var scanned := ScanAsset(asset);
    if scanned.None? {
      return;
    }
    var fileType := FileTypeOf(scanned.value.ext);
    if fileType.None? {
      return;
    }
    var name := Lower(scanned.value.name);
    var clip;
    if name == MusicPrefix {
      clip := MusicClip(scanned.value.number, scanned.value.ext, fileType.value);
    } else if name == SoundPrefix {
      clip := SoundClip(scanned.value.number, scanned.value.ext, fileType.value);
    } else {
      return;
    }
    r := clips + [clip.(id := |clips|)];
  }

  // ---------------------------------------------------------------------
  // Properties of the table
  // ---------------------------------------------------------------------

  /** An asset is skipped exactly when the scan fails, when its extension
      is unknown, or when its name is neither music nor sound; a music
      name gives a clip of type 2, a sound name one of type 3. */
  lemma ClipOfSkips(asset: string)
    ensures ClipOf(asset).None? <==>
      || ScanAsset(asset).None?
      || FileTypeOf(ScanAsset(asset).value.ext).None?
      || Lower(ScanAsset(asset).value.name) !in {MusicPrefix, SoundPrefix}
    ensures ClipOf(asset).Some? ==>
      (ClipOf(asset).value.clipType == 2 <==> Lower(ScanAsset(asset).value.name) == MusicPrefix)
  {
  }

  lemma OutcomesExtend(assets: seq<string>, i: nat)
    requires i < |assets|
    ensures Outcomes(assets[..i + 1]) == Outcomes(assets[..i]) + [ClipOf(assets[i])]
  {
    assert assets[..i + 1][..i] == assets[..i];
  }

  /** Appending the clip of one more outcome, with the table size as its
      id, keeps the table equal to the old clips followed by the numbered
      clips of the outcomes so far. */
  lemma AppendKeepsNumbering(audioclips: seq<ScriptAudioClip>, clips: seq<ScriptAudioClip>,
                             outcomes: seq<Option<ScriptAudioClip>>, o: Option<ScriptAudioClip>,
                             next: seq<ScriptAudioClip>)
    requires clips == audioclips + Numbered(|audioclips|, Kept(outcomes))
    requires next == clips + Listed(Relabelled(o, |clips|))
    ensures next == audioclips + Numbered(|audioclips|, Kept(outcomes + [o]))
  {
    var before := Numbered(|audioclips|, Kept(outcomes));
    var added := Listed(Relabelled(o, |clips|));
    assert |clips| == |audioclips| + |Kept(outcomes)|;
    KeptNumberedAppend(|audioclips|, outcomes, o);
    assert Numbered(|audioclips|, Kept(outcomes + [o])) == before + added;
    assert next == (audioclips + before) + added;
    assert (audioclips + before) + added == audioclips + (before + added);
  }

  /** One more outcome considered: a skipped asset adds nothing, an
      accepted one adds its clip with the next index as id. */
  lemma KeptNumberedAppend(n0: nat, outcomes: seq<Option<ScriptAudioClip>>, o: Option<ScriptAudioClip>)
    ensures Numbered(n0, Kept(outcomes + [o])) ==
      Numbered(n0, Kept(outcomes)) + Listed(Relabelled(o, n0 + |Kept(outcomes)|))
  {
    var all := outcomes + [o];
    assert all[..|all| - 1] == outcomes && all[|all| - 1] == o;
    assert Kept(all) == Kept(outcomes) + Listed(o);
    NumberedAppend(n0, Kept(outcomes), o);
  }

  lemma NumberedAppend(n0: nat, clips: seq<ScriptAudioClip>, o: Option<ScriptAudioClip>)
    ensures Numbered(n0, clips + Listed(o)) == Numbered(n0, clips) + Listed(Relabelled(o, n0 + |clips|))
  {
  }

  /** Every outcome that is a clip is a well-formed one. */
  lemma {:induction false} OutcomesWellFormed(assets: seq<string>)
    ensures forall k | 0 <= k < |assets| :: Outcomes(assets)[k].Some? ==> WellFormedClip(Outcomes(assets)[k].value)
  {
    if |assets| > 0 {
      OutcomesWellFormed(assets[..|assets| - 1]);
    }
  }

  /** Kept keeps only clips that were among the outcomes. */
  lemma {:induction false} KeptWellFormed(outcomes: seq<Option<ScriptAudioClip>>)
    requires forall k | 0 <= k < |outcomes| :: outcomes[k].Some? ==> WellFormedClip(outcomes[k].value)
    ensures forall k | 0 <= k < |Kept(outcomes)| :: WellFormedClip(Kept(outcomes)[k])
  {
    if |outcomes| > 0 {
      KeptWellFormed(outcomes[..|outcomes| - 1]);
    }
  }

  /** Every appended clip is well formed and has its index in the table as
      its id. */
  lemma NewClipsShape(n0: nat, assets: seq<string>)
    ensures forall i | 0 <= i < |NewClips(n0, assets)| ::
      NewClips(n0, assets)[i].id == n0 + i && WellFormedClip(NewClips(n0, assets)[i])
  {
    OutcomesWellFormed(assets);
    KeptWellFormed(Outcomes(assets));
  }

  /** Scanning a file name as BuildAudioClipArray formats it gives back the
      prefix, the number and the extension. */
  lemma ScanFormatted(prefix: string, n: int, ext: string)
    requires |prefix| == 5 && forall k | 0 <= k < 5 :: !IsSpace(prefix[k])
    requires 1 <= |ext| <= 3 && forall k | 0 <= k < |ext| :: !IsSpace(ext[k])
    ensures ScanAsset(prefix + IntToString(n) + "." + ext) == Some(Scanned(prefix, n, ext))
  {
    var s := prefix + IntToString(n) + "." + ext;
    var e := 5 + |IntToString(n)|;
    assert s[0..5] == prefix;
    assert s[5..e] == IntToString(n);
    assert s[e] == '.';
    assert s[e + 1..e + 1 + |ext|] == ext;
    ScanStringExactly(s, 0, 5, 5);
    ScanIntFormatted(s, n);
    ScanStringExactly(s, e + 1, 3, |ext|);
    assert ScanString(s, 0, 5) == Some((prefix, 5));
    assert ScanString(s, e + 1, 3) == Some((ext, |s|));
    ScanAssetOf(s, prefix, 5, n, e, ext, |s|);
  }

  /** The three conversions succeeding in turn, with the '.' between the
      number and the extension, make the scan succeed with their values. */
  lemma ScanAssetOf(s: string, name: string, b: nat, n: int, e: nat, ext: string, end: nat)
    requires ScanString(s, 0, 5) == Some((name, b)) && b <= |s|
    requires ScanInt(s, b) == Some((n, e))
    requires e < |s| && s[e] == '.'
    requires ScanString(s, e + 1, 3) == Some((ext, end)) && end <= |s|
    ensures ScanAsset(s) == Some(Scanned(name, n, ext))
  {
    ScanNameStep(s);
    ScanNumberStep(s, b);
    ScanExtensionStep(s, e);
  }

  /** A "%<width>s" conversion that starts on a non-space and ends at the
      end of its run or at the width takes exactly that run. */
  lemma ScanStringExactly(s: string, i: nat, width: nat, m: nat)
    requires i + m <= |s| && 1 <= m <= width
    requires forall k | i <= k < i + m :: !IsSpace(s[k])
    requires i + m < |s| && m < width ==> IsSpace(s[i + m])
    ensures ScanString(s, i, width) == Some((s[i..i + m], i + m))
  {
    assert SkipSpace(s, i) == i;
    TakeNonSpaceRun(s, i, width);
  }

  /** A "%d" conversion on what IntToString printed, followed by a '.',
      reads the number back. */
  lemma ScanIntFormatted(s: string, n: int)
    requires |s| > 5 + |IntToString(n)|
    requires s[5..5 + |IntToString(n)|] == IntToString(n) && s[5 + |IntToString(n)|] == '.'
    ensures ScanInt(s, 5) == Some((n, 5 + |IntToString(n)|))
  {
    var digits := NatToString(if n < 0 then -n else n);
    var d := if n < 0 then 6 else 5;
    var e := 5 + |IntToString(n)|;
    var str := IntToString(n);
    assert s[5..e] == str;
    if n < 0 {
      assert str == "-" + digits && str[1..] == digits;
      assert s[5] == str[0] == '-';
      assert s[d..e] == s[5..e][1..];
    } else {
      assert str == digits;
      assert s[5] == digits[0];
      assert IsDigit(s[5]);
    }
    assert s[d..e] == digits;
    assert forall k | d <= k < e :: s[k] == digits[k - d];
    assert forall k | d <= k < e :: IsDigit(s[k]);
    assert SkipSpace(s, 5) == 5;
    TakeDigitsExactly(s, d, e);
    NatToStringValue(if n < 0 then -n else n);
    assert DigitsValue(s[d..e]) == if n < 0 then -n else n;
  }

  lemma TakeDigitsExactly(s: string, i: nat, j: nat)
    requires i <= j < |s|
    requires forall k | i <= k < j :: IsDigit(s[k])
    requires !IsDigit(s[j])
    ensures TakeDigits(s, i) == j
  {
    TakeDigitsRun(s, i);
  }

  /** Reading back the digits %d printed gives the number. */
  lemma {:induction false} NatToStringValue(n: nat)
    ensures DigitsValue(NatToString(n)) == n
  {
    if n >= 10 {
      var s := NatToString(n);
      assert s[..|s| - 1] == NatToString(n / 10);
      NatToStringValue(n / 10);
    }
  }

  /** The file name of a clip is a normal form of its asset name: building
      the clip again from the file name gives the same clip. */
  lemma RebuildFromFileName(asset: string)
    requires ClipOf(asset).Some?
    ensures ClipOf(ClipOf(asset).value.fileName) == ClipOf(asset)
  {
    var sc := ScanAsset(asset).value;
    ScanAssetShape(asset);
    var prefix := Lower(sc.name);
    var fileName := ClipOfScan(sc).value.fileName;
    FileNameOfScan(sc);
    PrefixIsLowerWord(prefix);
    ScanFormatted(prefix, sc.number, sc.ext);
    SameClipForSameLowerName(sc, prefix);
  }

  /** The two prefixes are five lower-case letters. */
  lemma PrefixIsLowerWord(prefix: string)
    requires prefix in {MusicPrefix, SoundPrefix}
    ensures |prefix| == 5 && Lower(prefix) == prefix
    ensures forall k | 0 <= k < 5 :: !IsSpace(prefix[k])
  {
    assert forall k | 0 <= k < 5 :: 'a' <= prefix[k] <= 'z';
  }

  /** A clip's file name is the lower-case prefix, the number as %d prints
      it, a '.' and the extension as scanned. */
  lemma FileNameOfScan(sc: Scanned)
    requires ClipOfScan(sc).Some?
    ensures Lower(sc.name) in {MusicPrefix, SoundPrefix}
    ensures ClipOfScan(sc).value.fileName == Lower(sc.name) + IntToString(sc.number) + "." + sc.ext
  {
  }

  /** The name is compared without regard to case, so a name that lowers
      to the same prefix yields the same clip. */
  lemma SameClipForSameLowerName(sc: Scanned, name: string)
    requires Lower(name) == Lower(sc.name)
    ensures ClipOfScan(sc.(name := name)) == ClipOfScan(sc)
  {
  }
}
