/**
  The upgrade steps UpdateGameData applies to a loaded game
  (engines/ags/shared/game/main_game_file.cpp): old mouse cursors get the
  "no view" value -1 in place of view 0, the empty global message slots
  983 to 996 get their default texts, and three game options are set or
  converted according to the data version.

  The option indices OPT_GLOBALTALKANIMSPD, OPT_DIALOGOPTIONSAPI and
  OPT_RELATIVEASSETRES are defined in a header outside this model; they
  enter as `OptionIndices`, three distinct valid indices.
*/
module AgsGameSetup {

  import opened Wrappers
  import opened AgsMainGameFile

  datatype MouseCursor = MouseCursor(pic: int, hotX: int, hotY: int, view: int, name: string, flags: int)

  // ---------------------------------------------------------------------
  // Mouse cursors
  // ---------------------------------------------------------------------

  /** A cursor without animation had view 0 before 2.7.2; now that is -1. */
  function UpgradedCursor(c: MouseCursor): MouseCursor
  {
    if c.view == 0 then c.(view := -1) else c
  }

  /** The cursor table after the first n cursors are upgraded. */
  function UpgradedCursors(cursors: seq<MouseCursor>, n: int): (r: seq<MouseCursor>)
    ensures |r| == |cursors|
    ensures forall i | 0 <= i < |r| && i < n :: r[i].view != 0
    ensures forall i | 0 <= i < |r| && n <= i :: r[i] == cursors[i]
  {
    seq(|cursors|, i requires 0 <= i < |cursors| => if i < n then UpgradedCursor(cursors[i]) else cursors[i])
  }

  /** After the upgrade none of the first n cursors has view 0; a cursor
      changes only when it had view 0 and is among the first n, and then
      only its view changes, to -1. */
  lemma UpgradedCursorsMeaning(cursors: seq<MouseCursor>, n: int)
    ensures forall i | 0 <= i < |cursors| && i < n :: UpgradedCursors(cursors, n)[i].view != 0
    ensures forall i | 0 <= i < |cursors| ::
      UpgradedCursors(cursors, n)[i] ==
        if i < n && cursors[i].view == 0 then cursors[i].(view := -1) else cursors[i]
  {
  }

  /** Upgrading twice is upgrading once. */
  lemma UpgradedCursorsIdempotent(cursors: seq<MouseCursor>, n: int)
    ensures UpgradedCursors(UpgradedCursors(cursors, n), n) == UpgradedCursors(cursors, n)
  {
  }

  // ---------------------------------------------------------------------
  // Global messages
  // ---------------------------------------------------------------------

  /** Slot k after SetDefaultGlmsg gives it the text val: written only when
      it is empty. */
  function WithDefault(messages: seq<string>, k: nat, val: string): (r: seq<string>)
    requires k < |messages|
    ensures |r| == |messages|
    ensures messages[k] != "" ==> r == messages
    ensures r[k] == "" ==> val == ""
  {
    if messages[k] == "" then messages[k := val] else messages
  }

  /** SetDefaultGlmsg fills an empty slot and leaves a non-empty one and
      every other slot alone; a second call changes nothing. */
  lemma WithDefaultMeaning(messages: seq<string>, k: nat, val: string)
    requires k < |messages|
    ensures |WithDefault(messages, k, val)| == |messages|
    ensures WithDefault(messages, k, val)[k] == if messages[k] == "" then val else messages[k]
    ensures forall j | 0 <= j < |messages| && j != k :: WithDefault(messages, k, val)[j] == messages[j]
    ensures WithDefault(WithDefault(messages, k, val), k, val) == WithDefault(messages, k, val)
  {
  }

  const MsgSorryNotNow: string := "Sorry, not now."
  const MsgRestore: string := "Restore"
  const MsgCancel: string := "Cancel"
  const MsgSelectRestore: string := "Select a game to restore:"
  const MsgSave: string := "Save"
  const MsgTypeSaveName: string := "Type a name to save as:"
  const MsgReplace: string := "Replace"
  const MsgSaveDirFull: string := "The save directory is full. You must replace an existing game:"
  const MsgReplaceWhat: string := "Replace:"
  const MsgWith: string := "With:"
  const MsgQuit: string := "Quit"
  const MsgPlay: string := "Play"
  const MsgQuitSure: string := "Are you sure you want to quit?"
  const MsgCarryingNothing: string := "You are carrying nothing."

  /** The default text of global message msgnum, if it has one. */
  function DefaultGlobalMessage(msgnum: int): (r: Option<string>)
    ensures r.Some? <==> 983 <= msgnum <= 996
    ensures r.Some? ==> r.value != ""
  {
    if msgnum == 983 then Some(MsgSorryNotNow)
    else if msgnum == 984 then Some(MsgRestore)
    else if msgnum == 985 then Some(MsgCancel)
    else if msgnum == 986 then Some(MsgSelectRestore)
    else if msgnum == 987 then Some(MsgSave)
    else if msgnum == 988 then Some(MsgTypeSaveName)
    else if msgnum == 989 then Some(MsgReplace)
    else if msgnum == 990 then Some(MsgSaveDirFull)
    else if msgnum == 991 then Some(MsgReplaceWhat)
    else if msgnum == 992 then Some(MsgWith)
    else if msgnum == 993 then Some(MsgQuit)
    else if msgnum == 994 then Some(MsgPlay)
    else if msgnum == 995 then Some(MsgQuitSure)
    else if msgnum == 996 then Some(MsgCarryingNothing)
    else None
  }

  /** The message table after SetDefaultGlobalMessages: slot k holds
      message k + 500, and an empty slot with a default text gets it. */
  function Defaulted(messages: seq<string>): (r: seq<string>)
    ensures |r| == |messages|
    ensures forall k | 0 <= k < |r| && messages[k] != "" :: r[k] == messages[k]
  {
    seq(|messages|, k requires 0 <= k < |messages| =>
      if messages[k] == "" && DefaultGlobalMessage(k + 500).Some? then DefaultGlobalMessage(k + 500).value
      else messages[k])
  }

  /** The message table after the SetDefaultGlmsg calls for 983 up to
      `last`. */
  function DefaultedUpTo(messages: seq<string>, last: int): (r: seq<string>)
    ensures |r| == |messages|
  {
    seq(|messages|, k requires 0 <= k < |messages| =>
      if messages[k] == "" && k + 500 <= last && DefaultGlobalMessage(k + 500).Some? then DefaultGlobalMessage(k + 500).value
      else messages[k])
  }

  /** The call for message n takes the table from the calls up to n - 1 to
      the table from the calls up to n. */
  lemma DefaultedStep(messages: seq<string>, n: int)
    requires 983 <= n <= 996 && n - 500 < |messages|
    ensures DefaultedUpTo(messages, n) ==
      WithDefault(DefaultedUpTo(messages, n - 1), n - 500, DefaultGlobalMessage(n).value)
  {
  }

  lemma DefaultedEnds(messages: seq<string>)
    ensures DefaultedUpTo(messages, 982) == messages
    ensures DefaultedUpTo(messages, 996) == Defaulted(messages)
  {
  }

  /** Defaulting never overwrites a message, fills every empty slot from
      483 to 496, touches no slot outside that range, and is idempotent. */
  lemma DefaultedMeaning(messages: seq<string>)
    ensures forall k | 0 <= k < |messages| && messages[k] != "" :: Defaulted(messages)[k] == messages[k]
    ensures forall k | 483 <= k <= 496 && k < |messages| :: Defaulted(messages)[k] != ""
    ensures forall k | 0 <= k < |messages| && !(483 <= k <= 496) :: Defaulted(messages)[k] == messages[k]
    ensures Defaulted(Defaulted(messages)) == Defaulted(messages)
  {
  }

  // ---------------------------------------------------------------------
  // Game options
  // ---------------------------------------------------------------------

  /** The positions of OPT_GLOBALTALKANIMSPD, OPT_DIALOGOPTIONSAPI and
      OPT_RELATIVEASSETRES in game.options. */
  datatype OptionIndices = OptionIndices(globalTalkAnimSpeed: nat, dialogOptionsApi: nat, relativeAssetRes: nat)
  {
    predicate ValidFor(count: nat)
    {
      && globalTalkAnimSpeed < count && dialogOptionsApi < count && relativeAssetRes < count
      && globalTalkAnimSpeed != dialogOptionsApi && globalTalkAnimSpeed != relativeAssetRes
      && dialogOptionsApi != relativeAssetRes
    }
  }

  /** The global talk animation speed after the upgrade: 5 before 3.1.2;
      from 3.1.2 up to 3.3.0 the old on/off value becomes 5 or -6. */
  function TalkAnimSpeedAfter(vs: Versions, dataVer: int, speed: int): int
  {
    if dataVer < vs.v312 then 5
    else if dataVer < vs.v330 then (if speed != 0 then 5 else -5 - 1)
    else speed
  }

  /** The options array after the rules UpdateGameData applies. */
  function UpdatedOptions(vs: Versions, dataVer: int, idx: OptionIndices, options: seq<int>): (r: seq<int>)
    requires idx.ValidFor(|options|)
    ensures |r| == |options|
    ensures dataVer < vs.v350 ==> r[idx.relativeAssetRes] == 1
    ensures dataVer >= vs.v340_2 ==> r[idx.dialogOptionsApi] == options[idx.dialogOptionsApi]
  {
    var talk := options[idx.globalTalkAnimSpeed := TalkAnimSpeedAfter(vs, dataVer, options[idx.globalTalkAnimSpeed])];
    var dialog := if dataVer < vs.v340_2 then talk[idx.dialogOptionsApi := -1] else talk;
    if dataVer < vs.v350 then dialog[idx.relativeAssetRes := 1] else dialog
  }

  /** The three options get their version's values and no other option
      changes; a game older than 3.3.0 ends up with talk speed 5 or -6,
      and exactly the 3.1.2 to 3.3.0 games with speed 0 get -6. */
  lemma UpdatedOptionsMeaning(vs: Versions, dataVer: int, idx: OptionIndices, options: seq<int>)
    requires vs.Ordered() && idx.ValidFor(|options|)
    ensures var r := UpdatedOptions(vs, dataVer, idx, options);
      && r[idx.dialogOptionsApi] == (if dataVer < vs.v340_2 then -1 else options[idx.dialogOptionsApi])
      && r[idx.relativeAssetRes] == (if dataVer < vs.v350 then 1 else options[idx.relativeAssetRes])
      && (dataVer < vs.v330 ==> r[idx.globalTalkAnimSpeed] in {5, -6})
      && (r[idx.globalTalkAnimSpeed] == -6 && dataVer < vs.v330 <==>
            vs.v312 <= dataVer < vs.v330 && options[idx.globalTalkAnimSpeed] == 0)
      && (dataVer >= vs.v330 ==> r[idx.globalTalkAnimSpeed] == options[idx.globalTalkAnimSpeed])
      && forall j | 0 <= j < |options| && j !in {idx.globalTalkAnimSpeed, idx.dialogOptionsApi, idx.relativeAssetRes} ::
           r[j] == options[j]
  {
  }

  // ---------------------------------------------------------------------
  // The game struct
  // ---------------------------------------------------------------------

  /** The parts of GameSetupStruct the upgrade steps touch. The functions
      read the global game object; the loader's entities refer to that same
      object, so one GameSetup stands for both. */
  class GameSetup {
    var numCursors: int
    const mcurs: array<MouseCursor>
    const messages: array<string>
    const options: array<int>

    constructor (numCursors: int, cursors: seq<MouseCursor>, messages: seq<string>, options: seq<int>)
      ensures this.numCursors == numCursors
      ensures this.mcurs[..] == cursors && this.messages[..] == messages && this.options[..] == options
      ensures fresh(this.mcurs) && fresh(this.messages) && fresh(this.options)
    {
      this.numCursors := numCursors;
      this.mcurs := new MouseCursor[|cursors|](i requires 0 <= i < |cursors| => cursors[i]);
      this.messages := new string[|messages|](i requires 0 <= i < |messages| => messages[i]);
      this.options := new int[|options|](i requires 0 <= i < |options| => options[i]);
    }

    /** UpgradeMouseCursors: up to 2.7.2 the first numcursors cursors with
        view 0 get view -1. */
    method UpgradeMouseCursors(vs: Versions, dataVer: int)
      requires numCursors <= mcurs.Length
      modifies mcurs
      ensures mcurs[..] == if dataVer <= vs.v272 then UpgradedCursors(old(mcurs[..]), numCursors) else old(mcurs[..])
    {
      if dataVer <= vs.v272 {
        var i := 0;
        while i < numCursors
          invariant 0 <= i <= mcurs.Length && (i <= numCursors || i == 0)
          invariant mcurs[..] == UpgradedCursors(old(mcurs[..]), i)
        {
          if mcurs[i].view == 0 {
            mcurs[i] := mcurs[i].(view := -1);
          }
          i := i + 1;
        }
        assert UpgradedCursors(old(mcurs[..]), i) == UpgradedCursors(old(mcurs[..]), numCursors);
      }
    }

    /** SetDefaultGlmsg: message msgnum lives in slot msgnum - 500, and is
        written only when that slot is empty. */
    method SetDefaultGlmsg(msgnum: int, val: string)
      requires 500 <= msgnum < 500 + messages.Length
      modifies messages
      ensures messages[..] == WithDefault(old(messages[..]), msgnum - 500, val)
    {
      var k := msgnum - 500;
      if messages[k] == "" {
        messages[k] := val;
      }
    }

    /** SetDefaultGlobalMessages: messages 983 to 996 get their default
        texts where they are empty. */
    method SetDefaultGlobalMessages()
      requires messages.Length > 496
      modifies messages
      ensures messages[..] == Defaulted(old(messages[..]))
    {
      ghost var m := messages[..];
      DefaultedEnds(m);
      DefaultedStep(m, 983);
      SetDefaultGlmsg(983, MsgSorryNotNow);
      DefaultedStep(m, 984);
      SetDefaultGlmsg(984, MsgRestore);
      DefaultedStep(m, 985);
      SetDefaultGlmsg(985, MsgCancel);
      DefaultedStep(m, 986);
      SetDefaultGlmsg(986, MsgSelectRestore);
      DefaultedStep(m, 987);
      SetDefaultGlmsg(987, MsgSave);
      DefaultedStep(m, 988);
      SetDefaultGlmsg(988, MsgTypeSaveName);
      DefaultedStep(m, 989);
      SetDefaultGlmsg(989, MsgReplace);
      DefaultedStep(m, 990);
      SetDefaultGlmsg(990, MsgSaveDirFull);
      DefaultedStep(m, 991);
      SetDefaultGlmsg(991, MsgReplaceWhat);
      DefaultedStep(m, 992);
      SetDefaultGlmsg(992, MsgWith);
      DefaultedStep(m, 993);
      SetDefaultGlmsg(993, MsgQuit);
      DefaultedStep(m, 994);
      SetDefaultGlmsg(994, MsgPlay);
      DefaultedStep(m, 995);
      SetDefaultGlmsg(995, MsgQuitSure);
      DefaultedStep(m, 996);
      SetDefaultGlmsg(996, MsgCarryingNothing);
    }

    /** The cursor, message and option steps of UpdateGameData. */
    method UpdateGameData(vs: Versions, dataVer: int, idx: OptionIndices)
      requires vs.Ordered()
      requires numCursors <= mcurs.Length && messages.Length > 496 && idx.ValidFor(options.Length)
      modifies mcurs, messages, options
      ensures mcurs[..] == if dataVer <= vs.v272 then UpgradedCursors(old(mcurs[..]), numCursors) else old(mcurs[..])
      ensures messages[..] == Defaulted(old(messages[..]))
      ensures options[..] == UpdatedOptions(vs, dataVer, idx, old(options[..]))
    {
      UpgradeMouseCursors(vs, dataVer);
      SetDefaultGlobalMessages();
      var talk := idx.globalTalkAnimSpeed;
      if dataVer < vs.v312 {
        options[talk] := 5;
      } else if dataVer < vs.v330 {
        options[talk] := if options[talk] != 0 then 5 else -5 - 1;
      }
      if dataVer < vs.v340_2 {
        options[idx.dialogOptionsApi] := -1;
      }
      if dataVer < vs.v350 {
        options[idx.relativeAssetRes] := 1;
      }
    }
  }
}
