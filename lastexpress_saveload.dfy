/**
  SaveLoad helpers (engines/lastexpress/game/savegame.cpp): the mapping of
  a save slot to its file name, the lookup of an entry header, the test for
  a savegame recorded at a game ending, and the 16-byte padding of entries.
*/
module LastExpressSaveLoad {

  import opened Wrappers
  import opened LastExpressCodec
  import opened LastExpressStream

  /** kMaximumSaveSlots */
  const MaximumSaveSlots: nat := 6

  /** gameLabel, one colour per slot. */
  const GameLabels: seq<string> := ["blue", "red", "green", "purple", "teal", "gold"]

  /** The errors the helpers raise. */
  datatype SaveLoadError = InvalidGameId(id: int) | InvalidEntryIndex(index: nat)

  /** The savegame types named in this file; their codes live in a header
      outside this model. */
  datatype SavegameType =
    | SavegameTypeIndex | SavegameTypeTime | SavegameTypeEvent
    | SavegameTypeEvent2 | SavegameTypeAuto | SavegameTypeTickInterval

  /** The part of an entry header isGameFinished looks at; value holds the
      event index for event entries. */
  datatype EntryHeader = EntryHeader(entryType: SavegameType, value: nat)

  /** The events isGameFinished treats as game endings. Their numeric
      values live in a header outside this model, so isGameFinished takes
      the mapping from event to value as a parameter. */
  datatype EndingEvent =
    | AnnaKilled | KronosHostageAnnaNoFirebird | KahinaPunchBaggageCarEntrance
    | KahinaPunchBlue | KahinaPunchYellow | KahinaPunchSalon | KahinaPunchKitchen
    | KahinaPunchBaggageCar | KahinaPunchCar | KahinaPunchSuite4 | KahinaPunchRestaurant
    | KahinaPunch | KronosGiveFirebird | AugustFindCorpse | MertensBloodJacket
    | MertensCorpseFloor | MertensCorpseBed | CoudertBloodJacket | GendarmesArrestation
    | AbbotDrinkGiveDetonator | MilosCorpseFloor | LocomotiveAnnaStopsTrain | TrainStopped
    | CathVesnaRestaurantKilled | CathVesnaTrainTopKilled | LocomotiveConductorsDiscovered
    | ViennaAugustUnloadGuns | ViennaKronosFirebird | VergesAnnaDead | TrainExplosionBridge
    | KronosBringNothing

  /** The events in the order isGameFinished tests them. */
  const EndingEvents: seq<EndingEvent> := [
    AnnaKilled, KronosHostageAnnaNoFirebird, KahinaPunchBaggageCarEntrance,
    KahinaPunchBlue, KahinaPunchYellow, KahinaPunchSalon, KahinaPunchKitchen,
    KahinaPunchBaggageCar, KahinaPunchCar, KahinaPunchSuite4, KahinaPunchRestaurant,
    KahinaPunch, KronosGiveFirebird, AugustFindCorpse, MertensBloodJacket,
    MertensCorpseFloor, MertensCorpseBed, CoudertBloodJacket, GendarmesArrestation,
    AbbotDrinkGiveDetonator, MilosCorpseFloor, LocomotiveAnnaStopsTrain, TrainStopped,
    CathVesnaRestaurantKilled, CathVesnaTrainTopKilled, LocomotiveConductorsDiscovered,
    ViennaAugustUnloadGuns, ViennaKronosFirebird, VergesAnnaDead, TrainExplosionBridge,
    KronosBringNothing]

  // ---------------------------------------------------------------------
  // getFilename
  // ---------------------------------------------------------------------

  /** getFilename: fails for an id outside the slots, otherwise the target,
      a dash, the slot's colour and the ".egg" extension. */
  function GetFilename(target: string, id: int): (r: Result<string, SaveLoadError>)
    ensures r.Err? <==> !(0 <= id < MaximumSaveSlots)
    ensures r.Err? ==> r.error == InvalidGameId(id)
    ensures r.Ok? ==> |r.value| == |target| + 1 + |GameLabels[id]| + 4
  {
    if id < 0 || id >= MaximumSaveSlots then Err(InvalidGameId(id))
    else Ok(target + "-" + GameLabels[id] + ".egg")
  }

  /** The pieces of a file name: the target in front, the colour between the
      dash and the extension; the dash is the last one before the extension,
      since no colour has one. */
  lemma FilenameParts(target: string, id: int)
    requires 0 <= id < MaximumSaveSlots
    ensures var name := GetFilename(target, id).value;
      && name[..|target|] == target
      && name[|target|] == '-'
      && name[|target| + 1..|name| - 4] == GameLabels[id]
      && name[|name| - 4..] == ".egg"
      && forall k | |target| < k < |name| - 4 :: name[k] != '-'
  {
    var name := GetFilename(target, id).value;
    var colour := GameLabels[id];
    assert name == target + ("-" + colour + ".egg");
    assert name[|target| + 1..] == colour + ".egg";
    assert name[|target| + 1..|name| - 4] == (colour + ".egg")[..|colour|];
    forall k | |target| < k < |name| - 4 ensures name[k] != '-' {
      assert name[k] == colour[k - |target| - 1];
    }
  }

  /** The colours are pairwise different. */
  lemma LabelsDistinct(i: nat, j: nat)
    requires i < MaximumSaveSlots && j < MaximumSaveSlots && i != j
    ensures GameLabels[i] != GameLabels[j]
  {
    assert GameLabels[i][0] != GameLabels[j][0] || |GameLabels[i]| != |GameLabels[j]|;
  }

  /** Different slots of one target get different files, and one slot of
      different targets too: getFilename is injective in both arguments. */
  lemma FilenameInjective(t1: string, id1: int, t2: string, id2: int)
    requires GetFilename(t1, id1).Ok? && GetFilename(t2, id2).Ok?
    requires GetFilename(t1, id1).value == GetFilename(t2, id2).value
    ensures t1 == t2 && id1 == id2
  {
    var name := GetFilename(t1, id1).value;
    FilenameParts(t1, id1);
    FilenameParts(t2, id2);
    if |t1| < |t2| {
      assert false;
    } else if |t2| < |t1| {
      assert false;
    }
    assert t1 == name[..|t1|] == t2;
    if id1 != id2 {
      LabelsDistinct(id1, id2);
    }
  }

  // ---------------------------------------------------------------------
  // getEntry and isGameFinished
  // ---------------------------------------------------------------------

  /** getEntry: the header at index, or an error past the end. */
  function GetEntry(headers: seq<EntryHeader>, index: nat): (r: Result<EntryHeader, SaveLoadError>)
    ensures r.Err? <==> index >= |headers|
    ensures r.Err? ==> r.error == InvalidEntryIndex(index)
    ensures r.Ok? ==> index < |headers| && r.value == headers[index]
  {
    if index >= |headers| then Err(InvalidEntryIndex(index)) else Ok(headers[index])
  }

  /** Every header in the list is the entry of some index, and the entry
      of an index is never found at another position unless the two
      headers are equal. */
  lemma GetEntryReachesEvery(headers: seq<EntryHeader>)
    ensures forall h | h in headers :: exists i | 0 <= i < |headers| :: GetEntry(headers, i) == Ok(h)
    ensures forall i, j | 0 <= i < |headers| && 0 <= j < |headers| ::
      GetEntry(headers, i) == GetEntry(headers, j) <==> headers[i] == headers[j]
  {
    forall h | h in headers
      ensures exists i | 0 <= i < |headers| :: GetEntry(headers, i) == Ok(h)
    {
      var i :| 0 <= i < |headers| && headers[i] == h;
      assert GetEntry(headers, i) == Ok(h);
    }
  }

  /** Whether value is the code of one of events, tested in order. */
  function AnyEventMatches(events: seq<EndingEvent>, code: EndingEvent -> nat, value: nat): (b: bool)
    ensures b <==> exists i | 0 <= i < |events| :: code(events[i]) == value
  {
    if |events| == 0 then false
    else code(events[0]) == value || AnyEventMatches(events[1..], code, value)
  }

  /** isGameFinished: the entry is looked up first (so a bad menu index is
      an error even when the indices differ); the answer is true only for
      the selected savegame when its entry records an ending event. */
  function IsGameFinished(headers: seq<EntryHeader>, menuIndex: nat, savegameIndex: nat,
                          code: EndingEvent -> nat): (r: Result<bool, SaveLoadError>)
    ensures r.Err? <==> menuIndex >= |headers|
  {
    match GetEntry(headers, menuIndex)
    case Err(e) => Err(e)
    case Ok(entry) =>
      if savegameIndex != menuIndex then Ok(false)
      else if entry.entryType != SavegameTypeEvent then Ok(false)
      else Ok(AnyEventMatches(EndingEvents, code, entry.value))
  }

  /** isGameFinished answers true exactly for the selected savegame whose
      entry is an event entry recording one of the ending events. */
  lemma IsGameFinishedMeaning(headers: seq<EntryHeader>, menuIndex: nat, savegameIndex: nat,
                              code: EndingEvent -> nat)
    requires menuIndex < |headers|
    ensures IsGameFinished(headers, menuIndex, savegameIndex, code) == Ok(true) <==>
      && savegameIndex == menuIndex
      && headers[menuIndex].entryType == SavegameTypeEvent
      && exists e | e in EndingEvents :: code(e) == headers[menuIndex].value
  {
    var v := headers[menuIndex].value;
    if exists e | e in EndingEvents :: code(e) == v {
      var e :| e in EndingEvents && code(e) == v;
      var i :| 0 <= i < |EndingEvents| && EndingEvents[i] == e;
      assert code(EndingEvents[i]) == v;
    }
  }

  /** Every one of the named events ends the game. */
  lemma EveryEndingEventFinishes(headers: seq<EntryHeader>, index: nat, code: EndingEvent -> nat, e: EndingEvent)
    requires index < |headers| && headers[index] == EntryHeader(SavegameTypeEvent, code(e))
    ensures IsGameFinished(headers, index, index, code) == Ok(true)
  {
    assert e in EndingEvents;
    var i :| 0 <= i < |EndingEvents| && EndingEvents[i] == e;
    assert code(EndingEvents[i]) == code(e);
  }

  // ---------------------------------------------------------------------
  // Entry padding
  // ---------------------------------------------------------------------

  const Uint32Modulus: nat := 0x1_0000_0000

  /** (uint32)a - b in C++: the difference wraps modulo 2^32. */
  function Uint32Sub(a: nat, b: nat): (r: nat)
    ensures r < Uint32Modulus
    ensures b <= a < b + Uint32Modulus ==> r == a - b
  {
    (a - b) % Uint32Modulus
  }

  /** How many bytes readEntry skips after an entry of `offset` bytes:
      16 - (offset & 0xF) when the offset is not aligned, none otherwise. */
  function ReadSkip(offset: nat): (n: nat)
    ensures n < 16
    ensures (offset + n) % 16 == 0
    ensures offset % 16 == 0 <==> n == 0
  {
    if offset % 16 != 0 then 16 - offset % 16 else 0
  }

  /** Adding a multiple of 16 keeps the residue modulo 16. */
  lemma {:induction false} AddSixteens(a: nat, m: nat)
    ensures (a + m * 16) % 16 == a % 16
  {
    if m > 0 {
      AddSixteens(a, m - 1);
      assert a + m * 16 == (a + (m - 1) * 16) + 16;
    }
  }

  /** Reduction modulo 2^32 keeps the residue modulo 16. */
  lemma Uint32Residue(x: nat)
    ensures (x % Uint32Modulus) % 16 == x % 16
  {
    var q, r := x / Uint32Modulus, x % Uint32Modulus;
    assert x == r + (q * 0x1000_0000) * 16;
    AddSixteens(r, q * 0x1000_0000);
  }

  /** Counting up from offset, the first multiple of 16 is ReadSkip(offset) away. */
  lemma FirstAligned(offset: nat, w: nat)
    requires w <= ReadSkip(offset) && (offset + w) % 16 == 0
    ensures w == ReadSkip(offset)
  {
  }

  /** One more pass of the padding loop stays within the padding and keeps
      the uint32 offset in step with the count. */
  lemma PadStep(offset0: nat, written: nat, offset: nat)
    requires written <= ReadSkip(offset0) && offset == (offset0 + written) % Uint32Modulus
    requires offset % 16 != 0
    ensures written + 1 <= ReadSkip(offset0)
    ensures (offset + 1) % Uint32Modulus == (offset0 + written + 1) % Uint32Modulus
  {
    Uint32Residue(offset0 + written);
  }

  /** The padding written so far grows by one zero byte. */
  lemma ZerosStep(d: seq<byte>, p: nat, w: nat)
    requires p <= |d|
    ensures Overwrite(Overwrite(d, p, seq(w, _ => 0)), p + w, [0]) == Overwrite(d, p, seq(w + 1, _ => 0))
  {
    OverwriteTwice(d, p, seq(w, _ => 0), [0]);
    assert seq(w, _ => 0) + [0] == seq(w + 1, _ => 0);
  }

  /** writeByte(0) with compression switched off. */
  method WriteZero(s: SavegameStream)
    requires s.Valid() && !s.enableCompression
    modifies s, s.buffer
    ensures s.Valid() && !s.enableCompression
    ensures s.data == Overwrite(old(s.data), old(s.pos), [0]) && s.pos == old(s.pos) + 1
  {
    var r := s.Write([0]);
  }

  /** writeEntry's padding loop: a zero byte is written and the uint32
      header.offset incremented while it is not a multiple of 16. The
      stream has compression switched off at that point. offset0 is the
      size of the entry body as writeEntry computes it before the loop:
      the stream position, cast to uint32, less the entry's start plus the
      32-byte header. */
  method WritePadding(s: SavegameStream, offset0: nat) returns (offset: nat, ghost written: nat)
    requires s.Valid() && !s.enableCompression && offset0 < Uint32Modulus
    modifies s, s.buffer
    ensures s.Valid() && !s.enableCompression
    ensures offset % 16 == 0 && offset < Uint32Modulus
    ensures written == ReadSkip(offset0) && offset == (offset0 + written) % Uint32Modulus
    ensures s.data == Overwrite(old(s.data), old(s.pos), seq(written, _ => 0))
    ensures s.pos == old(s.pos) + written
  {
    ghost var d0, p0 := s.data, s.pos;
    offset, written := offset0, 0;
    OverwriteNothing(d0, p0);
    assert seq(0, _ => 0) == [];
    while offset % 16 != 0
      invariant s.Valid() && !s.enableCompression
      invariant written <= ReadSkip(offset0) && offset == (offset0 + written) % Uint32Modulus
      invariant s.data == Overwrite(d0, p0, seq(written, _ => 0)) && s.pos == p0 + written
      decreases ReadSkip(offset0) - written
    {
      PadStep(offset0, written, offset);
      ZerosStep(d0, p0, written);
      WriteZero(s);
      offset := (offset + 1) % Uint32Modulus;
      written := written + 1;
    }
    Uint32Residue(offset0 + written);
    FirstAligned(offset0, written);
  }

  /** readEntry's padding skip: the distance from where the entry data
      started is taken as a uint32, and the stream moves forward to the
      next multiple of 16. The memory stream demands that the target
      position lies inside it. */
  method SkipPadding(s: SavegameStream, originalPosition: nat) returns (skipped: nat)
    requires s.Valid() && s.pos + ReadSkip(Uint32Sub(s.pos, originalPosition)) <= |s.data|
    modifies s`pos
    ensures s.Valid() && s.data == old(s.data)
    ensures skipped == ReadSkip(Uint32Sub(old(s.pos), originalPosition))
    ensures s.pos == old(s.pos) + skipped
  {
    var offset := Uint32Sub(s.pos, originalPosition);
    skipped := 0;
    if offset % 16 != 0 {
      skipped := 16 - offset % 16;
      s.SeekCur(skipped);
    }
  }

}
