/** The per-quiz save-slot store of src/hooks/useSaveSystem.ts: one optional
    autosave slot, a capped number of named manual slots, lookups by id, and the
    guarded start of periodic autosaving. The browser storage the hook mirrors its
    list into is not modelled; what a read of that storage returns is passed in
    as a `StoredSaves` value. Fresh slot ids and the clock are parameters. */
module SaveSystem {
  import opened Base
  import opened QuizTypes

  datatype SaveSlot = SaveSlot(
    id: string,
    state: QuizState,
    timestamp: int,
    name: string,
    isAutosave: bool)

  /** What reading `quiz-{quizId}-saves` gives: no entry (or an empty string),
      text that does not parse as a list of slots, or a list of slots. */
  datatype StoredSaves = NoEntry | Unreadable | Entries(slots: seq<SaveSlot>)

  const AutosaveName: string := "Autosave"

  predicate IsAutosaveSlot(s: SaveSlot) { s.isAutosave }
  predicate IsManualSlot(s: SaveSlot) { !s.isAutosave }

  function AutosaveCount(slots: seq<SaveSlot>): nat { |Filter(slots, IsAutosaveSlot)| }
  function ManualCount(slots: seq<SaveSlot>): nat { |Filter(slots, IsManualSlot)| }

  /** The store's central invariant: at most one slot is the autosave. */
  predicate AtMostOneAutosave(slots: seq<SaveSlot>) { AutosaveCount(slots) <= 1 }

  // ---------------------------------------------------------------------------
  // Specification of each list update

  /** The slot list after `createSave(state, name, isAutosave)` on `prev`. */
  function AfterCreate(prev: seq<SaveSlot>, state: QuizState, name: string, isAutosave: bool,
                       freshId: string, now: int, maxManualSlots: nat): (r: seq<SaveSlot>)
    // an autosave overwrites the existing autosave in place, keeping its id
    ensures isAutosave && FirstIndex(prev, IsAutosaveSlot) >= 0 ==>
      var k := FirstIndex(prev, IsAutosaveSlot);
      && |r| == |prev|
      && r[k] == SaveSlot(prev[k].id, state, now, AutosaveName, true)
      && forall j :: 0 <= j < |prev| && j != k ==> r[j] == prev[j]
    // otherwise an autosave is appended as one new slot
    ensures isAutosave && FirstIndex(prev, IsAutosaveSlot) < 0 ==>
      r == prev + [SaveSlot(freshId, state, now, AutosaveName, true)]
    // a manual save over the cap changes nothing
    ensures !isAutosave && ManualCount(prev) >= maxManualSlots ==> r == prev
    // an accepted manual save appends exactly one slot
    ensures !isAutosave && ManualCount(prev) < maxManualSlots ==>
      r == prev + [SaveSlot(freshId, state, now, name, false)]
  {
    if isAutosave then
      var k := FirstIndex(prev, IsAutosaveSlot);
      if k >= 0 then prev[k := SaveSlot(prev[k].id, state, now, AutosaveName, true)]
      else prev + [SaveSlot(freshId, state, now, AutosaveName, true)]
    else if ManualCount(prev) >= maxManualSlots then prev
    else prev + [SaveSlot(freshId, state, now, name, false)]
  }

  /** The slot list after `deleteSave(id)` on `prev`. */
  function AfterDelete(prev: seq<SaveSlot>, id: string): (r: seq<SaveSlot>)
    // deleting the autosave wipes every slot
    ensures (exists i :: 0 <= i < |prev| && prev[i].id == id && prev[i].isAutosave
                         && forall j :: 0 <= j < i ==> prev[j].id != id) ==> r == []
    // deleting anything else keeps exactly the slots with another id, in
    // their order and with their repetitions
    ensures Find(prev, (s: SaveSlot) => s.id == id).None? || !Find(prev, (s: SaveSlot) => s.id == id).value.isAutosave ==>
      && r == Filter(prev, (s: SaveSlot) => s.id != id)
      && (forall i :: 0 <= i < |r| ==> r[i] in prev && r[i].id != id)
      && (forall i :: 0 <= i < |prev| && prev[i].id != id ==> prev[i] in r)
    // an unknown id changes nothing
    ensures (forall i :: 0 <= i < |prev| ==> prev[i].id != id) ==> r == prev
  {
    var slot := Find(prev, (s: SaveSlot) => s.id == id);
    if slot.Some? && slot.value.isAutosave then []
    else
      var r := Filter(prev, (s: SaveSlot) => s.id != id);
      if forall i :: 0 <= i < |prev| ==> prev[i].id != id then
        FilterAllPass(prev, (s: SaveSlot) => s.id != id);
        r
      else r
  }

  /** `loadSave(id)`: the state of the first slot with that id, unmodified. */
  function Load(slots: seq<SaveSlot>, id: string): (r: Option<QuizState>)
    ensures r.None? <==> forall i :: 0 <= i < |slots| ==> slots[i].id != id
    ensures r.Some? ==> exists i :: 0 <= i < |slots| && slots[i].id == id && slots[i].state == r.value
                                    && forall j :: 0 <= j < i ==> slots[j].id != id
  {
    match Find(slots, (s: SaveSlot) => s.id == id)
    case Some(s) => Some(s.state)
    case None => None
  }

  // ---------------------------------------------------------------------------
  // The invariant is kept by every update

  lemma CreateKeepsOneAutosave(prev: seq<SaveSlot>, state: QuizState, name: string, isAutosave: bool,
                               freshId: string, now: int, maxManualSlots: nat)
    requires AtMostOneAutosave(prev)
    ensures AtMostOneAutosave(AfterCreate(prev, state, name, isAutosave, freshId, now, maxManualSlots))
  {
    var slot := SaveSlot(freshId, state, now, if isAutosave then AutosaveName else name, isAutosave);
    if isAutosave {
      var k := FirstIndex(prev, IsAutosaveSlot);
      if k >= 0 {
        FilterCountUpdate(prev, k, SaveSlot(prev[k].id, state, now, AutosaveName, true), IsAutosaveSlot);
      } else {
        FilterNonePass(prev, IsAutosaveSlot);
        FilterAppend(prev, [slot], IsAutosaveSlot);
      }
    } else if ManualCount(prev) < maxManualSlots {
      FilterAppend(prev, [slot], IsAutosaveSlot);
    }
  }

  lemma DeleteKeepsOneAutosave(prev: seq<SaveSlot>, id: string)
    requires AtMostOneAutosave(prev)
    ensures AtMostOneAutosave(AfterDelete(prev, id))
  {
    FilterTwiceCount(prev, (s: SaveSlot) => s.id != id, IsAutosaveSlot);
  }

  /** Manual slots never exceed the cap once they are within it. */
  lemma CreateKeepsManualCap(prev: seq<SaveSlot>, state: QuizState, name: string, isAutosave: bool,
                             freshId: string, now: int, maxManualSlots: nat)
    requires ManualCount(prev) <= maxManualSlots
    ensures ManualCount(AfterCreate(prev, state, name, isAutosave, freshId, now, maxManualSlots)) <= maxManualSlots
  {
    var r := AfterCreate(prev, state, name, isAutosave, freshId, now, maxManualSlots);
    var slot := SaveSlot(freshId, state, now, if isAutosave then AutosaveName else name, isAutosave);
    if isAutosave {
      var k := FirstIndex(prev, IsAutosaveSlot);
      if k >= 0 {
        FilterCountUpdate(prev, k, SaveSlot(prev[k].id, state, now, AutosaveName, true), IsManualSlot);
      } else {
        FilterAppend(prev, [slot], IsManualSlot);
      }
    } else if ManualCount(prev) < maxManualSlots {
      FilterAppend(prev, [slot], IsManualSlot);
    }
  }

  // ---------------------------------------------------------------------------
  // The searches the hook runs, as loops

  /** `slots.findIndex(slot => slot.isAutosave)`. */
  method FindAutosaveIndex(slots: seq<SaveSlot>) returns (k: int)
    ensures k == FirstIndex(slots, IsAutosaveSlot)
    ensures k >= 0 ==> k < |slots| && slots[k].isAutosave
    ensures k < 0 ==> forall j :: 0 <= j < |slots| ==> !slots[j].isAutosave
  {
    k := 0;
    while k < |slots| && !slots[k].isAutosave
      invariant 0 <= k <= |slots|
      invariant forall j :: 0 <= j < k ==> !slots[j].isAutosave
    {
      k := k + 1;
    }
    if k == |slots| {
      k := -1;
    }
  }

  /** `slots.filter(slot => !slot.isAutosave).length`. */
  method CountManualSlots(slots: seq<SaveSlot>) returns (n: nat)
    ensures n == ManualCount(slots)
  {
    n := 0;
    var i := 0;
    while i < |slots|
      invariant 0 <= i <= |slots|
      invariant n == ManualCount(slots[..i])
    {
      assert slots[..i + 1] == slots[..i] + [slots[i]];
      FilterAppend(slots[..i], [slots[i]], IsManualSlot);
      if !slots[i].isAutosave {
        n := n + 1;
      }
      i := i + 1;
    }
    assert slots[..i] == slots;
  }

  // ---------------------------------------------------------------------------
  // The hook's state

  class SaveStore {
    const quizId: string
    const maxManualSlots: nat
    var slots: seq<SaveSlot>

    constructor (quizId: string, maxManualSlots: nat)
      ensures this.quizId == quizId && this.maxManualSlots == maxManualSlots
      ensures slots == []
    {
      this.quizId := quizId;
      this.maxManualSlots := maxManualSlots;
      slots := [];
    }

    /** `checkForSaves`: adopt the stored list when it is a non-empty list of
        slots, otherwise start from no slots. */
    method CheckForSaves(stored: StoredSaves) returns (found: bool)
      modifies this
      ensures found <==> stored.Entries? && |stored.slots| > 0
      ensures slots == (if found then stored.slots else [])
    {
      if stored.Entries? && |stored.slots| > 0 {
        slots := stored.slots;
        found := true;
      } else {
        slots := [];
        found := false;
      }
    }

    /** `createSave(state, name, isAutosave)`: works on a copy of the list,
        overwriting the autosave in place or appending. */
    method CreateSave(state: QuizState, name: string, isAutosave: bool, freshId: string, now: int)
      modifies this
      ensures slots == AfterCreate(old(slots), state, name, isAutosave, freshId, now, maxManualSlots)
      ensures AtMostOneAutosave(old(slots)) ==> AtMostOneAutosave(slots)
      ensures ManualCount(old(slots)) <= maxManualSlots ==> ManualCount(slots) <= maxManualSlots
    {
      if AtMostOneAutosave(slots) {
        CreateKeepsOneAutosave(slots, state, name, isAutosave, freshId, now, maxManualSlots);
      }
      if ManualCount(slots) <= maxManualSlots {
        CreateKeepsManualCap(slots, state, name, isAutosave, freshId, now, maxManualSlots);
      }
      var newSlots := slots;
      if isAutosave {
        var k := FindAutosaveIndex(newSlots);
        var id := if k >= 0 then newSlots[k].id else freshId;
        var newSave := SaveSlot(id, state, now, AutosaveName, true);
        if k >= 0 {
          newSlots := newSlots[k := newSave];
        } else {
          newSlots := newSlots + [newSave];
        }
      } else {
        var manual := CountManualSlots(newSlots);
        if manual >= maxManualSlots {
          return;
        }
        newSlots := newSlots + [SaveSlot(freshId, state, now, name, false)];
      }
      slots := newSlots;
    }

    /** `deleteSave(id)`. */
    method DeleteSave(id: string)
      modifies this
      ensures slots == AfterDelete(old(slots), id)
      ensures AtMostOneAutosave(old(slots)) ==> AtMostOneAutosave(slots)
    {
      if AtMostOneAutosave(slots) {
        DeleteKeepsOneAutosave(slots, id);
      }
      var slot := Find(slots, (s: SaveSlot) => s.id == id);
      if slot.Some? && slot.value.isAutosave {
        slots := [];
      } else {
        slots := Filter(slots, (s: SaveSlot) => s.id != id);
      }
    }

    /** `clearAllSaves`. */
    method ClearAllSaves()
      modifies this
      ensures slots == []
    {
      slots := [];
    }

    /** `loadSave(id)`. */
    function LoadSave(id: string): (r: Option<QuizState>)
      reads this
      ensures r == Load(slots, id)
    {
      Load(slots, id)
    }

    /** `setupAutosave(initialState)`: on a paused or completed state nothing is
        written and no interval is scheduled; otherwise the state is written as
        the autosave at once and the periodic re-save is scheduled. */
    method SetupAutosave(initialState: QuizState, freshId: string, now: int) returns (scheduled: bool)
      modifies this
      ensures scheduled <==> !initialState.isPaused && !initialState.isComplete
      ensures !scheduled ==> slots == old(slots)
      ensures scheduled ==> slots == AfterCreate(old(slots), initialState, AutosaveName, true, freshId, now, maxManualSlots)
      ensures AtMostOneAutosave(old(slots)) ==> AtMostOneAutosave(slots)
    {
      if initialState.isPaused || initialState.isComplete {
        return false;
      }
      CreateSave(initialState, AutosaveName, true, freshId, now);
      scheduled := true;
    }

    /** One firing of the interval set up by `setupAutosave`: it re-reads the
        stored list and re-writes the autosave with the state stored in that
        autosave; an unreadable entry falls back to the state given at set-up;
        no entry, or an entry without an autosave, writes nothing. */
    method AutosaveTick(initialState: QuizState, stored: StoredSaves, freshId: string, now: int)
      modifies this
      ensures stored.NoEntry? ==> slots == old(slots)
      ensures stored.Unreadable? ==>
        slots == AfterCreate(old(slots), initialState, AutosaveName, true, freshId, now, maxManualSlots)
      ensures stored.Entries? && FirstIndex(stored.slots, IsAutosaveSlot) < 0 ==> slots == old(slots)
      ensures stored.Entries? && FirstIndex(stored.slots, IsAutosaveSlot) >= 0 ==>
        slots == AfterCreate(old(slots), stored.slots[FirstIndex(stored.slots, IsAutosaveSlot)].state,
                             AutosaveName, true, freshId, now, maxManualSlots)
      ensures AtMostOneAutosave(old(slots)) ==> AtMostOneAutosave(slots)
    {
      match stored {
        case NoEntry =>
        case Unreadable =>
          CreateSave(initialState, AutosaveName, true, freshId, now);
        case Entries(saved) =>
          var k := FindAutosaveIndex(saved);
          if k >= 0 {
            CreateSave(saved[k].state, AutosaveName, true, freshId, now);
          }
      }
    }
  }

  /** When the stored list mirrors the live one, a periodic tick writes back the
      state the autosave already held: the autosave's content never advances
      past what was written when autosaving started. */
  lemma TickNeverAdvancesAutosave(slots: seq<SaveSlot>, initialState: QuizState, freshId: string, now: int,
                                  maxManualSlots: nat)
    requires FirstIndex(slots, IsAutosaveSlot) >= 0
    ensures var k := FirstIndex(slots, IsAutosaveSlot);
            var r := AfterCreate(slots, slots[k].state, AutosaveName, true, freshId, now, maxManualSlots);
            FirstIndex(r, IsAutosaveSlot) == k && r[k].state == slots[k].state && r[k].id == slots[k].id
  {
    var k := FirstIndex(slots, IsAutosaveSlot);
    var r := AfterCreate(slots, slots[k].state, AutosaveName, true, freshId, now, maxManualSlots);
    assert forall j :: 0 <= j < k ==> r[j] == slots[j];
  }
}
