/** The storage locator: CheckOrInitializeHandlerInfo on one candidate location and
    GetExtractGuidedSectionHandlerInfo over the ordered list of candidates. */
module StorageLocator {
  import opened EfiBase
  import opened HandlerTable

  /** The candidate can hold the table: it already reads the signature, or a write of
      the signature reads back. */
  predicate Usable(s: Slot) {
    Initialized(s) || s.writable
  }

  /** CheckOrInitializeHandlerInfo: reuse a location that already carries the signature;
      otherwise write the signature and, if it reads back, reset the count. */
  function CheckOrInitialize(s: Slot): (r: Outcome)
    ensures r.status == ReturnSuccess || r.status == ReturnWriteProtected
    ensures !IsError(r.status) <==> Usable(s)
    ensures IsError(r.status) ==> r.slot == s
    ensures Initialized(s) ==> r.slot == s
    ensures !IsError(r.status) ==> Initialized(r.slot)
    ensures !Initialized(s) && s.writable ==>
              && r.slot.numberOfExtractHandler == 0
              && r.slot.writable && r.slot.guids == s.guids
              && r.slot.decodeHandlers == s.decodeHandlers
              && r.slot.getInfoHandlers == s.getInfoHandlers
  {
    if Initialized(s) then Outcome(ReturnSuccess, s)
    else if !s.writable then Outcome(ReturnWriteProtected, s)
    else Outcome(ReturnSuccess, s.(signature := ExtractHandlerInfoSignature, numberOfExtractHandler := 0))
  }

  /** A candidate that has been checked once checks again without any change. */
  lemma CheckOrInitializeIdempotent(s: Slot)
    requires Usable(s)
    ensures CheckOrInitialize(CheckOrInitialize(s).slot) == CheckOrInitialize(s).(status := ReturnSuccess)
  {
  }

  /** Checking a candidate keeps the table invariant (a fresh table is empty). */
  lemma CheckOrInitializePreservesWellFormed(s: Slot, capacity: UINT32)
    requires WellFormed(s, capacity)
    ensures WellFormed(CheckOrInitialize(s).slot, capacity)
  {
  }

  /** The result of the locator: its status, the index of the chosen candidate (None for
      the null table pointer) and the candidates' contents afterwards. */
  datatype Located = Located(status: ReturnStatus, index: Option<nat>, slots: seq<Slot>)

  /** The loop of GetExtractGuidedSectionHandlerInfo from candidate i on: at most one
      candidate, the one chosen, changes. */
  function LocateFrom(slots: seq<Slot>, i: nat): (r: Located)
    requires i <= |slots|
    ensures r.index.None? ==> r.status == ReturnOutOfResources && r.slots == slots
    ensures r.index.Some? ==>
              var k := r.index.value;
              && i <= k < |slots| && Usable(slots[k])
              && r.status == ReturnSuccess
              && r.slots == slots[k := CheckOrInitialize(slots[k]).slot]
    decreases |slots| - i
  {
    if i == |slots| then Located(ReturnOutOfResources, None, slots)
    else
      var p := CheckOrInitialize(slots[i]);
      if !IsError(p.status) then Located(ReturnSuccess, Some(i), slots[i := p.slot])
      else
        assert slots[i := p.slot] == slots;
        LocateFrom(slots[i := p.slot], i + 1)
  }

  /** GetExtractGuidedSectionHandlerInfo over the candidate list. On success the chosen
      candidate is checked or initialised and no other candidate changes; on failure the
      status is out-of-resources, the table pointer null and nothing changes. */
  function Locate(slots: seq<Slot>): (r: Located)
    ensures r.index.None? ==> r.status == ReturnOutOfResources && r.slots == slots
    ensures r.index.Some? ==>
              var k := r.index.value;
              && k < |slots| && Usable(slots[k])
              && r.status == ReturnSuccess
              && r.slots == slots[k := CheckOrInitialize(slots[k]).slot]
  {
    LocateFrom(slots, 0)
  }

  lemma {:induction false} LocateFromChoosesFirstUsable(slots: seq<Slot>, i: nat)
    requires i <= |slots|
    ensures var r := LocateFrom(slots, i);
      && (r.index.None? <==> forall j :: i <= j < |slots| ==> !Usable(slots[j]))
      && (r.index.Some? ==> forall j :: i <= j < r.index.value ==> !Usable(slots[j]))
    decreases |slots| - i
  {
    if i < |slots| {
      var p := CheckOrInitialize(slots[i]);
      if IsError(p.status) {
        assert slots[i := p.slot] == slots;
        LocateFromChoosesFirstUsable(slots, i + 1);
      }
    }
  }

  /** The locator chooses the first candidate, in list order, that checks or
      initialises, and fails exactly when no candidate is usable. */
  lemma LocateChoosesFirstUsable(slots: seq<Slot>)
    ensures var r := Locate(slots);
      && (r.index.None? <==> forall j :: 0 <= j < |slots| ==> !Usable(slots[j]))
      && (r.index.Some? ==>
            var k := r.index.value;
            && (forall j :: 0 <= j < k ==> !Usable(slots[j]))
            && Initialized(r.slots[k])
            && (Initialized(slots[k]) ==> r.slots[k] == slots[k])
            && (forall j :: 0 <= j < |slots| && j != k ==> r.slots[j] == slots[j]))
  {
    LocateFromChoosesFirstUsable(slots, 0);
  }

  /** Once a table is established, locating again returns the same table and changes
      nothing. */
  lemma LocateIdempotent(slots: seq<Slot>)
    ensures Locate(Locate(slots).slots) == Locate(slots)
  {
    var r := Locate(slots);
    LocateChoosesFirstUsable(slots);
    LocateChoosesFirstUsable(r.slots);
    if r.index.Some? {
      var k := r.index.value;
      var r2 := Locate(r.slots);
      assert r2.index == Some(k) by {
        assert forall j :: 0 <= j < k ==> r.slots[j] == slots[j];
      }
      assert r2.slots == r.slots[k := r.slots[k]];
    }
  }

  /** When the first candidate is neither initialised nor writable and the second can
      be used, the table lives in the second one. */
  lemma LocateFallsBack(slots: seq<Slot>)
    requires |slots| >= 2 && !Usable(slots[0]) && Usable(slots[1])
    ensures Locate(slots).index == Some(1) && Locate(slots).status == ReturnSuccess
    ensures Locate(slots).slots == slots[1 := CheckOrInitialize(slots[1]).slot]
  {
    LocateChoosesFirstUsable(slots);
  }

  /** The locator keeps every candidate's table invariant. */
  lemma LocatePreservesWellFormed(slots: seq<Slot>, capacity: UINT32)
    requires forall j :: 0 <= j < |slots| ==> WellFormed(slots[j], capacity)
    ensures var r := Locate(slots);
      && |r.slots| == |slots|
      && (forall j :: 0 <= j < |slots| ==> WellFormed(r.slots[j], capacity))
      && (r.index.Some? ==> r.index.value < |slots| && Initialized(r.slots[r.index.value]))
  {
    var r := Locate(slots);
    if r.index.Some? {
      var k := r.index.value;
      CheckOrInitializePreservesWellFormed(slots[k], capacity);
    }
  }
}
