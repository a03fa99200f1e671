/** The library's public operations as functions of the candidates' contents: every
    operation first runs the locator, then works on the table it chose. */
module Dispatch {
  import opened EfiBase
  import opened HandlerTable
  import opened StorageLocator

  /** Every candidate location satisfies the table invariant. */
  predicate AllWellFormed(slots: seq<Slot>, capacity: UINT32) {
    forall j :: 0 <= j < |slots| ==> WellFormed(slots[j], capacity)
  }

  /** What an operation returns, with the candidates' contents afterwards. */
  datatype Step<R> = Step(result: R, slots: seq<Slot>)

  /** A dispatch either forwards to a registered handler, whose reply (status and
      out-parameters) is returned verbatim, or is refused by the library itself. */
  datatype Dispatched<R> = Forwarded(reply: R) | Refused(status: ReturnStatus)

  /** What ExtractGuidedSectionGetGuidList returns: its UINTN result and, when it sets
      it, the GUID array it points the caller at. */
  datatype GuidList = GuidList(count: UINTN, table: Option<seq<Guid>>)

  /** ExtractGuidedSectionRegisterHandlers. */
  function RegisterHandlers(slots: seq<Slot>, capacity: UINT32, guid: Guid,
                            getInfo: GetInfoHandler, decode: DecodeHandler): Step<ReturnStatus>
    requires AllWellFormed(slots, capacity)
  {
    var loc := Locate(slots);
    if loc.index.None? then Step(loc.status, loc.slots)
    else
      var k := loc.index.value;
      var p := Register(loc.slots[k], capacity, guid, getInfo, decode);
      Step(p.status, loc.slots[k := p.slot])
  }

  /** ExtractGuidedSectionGetInfo once the table t is located: the handler registered
      for the section's GUID, or unsupported. */
  function GetInfoIn(t: Slot, capacity: UINT32, section: GuidedSection): Dispatched<InfoReply>
    requires WellFormed(t, capacity) && Initialized(t)
  {
    match FindGuid(Registered(t), section.sectionDefinitionGuid)
    case None => Refused(ReturnUnsupported)
    case Some(i) => Forwarded(t.getInfoHandlers[i](section))
  }

  /** ExtractGuidedSectionGetInfo. */
  function GetInfo(slots: seq<Slot>, capacity: UINT32, section: GuidedSection): Step<Dispatched<InfoReply>>
    requires AllWellFormed(slots, capacity)
  {
    LocatePreservesWellFormed(slots, capacity);
    var loc := Locate(slots);
    if loc.index.None? then Step(Refused(loc.status), loc.slots)
    else Step(GetInfoIn(loc.slots[loc.index.value], capacity, section), loc.slots)
  }

  /** ExtractGuidedSectionDecode once the table t is located: the handler registered for
      the section's GUID, given the caller's scratch buffer, or unsupported. */
  function DecodeIn(t: Slot, capacity: UINT32, section: GuidedSection,
                    scratch: Option<seq<byte>>): Dispatched<DecodeReply>
    requires WellFormed(t, capacity) && Initialized(t)
  {
    match FindGuid(Registered(t), section.sectionDefinitionGuid)
    case None => Refused(ReturnUnsupported)
    case Some(i) => Forwarded(t.decodeHandlers[i](section, scratch))
  }

  /** ExtractGuidedSectionDecode. */
  function Decode(slots: seq<Slot>, capacity: UINT32, section: GuidedSection,
                  scratch: Option<seq<byte>>): Step<Dispatched<DecodeReply>>
    requires AllWellFormed(slots, capacity)
  {
    LocatePreservesWellFormed(slots, capacity);
    var loc := Locate(slots);
    if loc.index.None? then Step(Refused(loc.status), loc.slots)
    else Step(DecodeIn(loc.slots[loc.index.value], capacity, section, scratch), loc.slots)
  }

  /** ExtractGuidedSectionGetGuidList. When the locator fails the code returns the
      locator's status through its UINTN count result and leaves the caller's pointer
      unset. */
  function GetGuidList(slots: seq<Slot>, capacity: UINT32): Step<GuidList>
    requires AllWellFormed(slots, capacity)
  {
    var loc := Locate(slots);
    if loc.index.None? then Step(GuidList(loc.status, None), loc.slots)
    else
      var t := loc.slots[loc.index.value];
      Step(GuidList(t.numberOfExtractHandler as UINTN, Some(t.guids)), loc.slots)
  }

  /** Every operation keeps the table invariant of every candidate. */
  lemma OperationsPreserveWellFormed(slots: seq<Slot>, capacity: UINT32, guid: Guid,
                                     getInfo: GetInfoHandler, decode: DecodeHandler)
    requires AllWellFormed(slots, capacity)
    ensures AllWellFormed(Locate(slots).slots, capacity)
    ensures AllWellFormed(RegisterHandlers(slots, capacity, guid, getInfo, decode).slots, capacity)
  {
    LocatePreservesWellFormed(slots, capacity);
    var loc := Locate(slots);
    if loc.index.Some? {
      RegisterPreservesWellFormed(loc.slots[loc.index.value], capacity, guid, getInfo, decode);
    }
  }

  /** GetInfo forwards to the get-info handler registered for the section's GUID and
      returns its reply verbatim; it answers unsupported exactly when no registered GUID
      matches, and propagates a locator failure. Only the locator changes storage. */
  lemma GetInfoDispatches(slots: seq<Slot>, capacity: UINT32, section: GuidedSection)
    requires AllWellFormed(slots, capacity)
    ensures var loc := Locate(slots);
      var r := GetInfo(slots, capacity, section);
      && r.slots == loc.slots
      && (loc.index.None? ==> r.result == Refused(ReturnOutOfResources))
      && (loc.index.Some? ==>
            var t := loc.slots[loc.index.value];
            && (r.result == Refused(ReturnUnsupported) <==> section.sectionDefinitionGuid !in Registered(t))
            && (forall i :: 0 <= i < t.numberOfExtractHandler as int && t.guids[i] == section.sectionDefinitionGuid ==>
                  r.result == Forwarded(t.getInfoHandlers[i](section))))
  {
    LocatePreservesWellFormed(slots, capacity);
    var loc := Locate(slots);
    if loc.index.Some? {
      var t := loc.slots[loc.index.value];
      forall i | 0 <= i < t.numberOfExtractHandler as int && t.guids[i] == section.sectionDefinitionGuid
        ensures FindGuid(Registered(t), section.sectionDefinitionGuid) == Some(i)
      {
        assert Registered(t)[i] == t.guids[i];
        FindGuidDistinct(Registered(t), section.sectionDefinitionGuid, i);
      }
    }
  }

  /** Decode forwards to the decode handler registered for the section's GUID, with the
      caller's scratch buffer, and returns its reply verbatim; it answers unsupported
      exactly when no registered GUID matches, and propagates a locator failure. */
  lemma DecodeDispatches(slots: seq<Slot>, capacity: UINT32, section: GuidedSection,
                         scratch: Option<seq<byte>>)
    requires AllWellFormed(slots, capacity)
    ensures var loc := Locate(slots);
      var r := Decode(slots, capacity, section, scratch);
      && r.slots == loc.slots
      && (loc.index.None? ==> r.result == Refused(ReturnOutOfResources))
      && (loc.index.Some? ==>
            var t := loc.slots[loc.index.value];
            && (r.result == Refused(ReturnUnsupported) <==> section.sectionDefinitionGuid !in Registered(t))
            && (forall i :: 0 <= i < t.numberOfExtractHandler as int && t.guids[i] == section.sectionDefinitionGuid ==>
                  r.result == Forwarded(t.decodeHandlers[i](section, scratch))))
  {
    LocatePreservesWellFormed(slots, capacity);
    var loc := Locate(slots);
    if loc.index.Some? {
      var t := loc.slots[loc.index.value];
      forall i | 0 <= i < t.numberOfExtractHandler as int && t.guids[i] == section.sectionDefinitionGuid
        ensures FindGuid(Registered(t), section.sectionDefinitionGuid) == Some(i)
      {
        assert Registered(t)[i] == t.guids[i];
        FindGuidDistinct(Registered(t), section.sectionDefinitionGuid, i);
      }
    }
  }

  /** The GUID list is the chosen table's count and its GUID array: its first count
      entries are exactly the registered GUIDs, in registration order. When no storage
      is found, the out-of-resources status comes back as the count, a value above any
      UINT32 capacity, and no array is given. */
  lemma GuidListIsRegistered(slots: seq<Slot>, capacity: UINT32)
    requires AllWellFormed(slots, capacity)
    ensures var loc := Locate(slots);
      var r := GetGuidList(slots, capacity);
      && r.slots == loc.slots
      && (loc.index.None? ==>
            r.result == GuidList(ReturnOutOfResources, None) && r.result.count as int > capacity as int)
      && (loc.index.Some? ==>
            var t := loc.slots[loc.index.value];
            && r.result.table.Some?
            && r.result.count as int <= capacity as int
            && r.result.count as int <= |r.result.table.value|
            && r.result.table.value[..r.result.count] == Registered(t))
  {
    LocatePreservesWellFormed(slots, capacity);
  }

  /** Registration through the library: a locator failure is propagated unchanged;
      otherwise the chosen table is updated by the registration rule and nothing else
      changes. */
  lemma RegisterHandlersUpdatesChosenTable(slots: seq<Slot>, capacity: UINT32, guid: Guid,
                                           getInfo: GetInfoHandler, decode: DecodeHandler)
    requires AllWellFormed(slots, capacity)
    ensures var loc := Locate(slots);
      var r := RegisterHandlers(slots, capacity, guid, getInfo, decode);
      && (loc.index.None? ==> r == Step(ReturnOutOfResources, slots))
      && (loc.index.Some? ==>
            var k := loc.index.value;
            var t := loc.slots[k];
            && r.result == Register(t, capacity, guid, getInfo, decode).status
            && |r.slots| == |slots|
            && r.slots[k] == Register(t, capacity, guid, getInfo, decode).slot
            && Locate(r.slots).index == Some(k)
            && (forall j :: 0 <= j < |slots| && j != k ==> r.slots[j] == loc.slots[j]))
  {
    LocatePreservesWellFormed(slots, capacity);
    LocateChoosesFirstUsable(slots);
    var loc := Locate(slots);
    if loc.index.Some? {
      var k := loc.index.value;
      RegisterStatus(loc.slots[k], capacity, guid, getInfo, decode);
      var r := RegisterHandlers(slots, capacity, guid, getInfo, decode);
      LocateChoosesFirstUsable(r.slots);
      assert forall j :: 0 <= j < k ==> r.slots[j] == slots[j];
    }
  }

  /** End to end: once a registration of guid succeeds, GetInfo and Decode on a section
      tagged with guid reach exactly the handlers just registered and return their
      replies unmodified, whether the GUID was new or registered before. */
  lemma RegisterThenDispatch(slots: seq<Slot>, capacity: UINT32, guid: Guid,
                             getInfo: GetInfoHandler, decode: DecodeHandler,
                             section: GuidedSection, scratch: Option<seq<byte>>)
    requires AllWellFormed(slots, capacity)
    requires RegisterHandlers(slots, capacity, guid, getInfo, decode).result == ReturnSuccess
    requires section.sectionDefinitionGuid == guid
    ensures var after := RegisterHandlers(slots, capacity, guid, getInfo, decode).slots;
      && AllWellFormed(after, capacity)
      && GetInfo(after, capacity, section) == Step(Forwarded(getInfo(section)), after)
      && Decode(after, capacity, section, scratch) == Step(Forwarded(decode(section, scratch)), after)
  {
    OperationsPreserveWellFormed(slots, capacity, guid, getInfo, decode);
    RegisterHandlersUpdatesChosenTable(slots, capacity, guid, getInfo, decode);
    var loc := Locate(slots);
    var k := loc.index.value;
    var after := RegisterHandlers(slots, capacity, guid, getInfo, decode).slots;
    RegisterThenFind(loc.slots[k], capacity, guid, getInfo, decode);
    assert Locate(after).slots == after by {
      LocateIdempotent(after);
      assert after[k] == Register(loc.slots[k], capacity, guid, getInfo, decode).slot;
    }
  }

  /** Registering a GUID that the chosen table already holds succeeds and leaves the GUID
      list (count and contents) unchanged. */
  lemma ReRegistrationKeepsGuidList(slots: seq<Slot>, capacity: UINT32, guid: Guid,
                                    getInfo: GetInfoHandler, decode: DecodeHandler)
    requires AllWellFormed(slots, capacity)
    requires Locate(slots).index.Some?
    requires guid in Registered(Locate(slots).slots[Locate(slots).index.value])
    ensures var r := RegisterHandlers(slots, capacity, guid, getInfo, decode);
      && r.result == ReturnSuccess
      && AllWellFormed(r.slots, capacity)
      && GetGuidList(r.slots, capacity).result == GetGuidList(slots, capacity).result
  {
    OperationsPreserveWellFormed(slots, capacity, guid, getInfo, decode);
    RegisterHandlersUpdatesChosenTable(slots, capacity, guid, getInfo, decode);
    var loc := Locate(slots);
    var k := loc.index.value;
    var t := loc.slots[k];
    var i := FindGuid(Registered(t), guid).value;
    RegisterOverwrites(t, capacity, guid, getInfo, decode, i);
    var r := RegisterHandlers(slots, capacity, guid, getInfo, decode);
    LocateIdempotent(slots);
    assert Locate(r.slots).slots == r.slots;
  }

  /** A new GUID when the chosen table is full: out-of-resources, and storage is left as
      the locator left it. */
  lemma RegisterWhenFull(slots: seq<Slot>, capacity: UINT32, guid: Guid,
                         getInfo: GetInfoHandler, decode: DecodeHandler)
    requires AllWellFormed(slots, capacity)
    requires Locate(slots).index.Some?
    requires var t := Locate(slots).slots[Locate(slots).index.value];
      guid !in Registered(t) && t.numberOfExtractHandler >= capacity
    ensures RegisterHandlers(slots, capacity, guid, getInfo, decode) == Step(ReturnOutOfResources, Locate(slots).slots)
  {
    LocatePreservesWellFormed(slots, capacity);
    var loc := Locate(slots);
    assert loc.slots[loc.index.value := loc.slots[loc.index.value]] == loc.slots;
  }

  /** The candidates after the registrations rs, each made through
      ExtractGuidedSectionRegisterHandlers, one after another in list order. */
  function RegisterHandlersEach(slots: seq<Slot>, capacity: UINT32, rs: seq<Registration>): (r: seq<Slot>)
    requires AllWellFormed(slots, capacity)
    ensures AllWellFormed(r, capacity)
    decreases |rs|
  {
    if rs == [] then slots
    else
      OperationsPreserveWellFormed(slots, capacity, rs[0].guid, rs[0].getInfo, rs[0].decode);
      RegisterHandlersEach(RegisterHandlers(slots, capacity, rs[0].guid, rs[0].getInfo, rs[0].decode).slots,
                           capacity, rs[1..])
  }

  /** One registration through the library on a located candidate k leaves k ready to be
      located again, with the registration rule applied to it and nothing else changed. */
  lemma RegisterHandlersStep(slots: seq<Slot>, capacity: UINT32, x: Registration)
    requires AllWellFormed(slots, capacity) && Locate(slots).index.Some?
    ensures var loc := Locate(slots);
      var k := loc.index.value;
      var after := RegisterHandlers(slots, capacity, x.guid, x.getInfo, x.decode).slots;
      && WellFormed(loc.slots[k], capacity) && Initialized(loc.slots[k])
      && after == loc.slots[k := Register(loc.slots[k], capacity, x.guid, x.getInfo, x.decode).slot]
      && Locate(after).index == Some(k) && Locate(after).slots == after
  {
    LocatePreservesWellFormed(slots, capacity);
    RegisterHandlersUpdatesChosenTable(slots, capacity, x.guid, x.getInfo, x.decode);
    var loc := Locate(slots);
    var k := loc.index.value;
    RegisterPreservesWellFormed(loc.slots[k], capacity, x.guid, x.getInfo, x.decode);
    var after := RegisterHandlers(slots, capacity, x.guid, x.getInfo, x.decode).slots;
    LocateChoosesFirstUsable(after);
  }

  /** A non-empty run of registrations through the library acts on the candidate the
      first call locates, as the same registrations made directly on its table, and
      changes no other candidate; that candidate is the one located afterwards. */
  lemma {:induction false} RegisterHandlersEachIsRegisterEach(slots: seq<Slot>, capacity: UINT32,
                                                               rs: seq<Registration>)
    requires AllWellFormed(slots, capacity) && Locate(slots).index.Some? && rs != []
    ensures var loc := Locate(slots);
      var k := loc.index.value;
      var after := RegisterHandlersEach(slots, capacity, rs);
      && WellFormed(loc.slots[k], capacity) && Initialized(loc.slots[k])
      && after == loc.slots[k := RegisterEach(loc.slots[k], capacity, rs)]
      && Locate(after).index == Some(k) && Locate(after).slots == after
    decreases |rs|
  {
    var loc := Locate(slots);
    var k := loc.index.value;
    var x := rs[0];
    RegisterHandlersStep(slots, capacity, x);
    OperationsPreserveWellFormed(slots, capacity, x.guid, x.getInfo, x.decode);
    var t := Register(loc.slots[k], capacity, x.guid, x.getInfo, x.decode).slot;
    var s1 := RegisterHandlers(slots, capacity, x.guid, x.getInfo, x.decode).slots;
    assert RegisterHandlersEach(slots, capacity, rs) == RegisterHandlersEach(s1, capacity, rs[1..]);
    assert RegisterEach(loc.slots[k], capacity, rs) == RegisterEach(t, capacity, rs[1..]);
    if rs[1..] != [] {
      RegisterHandlersEachIsRegisterEach(s1, capacity, rs[1..]);
      assert s1[k] == t;
    }
  }

  /** Registering new, distinct GUIDs through the library while the located table has
      room: the GUID list afterwards is the GUIDs registered before, then the new ones in
      registration order. */
  lemma RegisterHandlersEachGuidList(slots: seq<Slot>, capacity: UINT32, rs: seq<Registration>)
    requires AllWellFormed(slots, capacity) && Locate(slots).index.Some? && rs != []
    requires var t := Locate(slots).slots[Locate(slots).index.value];
      WellFormed(t, capacity) && Initialized(t) && RoomForNew(t, capacity, rs)
    ensures var t := Locate(slots).slots[Locate(slots).index.value];
      var g := GetGuidList(RegisterHandlersEach(slots, capacity, rs), capacity).result;
      && g.table.Some? && g.count as int <= |g.table.value|
      && g.table.value[..g.count] == Registered(t) + Guids(rs)
  {
    LocatePreservesWellFormed(slots, capacity);
    var loc := Locate(slots);
    var k := loc.index.value;
    RegisterHandlersEachIsRegisterEach(slots, capacity, rs);
    RegisterEachInOrder(loc.slots[k], capacity, rs);
    var after := RegisterHandlersEach(slots, capacity, rs);
    GuidListIsRegistered(after, capacity);
  }
}
