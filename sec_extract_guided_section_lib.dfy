/** SecExtractGuidedSectionLib as the code runs it: candidate tables in memory whose
    header fields and arrays are updated in place, and the library operations over the
    ordered list of candidate locations. Each method is proved to follow the functions
    of the Dispatch, StorageLocator and HandlerTable modules. */
module SecExtractGuidedSectionLib {
  import opened EfiBase
  import opened HandlerTable
  import opened StorageLocator
  import Dispatch

  /** EXTRACT_GUIDED_SECTION_HANDLER_INFO at one candidate location: the header fields
      and the three arrays laid out after it. Whether a store to this memory reads back
      is a property of the memory, fixed for the boot phase. */
  class HandlerInfo {
    var signature: UINT32
    var numberOfExtractHandler: UINT32
    const writable: bool
    const extractHandlerGuidTable: array<Guid>
    const extractDecodeHandlerTable: array<DecodeHandler>
    const extractGetInfoHandlerTable: array<GetInfoHandler>

    /** The memory of a candidate location as it is found. */
    constructor (contents: Slot)
      ensures Snapshot() == contents && Separate()
      ensures fresh(extractHandlerGuidTable) && fresh(extractDecodeHandlerTable)
      ensures fresh(extractGetInfoHandlerTable)
    {
      signature := contents.signature;
      numberOfExtractHandler := contents.numberOfExtractHandler;
      writable := contents.writable;
      extractHandlerGuidTable :=
        new Guid[|contents.guids|](i requires 0 <= i < |contents.guids| => contents.guids[i]);
      extractDecodeHandlerTable :=
        new DecodeHandler[|contents.decodeHandlers|](
          i requires 0 <= i < |contents.decodeHandlers| => contents.decodeHandlers[i]);
      extractGetInfoHandlerTable :=
        new GetInfoHandler[|contents.getInfoHandlers|](
          i requires 0 <= i < |contents.getInfoHandlers| => contents.getInfoHandlers[i]);
    }

    /** The three arrays are separate memory (they are laid out one after another). */
    ghost predicate Separate() {
      && extractHandlerGuidTable as object != extractDecodeHandlerTable
      && extractHandlerGuidTable as object != extractGetInfoHandlerTable
      && extractDecodeHandlerTable as object != extractGetInfoHandlerTable
    }

    ghost function Footprint(): set<object> {
      {this, extractHandlerGuidTable, extractDecodeHandlerTable, extractGetInfoHandlerTable}
    }

    /** The contents of this location as a value. */
    ghost function Snapshot(): Slot
      reads this, extractHandlerGuidTable, extractDecodeHandlerTable, extractGetInfoHandlerTable
    {
      Slot(signature, numberOfExtractHandler, writable,
           extractHandlerGuidTable[..], extractDecodeHandlerTable[..], extractGetInfoHandlerTable[..])
    }

    /** A volatile store to the Signature field: it sticks only in writable memory. */
    method WriteSignature(value: UINT32)
      modifies this`signature
      ensures signature == (if writable then value else old(signature))
    {
      if writable {
        signature := value;
      }
    }

    /** CheckOrInitializeHandlerInfo. */
    method CheckOrInitializeHandlerInfo() returns (status: ReturnStatus)
      modifies this`signature, this`numberOfExtractHandler
      ensures Outcome(status, Snapshot()) == CheckOrInitialize(old(Snapshot()))
    {
      if signature == ExtractHandlerInfoSignature {
        return ReturnSuccess;
      }
      WriteSignature(ExtractHandlerInfoSignature);
      if signature != ExtractHandlerInfoSignature {
        return ReturnWriteProtected;
      }
      numberOfExtractHandler := 0;
      return ReturnSuccess;
    }

    /** The search loop shared by registration and dispatch: the first index in
        [0, NumberOfExtractHandler) whose GUID equals guid. */
    method FindHandler(guid: Guid) returns (index: Option<nat>)
      requires numberOfExtractHandler as int <= extractHandlerGuidTable.Length
      ensures index == FindGuid(extractHandlerGuidTable[..numberOfExtractHandler], guid)
    {
      ghost var registered := extractHandlerGuidTable[..numberOfExtractHandler];
      var i: UINT32 := 0;
      while i < numberOfExtractHandler
        invariant i <= numberOfExtractHandler
        invariant guid !in registered[..i]
      {
        if extractHandlerGuidTable[i] == guid {
          assert registered[i] == guid;
          ghost var k := FindGuid(registered, guid).value;
          assert forall j :: 0 <= j < k ==> registered[..k][j] == registered[j];
          return Some(i as nat);
        }
        assert registered[..i + 1] == registered[..i] + [registered[i]];
        i := i + 1;
      }
      assert registered[..i] == registered;
      return None;
    }
  }

  /** The body of ExtractGuidedSectionRegisterHandlers once the table is located:
      overwrite the handlers of a GUID already present, else refuse when full, else
      write the entry at index count and then publish it by incrementing the count. */
  method RegisterIn(info: HandlerInfo, capacity: UINT32, sectionGuid: Guid,
                    getInfoHandler: GetInfoHandler, decodeHandler: DecodeHandler)
    returns (status: ReturnStatus)
    requires info.Separate()
    requires WellFormed(info.Snapshot(), capacity) && Initialized(info.Snapshot())
    modifies info, info.extractHandlerGuidTable, info.extractDecodeHandlerTable, info.extractGetInfoHandlerTable
    ensures Outcome(status, info.Snapshot())
      == Register(old(info.Snapshot()), capacity, sectionGuid, getInfoHandler, decodeHandler)
  {
    ghost var before := info.Snapshot();
    var index := info.FindHandler(sectionGuid);
    if index.Some? {
      info.extractDecodeHandlerTable[index.value] := decodeHandler;
      info.extractGetInfoHandlerTable[index.value] := getInfoHandler;
      assert info.extractDecodeHandlerTable[..] == before.decodeHandlers[index.value := decodeHandler];
      assert info.extractGetInfoHandlerTable[..] == before.getInfoHandlers[index.value := getInfoHandler];
      return ReturnSuccess;
    }
    if info.numberOfExtractHandler >= capacity {
      return ReturnOutOfResources;
    }
    var n := info.numberOfExtractHandler;
    info.extractHandlerGuidTable[n] := sectionGuid;
    info.extractDecodeHandlerTable[n] := decodeHandler;
    info.extractGetInfoHandlerTable[n] := getInfoHandler;
    info.numberOfExtractHandler := n + 1;
    return ReturnSuccess;
  }

  /** The body of ExtractGuidedSectionGetInfo once the table is located. */
  method GetInfoIn(info: HandlerInfo, capacity: UINT32, inputSection: GuidedSection)
    returns (result: Dispatch.Dispatched<InfoReply>)
    requires WellFormed(info.Snapshot(), capacity) && Initialized(info.Snapshot())
    ensures result == Dispatch.GetInfoIn(info.Snapshot(), capacity, inputSection)
  {
    var index := info.FindHandler(inputSection.sectionDefinitionGuid);
    if index.None? {
      return Dispatch.Refused(ReturnUnsupported);
    }
    var handler := info.extractGetInfoHandlerTable[index.value];
    return Dispatch.Forwarded(handler(inputSection));
  }

  /** The body of ExtractGuidedSectionDecode once the table is located. */
  method DecodeIn(info: HandlerInfo, capacity: UINT32, inputSection: GuidedSection,
                  scratchBuffer: Option<seq<byte>>)
    returns (result: Dispatch.Dispatched<DecodeReply>)
    requires WellFormed(info.Snapshot(), capacity) && Initialized(info.Snapshot())
    ensures result == Dispatch.DecodeIn(info.Snapshot(), capacity, inputSection, scratchBuffer)
  {
    var index := info.FindHandler(inputSection.sectionDefinitionGuid);
    if index.None? {
      return Dispatch.Refused(ReturnUnsupported);
    }
    var handler := info.extractDecodeHandlerTable[index.value];
    return Dispatch.Forwarded(handler(inputSection, scratchBuffer));
  }

  /** The library's state: the configured capacity and the ordered candidate list. */
  class ExtractGuidedSectionLib {
    /** PcdMaximumGuidedExtractHandler. */
    const maximumGuidedExtractHandler: UINT32
    /** PotentialInfoLocations: the module's static mHandlerInfo, then the table at the
        fixed address. */
    const potentialInfoLocations: seq<HandlerInfo>

    /** The memory of every candidate. */
    ghost const Repr: set<object>

    /** The candidates are separate pieces of memory, all within Repr. */
    ghost predicate Layout() {
      && (forall i :: 0 <= i < |potentialInfoLocations| ==>
            potentialInfoLocations[i].Footprint() <= Repr && potentialInfoLocations[i].Separate())
      && (forall i, j :: 0 <= i < j < |potentialInfoLocations| ==>
            potentialInfoLocations[i].Footprint() !! potentialInfoLocations[j].Footprint())
    }

    /** The candidates are separate and each satisfies the table invariant. */
    ghost predicate Valid()
      reads this, Repr
    {
      && Layout()
      && Dispatch.AllWellFormed(Slots(), maximumGuidedExtractHandler)
    }

    /** The contents of every candidate, in list order. */
    ghost function Slots(): (r: seq<Slot>)
      requires Layout()
      reads this, Repr
      ensures |r| == |potentialInfoLocations|
      ensures forall i :: 0 <= i < |r| ==> r[i] == potentialInfoLocations[i].Snapshot()
    {
      seq(|potentialInfoLocations|,
          i requires 0 <= i < |potentialInfoLocations|
            reads if 0 <= i < |potentialInfoLocations| then potentialInfoLocations[i].Footprint() else {}
            => potentialInfoLocations[i].Snapshot())
    }

    /** The library linked with capacity PcdMaximumGuidedExtractHandler, its static
        table mHandlerInfo and the table at the fixed address. */
    constructor (capacity: UINT32, mHandlerInfo: HandlerInfo, fixedAddressInfo: HandlerInfo)
      requires mHandlerInfo.Separate() && fixedAddressInfo.Separate()
      requires mHandlerInfo.Footprint() !! fixedAddressInfo.Footprint()
      requires WellFormed(mHandlerInfo.Snapshot(), capacity)
      requires WellFormed(fixedAddressInfo.Snapshot(), capacity)
      ensures Valid()
      ensures maximumGuidedExtractHandler == capacity
      ensures potentialInfoLocations == [mHandlerInfo, fixedAddressInfo]
      ensures Repr == mHandlerInfo.Footprint() + fixedAddressInfo.Footprint()
    {
      maximumGuidedExtractHandler := capacity;
      potentialInfoLocations := [mHandlerInfo, fixedAddressInfo];
      Repr := mHandlerInfo.Footprint() + fixedAddressInfo.Footprint();
    }

    /** One iteration of the locator's loop: CheckOrInitializeHandlerInfo on candidate k,
        which changes nothing else. */
    method Probe(k: nat) returns (status: ReturnStatus)
      requires Valid() && k < |potentialInfoLocations|
      modifies potentialInfoLocations[k]
      ensures Valid()
      ensures var p := CheckOrInitialize(old(Slots())[k]);
        status == p.status && Slots() == old(Slots())[k := p.slot]
    {
      var candidate := potentialInfoLocations[k];
      status := candidate.CheckOrInitializeHandlerInfo();
      assert forall j :: 0 <= j < |potentialInfoLocations| && j != k ==>
        potentialInfoLocations[j] !in candidate.Footprint();
    }

    /** GetExtractGuidedSectionHandlerInfo. */
    method GetExtractGuidedSectionHandlerInfo() returns (status: ReturnStatus, info: HandlerInfo?)
      requires Valid()
      modifies potentialInfoLocations
      ensures Valid()
      ensures var loc := Locate(old(Slots()));
        && status == loc.status
        && Slots() == loc.slots
        && (info == null <==> loc.index.None?)
        && (loc.index.Some? ==> info == potentialInfoLocations[loc.index.value])
    {
      var loop := 0;
      while loop < |potentialInfoLocations|
        invariant loop <= |potentialInfoLocations|
        invariant Valid()
        invariant LocateFrom(Slots(), loop) == Locate(old(Slots()))
      {
        var check := Probe(loop);
        if !IsError(check) {
          return ReturnSuccess, potentialInfoLocations[loop];
        }
        loop := loop + 1;
      }
      return ReturnOutOfResources, null;
    }

    /** ExtractGuidedSectionGetGuidList. The GUID array returned is the chosen table's own
        array, not a copy, so the caller sees later registrations; it is null when the
        locator fails, where the code leaves the caller's pointer unset. */
    method ExtractGuidedSectionGetGuidList() returns (count: UINTN, extractHandlerGuidTable: array?<Guid>)
      requires Valid()
      modifies potentialInfoLocations
      ensures Valid()
      ensures var r := Dispatch.GetGuidList(old(Slots()), maximumGuidedExtractHandler);
        && Slots() == r.slots
        && count == r.result.count
        && (extractHandlerGuidTable == null <==> r.result.table.None?)
        && (extractHandlerGuidTable != null ==> extractHandlerGuidTable[..] == r.result.table.value)
      ensures extractHandlerGuidTable != null ==>
        var loc := Locate(old(Slots()));
        loc.index.Some? && extractHandlerGuidTable == potentialInfoLocations[loc.index.value].extractHandlerGuidTable
    {
      var status, handlerInfo := GetExtractGuidedSectionHandlerInfo();
      if IsError(status) {
        return status, null;
      }
      return handlerInfo.numberOfExtractHandler as UINTN, handlerInfo.extractHandlerGuidTable;
    }

    /** ExtractGuidedSectionRegisterHandlers. */
    method ExtractGuidedSectionRegisterHandlers(sectionGuid: Guid, getInfoHandler: GetInfoHandler,
                                                decodeHandler: DecodeHandler)
      returns (status: ReturnStatus)
      requires Valid()
      modifies Repr
      ensures Valid()
      ensures var r := Dispatch.RegisterHandlers(old(Slots()), maximumGuidedExtractHandler,
                                                  sectionGuid, getInfoHandler, decodeHandler);
        status == r.result && Slots() == r.slots
    {
      var handlerInfo;
      status, handlerInfo := GetExtractGuidedSectionHandlerInfo();
      if IsError(status) {
        return;
      }
      ghost var k := Locate(old(Slots())).index.value;
      LocatePreservesWellFormed(old(Slots()), maximumGuidedExtractHandler);
      status := RegisterAt(handlerInfo, k, sectionGuid, getInfoHandler, decodeHandler);
    }

    /** Registration on candidate k, the located table, which changes nothing else. */
    method RegisterAt(handlerInfo: HandlerInfo, ghost k: nat, sectionGuid: Guid,
                      getInfoHandler: GetInfoHandler, decodeHandler: DecodeHandler)
      returns (status: ReturnStatus)
      requires Valid() && k < |potentialInfoLocations| && potentialInfoLocations[k] == handlerInfo
      requires Initialized(Slots()[k])
      modifies handlerInfo.Footprint()
      ensures Valid()
      ensures var p := Register(old(Slots())[k], maximumGuidedExtractHandler,
                                sectionGuid, getInfoHandler, decodeHandler);
        status == p.status && Slots() == old(Slots())[k := p.slot]
    {
      ghost var before := Slots();
      status := RegisterIn(handlerInfo, maximumGuidedExtractHandler, sectionGuid, getInfoHandler, decodeHandler);
      RegisterPreservesWellFormed(before[k], maximumGuidedExtractHandler, sectionGuid, getInfoHandler, decodeHandler);
      assert forall j :: 0 <= j < |potentialInfoLocations| && j != k ==>
        potentialInfoLocations[j].Footprint() !! handlerInfo.Footprint();
      assert Slots() == before[k := handlerInfo.Snapshot()];
    }

    /** ExtractGuidedSectionGetInfo. */
    method ExtractGuidedSectionGetInfo(inputSection: GuidedSection)
      returns (result: Dispatch.Dispatched<InfoReply>)
      requires Valid()
      modifies potentialInfoLocations
      ensures Valid()
      ensures var r := Dispatch.GetInfo(old(Slots()), maximumGuidedExtractHandler, inputSection);
        result == r.result && Slots() == r.slots
    {
      var status, handlerInfo := GetExtractGuidedSectionHandlerInfo();
      if IsError(status) {
        return Dispatch.Refused(status);
      }
      result := GetInfoIn(handlerInfo, maximumGuidedExtractHandler, inputSection);
    }

    /** ExtractGuidedSectionDecode. */
    method ExtractGuidedSectionDecode(inputSection: GuidedSection, scratchBuffer: Option<seq<byte>>)
      returns (result: Dispatch.Dispatched<DecodeReply>)
      requires Valid()
      modifies potentialInfoLocations
      ensures Valid()
      ensures var r := Dispatch.Decode(old(Slots()), maximumGuidedExtractHandler, inputSection, scratchBuffer);
        result == r.result && Slots() == r.slots
    {
      var status, handlerInfo := GetExtractGuidedSectionHandlerInfo();
      if IsError(status) {
        return Dispatch.Refused(status);
      }
      result := DecodeIn(handlerInfo, maximumGuidedExtractHandler, inputSection, scratchBuffer);
    }
  }
}
