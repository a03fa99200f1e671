/** The handler table EXTRACT_GUIDED_SECTION_HANDLER_INFO as a value, the GUID search
    every operation performs over it, and the registration rule. */
module HandlerTable {
  import opened EfiBase

  /** The contents of one candidate storage location: the signature and count header
      fields, whether a write to this memory reads back, and the three parallel arrays
      (each of the configured capacity, registered or not). */
  datatype Slot = Slot(
    signature: UINT32,
    numberOfExtractHandler: UINT32,
    writable: bool,
    guids: seq<Guid>,
    decodeHandlers: seq<DecodeHandler>,
    getInfoHandlers: seq<GetInfoHandler>)

  /** The location already holds a table: its signature reads 'EGSI'. */
  predicate Initialized(s: Slot) {
    s.signature == ExtractHandlerInfoSignature
  }

  predicate Distinct(xs: seq<Guid>) {
    forall i, j :: 0 <= i < j < |xs| ==> xs[i] != xs[j]
  }

  /** The table invariant: arrays sized by PcdMaximumGuidedExtractHandler and, once the
      signature is present, count <= capacity and distinct registered GUIDs. The count of
      a location that does not carry the signature is whatever the memory holds. */
  predicate WellFormed(s: Slot, capacity: UINT32) {
    && |s.guids| == capacity as int
    && |s.decodeHandlers| == capacity as int
    && |s.getInfoHandlers| == capacity as int
    && (Initialized(s) ==>
          s.numberOfExtractHandler <= capacity
          && Distinct(s.guids[..s.numberOfExtractHandler]))
  }

  /** The registered GUIDs, guids[0..count). */
  function Registered(s: Slot): seq<Guid>
    requires s.numberOfExtractHandler as int <= |s.guids|
  {
    s.guids[..s.numberOfExtractHandler]
  }

  /** The linear scan for guid: the first index holding it, or None when it is absent. */
  function FindGuid(guids: seq<Guid>, guid: Guid): (r: Option<nat>)
    ensures r.None? <==> guid !in guids
    ensures r.Some? ==> r.value < |guids| && guids[r.value] == guid && guid !in guids[..r.value]
  {
    if guids == [] then None
    else if guids[0] == guid then Some(0)
    else
      match FindGuid(guids[1..], guid)
      case None => None
      case Some(i) =>
        assert guids[..i + 1] == [guids[0]] + guids[1..][..i];
        Some(i + 1)
  }

  /** With distinct GUIDs the scan finds the one index holding the GUID. */
  lemma FindGuidDistinct(guids: seq<Guid>, guid: Guid, i: nat)
    requires Distinct(guids) && i < |guids| && guids[i] == guid
    ensures FindGuid(guids, guid) == Some(i)
  {
    var k := FindGuid(guids, guid).value;
    assert forall j :: 0 <= j < k ==> guids[..k][j] == guids[j];
  }

  /** Appending a GUID other than the one searched for does not change the scan. */
  lemma {:induction false} FindGuidAppend(guids: seq<Guid>, other: Guid, guid: Guid)
    requires other != guid
    ensures FindGuid(guids + [other], guid) == FindGuid(guids, guid)
  {
    if guids != [] && guids[0] != guid {
      assert (guids + [other])[1..] == guids[1..] + [other];
      FindGuidAppend(guids[1..], other, guid);
    }
  }

  /** An outcome of a table operation: the status returned and the new contents. */
  datatype Outcome = Outcome(status: ReturnStatus, slot: Slot)

  /** ExtractGuidedSectionRegisterHandlers once the table is located: overwrite the two
      handlers of a GUID already present, else refuse when full, else append and
      publish by incrementing the count. */
  function Register(s: Slot, capacity: UINT32, guid: Guid,
                    getInfo: GetInfoHandler, decode: DecodeHandler): Outcome
    requires WellFormed(s, capacity) && Initialized(s)
  {
    var n := s.numberOfExtractHandler;
    match FindGuid(Registered(s), guid)
    case Some(i) =>
      Outcome(ReturnSuccess,
              s.(decodeHandlers := s.decodeHandlers[i := decode],
                 getInfoHandlers := s.getInfoHandlers[i := getInfo]))
    case None =>
      if n >= capacity then Outcome(ReturnOutOfResources, s)
      else
        Outcome(ReturnSuccess,
                s.(guids := s.guids[n as int := guid],
                   decodeHandlers := s.decodeHandlers[n as int := decode],
                   getInfoHandlers := s.getInfoHandlers[n as int := getInfo],
                   numberOfExtractHandler := n + 1))
  }

  /** Registration succeeds exactly when the GUID is already present or there is room;
      otherwise it reports out-of-resources. It never changes the signature. */
  lemma RegisterStatus(s: Slot, capacity: UINT32, guid: Guid,
                       getInfo: GetInfoHandler, decode: DecodeHandler)
    requires WellFormed(s, capacity) && Initialized(s)
    ensures var r := Register(s, capacity, guid, getInfo, decode);
      && (r.status == ReturnSuccess <==> guid in Registered(s) || s.numberOfExtractHandler < capacity)
      && (r.status != ReturnSuccess ==> r.status == ReturnOutOfResources)
      && r.slot.signature == s.signature && r.slot.writable == s.writable
  {
  }

  /** Re-registering a GUID present at index i succeeds, keeps the count and the GUIDs,
      and replaces only the two handlers at i. */
  lemma RegisterOverwrites(s: Slot, capacity: UINT32, guid: Guid,
                           getInfo: GetInfoHandler, decode: DecodeHandler, i: nat)
    requires WellFormed(s, capacity) && Initialized(s)
    requires i < s.numberOfExtractHandler as int && s.guids[i] == guid
    ensures var r := Register(s, capacity, guid, getInfo, decode);
      && r.status == ReturnSuccess
      && r.slot.numberOfExtractHandler == s.numberOfExtractHandler
      && r.slot.guids == s.guids
      && r.slot.signature == s.signature
      && r.slot.decodeHandlers[i] == decode && r.slot.getInfoHandlers[i] == getInfo
      && |r.slot.decodeHandlers| == |s.decodeHandlers|
      && |r.slot.getInfoHandlers| == |s.getInfoHandlers|
      && (forall j :: 0 <= j < |s.decodeHandlers| && j != i ==>
            r.slot.decodeHandlers[j] == s.decodeHandlers[j]
            && r.slot.getInfoHandlers[j] == s.getInfoHandlers[j])
  {
    assert Registered(s)[i] == guid;
    FindGuidDistinct(Registered(s), guid, i);
  }

  /** A new GUID when count >= capacity: out-of-resources and nothing changes. */
  lemma RegisterFull(s: Slot, capacity: UINT32, guid: Guid,
                     getInfo: GetInfoHandler, decode: DecodeHandler)
    requires WellFormed(s, capacity) && Initialized(s)
    requires guid !in Registered(s) && s.numberOfExtractHandler >= capacity
    ensures Register(s, capacity, guid, getInfo, decode) == Outcome(ReturnOutOfResources, s)
  {
  }

  /** A new GUID with room: written with both handlers at index count, the count grows by
      exactly one, and every other array element is untouched. */
  lemma RegisterAppends(s: Slot, capacity: UINT32, guid: Guid,
                        getInfo: GetInfoHandler, decode: DecodeHandler)
    requires WellFormed(s, capacity) && Initialized(s)
    requires guid !in Registered(s) && s.numberOfExtractHandler < capacity
    ensures var r := Register(s, capacity, guid, getInfo, decode);
      var n := s.numberOfExtractHandler as int;
      && r.status == ReturnSuccess
      && r.slot.numberOfExtractHandler as int == n + 1
      && Registered(r.slot) == Registered(s) + [guid]
      && r.slot.decodeHandlers[n] == decode && r.slot.getInfoHandlers[n] == getInfo
      && (forall j :: 0 <= j < capacity as int && j != n ==>
            r.slot.guids[j] == s.guids[j]
            && r.slot.decodeHandlers[j] == s.decodeHandlers[j]
            && r.slot.getInfoHandlers[j] == s.getInfoHandlers[j])
  {
    var r := Register(s, capacity, guid, getInfo, decode);
    assert Registered(r.slot) == Registered(s) + [guid];
  }

  /** Registration keeps the table invariant: count <= capacity and distinct GUIDs. */
  lemma RegisterPreservesWellFormed(s: Slot, capacity: UINT32, guid: Guid,
                                    getInfo: GetInfoHandler, decode: DecodeHandler)
    requires WellFormed(s, capacity) && Initialized(s)
    ensures var r := Register(s, capacity, guid, getInfo, decode);
      WellFormed(r.slot, capacity) && Initialized(r.slot)
  {
    var r := Register(s, capacity, guid, getInfo, decode);
    if guid !in Registered(s) && s.numberOfExtractHandler < capacity {
      RegisterAppends(s, capacity, guid, getInfo, decode);
    }
  }

  /** After a successful registration the scan for the GUID reaches the new handler pair:
      the last registration wins. */
  lemma RegisterThenFind(s: Slot, capacity: UINT32, guid: Guid,
                         getInfo: GetInfoHandler, decode: DecodeHandler)
    requires WellFormed(s, capacity) && Initialized(s)
    requires Register(s, capacity, guid, getInfo, decode).status == ReturnSuccess
    ensures var t := Register(s, capacity, guid, getInfo, decode).slot;
      var k := FindGuid(Registered(t), guid);
      && k.Some?
      && t.decodeHandlers[k.value] == decode && t.getInfoHandlers[k.value] == getInfo
  {
    var t := Register(s, capacity, guid, getInfo, decode).slot;
    RegisterPreservesWellFormed(s, capacity, guid, getInfo, decode);
    if guid !in Registered(s) {
      RegisterAppends(s, capacity, guid, getInfo, decode);
      var n := s.numberOfExtractHandler as int;
      assert Registered(t)[n] == guid;
      FindGuidDistinct(Registered(t), guid, n);
    }
  }

  /** Registering one GUID does not change what the scan finds for any other GUID. */
  lemma RegisterKeepsOthers(s: Slot, capacity: UINT32, guid: Guid,
                            getInfo: GetInfoHandler, decode: DecodeHandler, other: Guid)
    requires WellFormed(s, capacity) && Initialized(s) && other != guid
    ensures var t := Register(s, capacity, guid, getInfo, decode).slot;
      var k := FindGuid(Registered(s), other);
      && FindGuid(Registered(t), other) == k
      && (k.Some? ==>
            t.decodeHandlers[k.value] == s.decodeHandlers[k.value]
            && t.getInfoHandlers[k.value] == s.getInfoHandlers[k.value])
  {
    if guid !in Registered(s) && s.numberOfExtractHandler < capacity {
      RegisterAppends(s, capacity, guid, getInfo, decode);
      FindGuidAppend(Registered(s), guid, other);
    } else if guid in Registered(s) {
      var i := FindGuid(Registered(s), guid).value;
      RegisterOverwrites(s, capacity, guid, getInfo, decode, i);
    }
  }

  /** One call of ExtractGuidedSectionRegisterHandlers: a GUID and its handler pair. */
  datatype Registration = Registration(guid: Guid, getInfo: GetInfoHandler, decode: DecodeHandler)

  function Guids(rs: seq<Registration>): (r: seq<Guid>)
    ensures |r| == |rs| && forall i :: 0 <= i < |rs| ==> r[i] == rs[i].guid
  {
    seq(|rs|, i requires 0 <= i < |rs| => rs[i].guid)
  }

  /** The table after the registrations rs, made one after another in list order. */
  function RegisterEach(s: Slot, capacity: UINT32, rs: seq<Registration>): (r: Slot)
    requires WellFormed(s, capacity) && Initialized(s)
    ensures WellFormed(r, capacity) && Initialized(r)
    decreases |rs|
  {
    if rs == [] then s
    else
      RegisterPreservesWellFormed(s, capacity, rs[0].guid, rs[0].getInfo, rs[0].decode);
      RegisterEach(Register(s, capacity, rs[0].guid, rs[0].getInfo, rs[0].decode).slot, capacity, rs[1..])
  }

  /** Each registration in rs brings a GUID new to the table s, no two the same, and
      the table has room for all of them. */
  predicate RoomForNew(s: Slot, capacity: UINT32, rs: seq<Registration>)
    requires WellFormed(s, capacity) && Initialized(s)
  {
    && Distinct(Guids(rs))
    && (forall i :: 0 <= i < |rs| ==> rs[i].guid !in Registered(s))
    && s.numberOfExtractHandler as int + |rs| <= capacity as int
  }

  /** Distinct GUIDs none of which is in reg: the tail is distinct and none of it is in
      reg extended by the head. */
  lemma FreshTail(reg: seq<Guid>, gs: seq<Guid>)
    requires gs != [] && Distinct(gs)
    requires forall i :: 0 <= i < |gs| ==> gs[i] !in reg
    ensures Distinct(gs[1..])
    ensures forall i :: 0 <= i < |gs| - 1 ==> gs[1..][i] !in reg + [gs[0]]
    ensures reg + gs == (reg + [gs[0]]) + gs[1..]
  {
    forall i | 0 <= i < |gs| - 1
      ensures gs[1..][i] !in reg + [gs[0]]
    {
      assert gs[1..][i] == gs[i + 1] != gs[0];
    }
    forall i, j | 0 <= i < j < |gs| - 1
      ensures gs[1..][i] != gs[1..][j]
    {
      assert gs[1..][i] == gs[i + 1] && gs[1..][j] == gs[j + 1];
    }
    assert gs == [gs[0]] + gs[1..];
  }

  /** The requirement passes from rs to its tail on a table t that lists the first GUID
      after those of s. */
  lemma RoomForNewTail(s: Slot, t: Slot, capacity: UINT32, rs: seq<Registration>)
    requires WellFormed(s, capacity) && Initialized(s) && rs != []
    requires WellFormed(t, capacity) && Initialized(t)
    requires RoomForNew(s, capacity, rs)
    requires Registered(t) == Registered(s) + [rs[0].guid]
    ensures RoomForNew(t, capacity, rs[1..])
    ensures Registered(s) + Guids(rs) == Registered(t) + Guids(rs[1..])
  {
    var gs := Guids(rs);
    assert Guids(rs[1..]) == gs[1..];
    FreshTail(Registered(s), gs);
  }

  /** After the first registration the rest still bring new GUIDs with room for them. */
  lemma RegisterEachStep(s: Slot, capacity: UINT32, rs: seq<Registration>)
    requires WellFormed(s, capacity) && Initialized(s) && rs != []
    requires RoomForNew(s, capacity, rs)
    ensures var t := Register(s, capacity, rs[0].guid, rs[0].getInfo, rs[0].decode).slot;
      && WellFormed(t, capacity) && Initialized(t)
      && RoomForNew(t, capacity, rs[1..])
      && RegisterEach(s, capacity, rs) == RegisterEach(t, capacity, rs[1..])
      && Registered(s) + Guids(rs) == Registered(t) + Guids(rs[1..])
  {
    var g := rs[0];
    RegisterAppends(s, capacity, g.guid, g.getInfo, g.decode);
    RegisterPreservesWellFormed(s, capacity, g.guid, g.getInfo, g.decode);
    var t := Register(s, capacity, g.guid, g.getInfo, g.decode).slot;
    RoomForNewTail(s, t, capacity, rs);
  }

  /** Registering new, distinct GUIDs while there is room lists them after the GUIDs
      already present, in registration order. */
  lemma {:induction false} RegisterEachInOrder(s: Slot, capacity: UINT32, rs: seq<Registration>)
    requires WellFormed(s, capacity) && Initialized(s)
    requires RoomForNew(s, capacity, rs)
    ensures Registered(RegisterEach(s, capacity, rs)) == Registered(s) + Guids(rs)
    decreases |rs|
  {
    if rs != [] {
      RegisterEachStep(s, capacity, rs);
      RegisterEachInOrder(Register(s, capacity, rs[0].guid, rs[0].getInfo, rs[0].decode).slot, capacity, rs[1..]);
    }
  }
}
