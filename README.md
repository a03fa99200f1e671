# SecExtractGuidedSectionLib in Dafny

A model of the SEC-phase guided-section extraction library of OVMF
(`OvmfPkg/Library/SecExtractGuidedSectionLib`). Other firmware modules use it to
register a pair of handlers, *get-info* and *decode*, for a section GUID. It then
forwards `ExtractGuidedSectionGetInfo` and `ExtractGuidedSectionDecode` calls to the
pair registered for the section's `SectionDefinitionGuid`.

The registry lives in an `EXTRACT_GUIDED_SECTION_HANDLER_INFO` table. The table has
a signature (`'EGSI'`), a count, and three parallel arrays of GUIDs, decode handlers
and get-info handlers. Their capacity is `PcdMaximumGuidedExtractHandler`.

SEC code may run before RAM or writable globals exist. So the library tries an
ordered list of candidate locations: the module's static `mHandlerInfo`, then a
fixed address. A candidate that already carries the signature is reused unchanged.
Otherwise the library writes the signature and reads it back. If the write did not
stick, the candidate is skipped. If it did, the count is reset to zero.

The project has two layers.

- **Pure layer.** Three modules over values:
  - `HandlerTable`: one table as a `Slot` value, the GUID scan, and the registration rule.
  - `StorageLocator`: the check of one candidate and the locator over the candidate list.
  - `Dispatch`: the four public operations as functions of the candidates' contents.

  The properties are proved as lemmas here.
- **Imperative layer.** Module `SecExtractGuidedSectionLib`:
  - class `HandlerInfo` is one candidate's memory: mutable header fields and three arrays updated in place;
  - class `ExtractGuidedSectionLib` holds the candidate list and the capacity.

  Every method is proved to produce exactly the pure function's result and new state.
  This covers the search loops and the locator loop.

Statuses are 64-bit `UINTN` values. An error is encoded by setting the top bit, as
`ENCODE_ERROR` does, and `EFI_ERROR` tests that bit. So the status that
`ExtractGuidedSectionGetGuidList` returns through its count result is modelled as
the code writes it.

Where the code and its documentation disagree, the model follows the code. The
comment on `ExtractGuidedSectionRegisterHandlers`
(`SecExtractGuidedSectionLib.c:180`) says that registering a known GUID again
returns `RETURN_ALREADY_STARTED`. The code (`:229-237`) overwrites both handlers
and returns `RETURN_SUCCESS`. `HandlerTable.RegisterOverwrites` states the code's
behaviour.

## Model

| member | source | states |
|---|---|---|
| EfiBase.EncodeError | OvmfPkg/Library/SecExtractGuidedSectionLib/SecExtractGuidedSectionLib.c:132 | ENCODE_ERROR behind the library's error statuses: its ensures give a status with the top bit set and the code below it; EncodeErrorIsOr and ErrorStatusesAreOr tie it to the macro's OR |
| EfiBase.IsError | OvmfPkg/Library/SecExtractGuidedSectionLib/SecExtractGuidedSectionLib.c:122 | EFI_ERROR as used at :122, :164, :222, :316 and :402: the top bit of the status is set; it has no ensures of its own, and EncodeError's ensures make every library error status satisfy it while success (0) does not |
| EfiBase.EncodeErrorIsOr | OvmfPkg/Library/SecExtractGuidedSectionLib/SecExtractGuidedSectionLib.c:69 | on 64-bit patterns, ENCODE_ERROR's OR of MAX_BIT into a code below it equals the sum the model uses, sets the top bit (so EFI_ERROR holds) and keeps the code in the low 63 bits; the cited line returns EFI_WRITE_PROTECTED, one such ENCODE_ERROR value, as the macro itself is defined in Base.h |
| EfiBase.ErrorStatusesAreOr | OvmfPkg/Library/SecExtractGuidedSectionLib/SecExtractGuidedSectionLib.c:132 | the unsupported, write-protected and out-of-resources statuses are MAX_BIT OR 3, 8 and 9 |
| EfiBase.Signature32 | OvmfPkg/Library/SecExtractGuidedSectionLib/SecExtractGuidedSectionLib.c:22 | SIGNATURE_32 packs its four characters little-endian: each of the four bytes, low to high, is the corresponding character |
| EfiBase.ExtractHandlerInfoSignatureBytes | OvmfPkg/Library/SecExtractGuidedSectionLib/SecExtractGuidedSectionLib.c:22 | EXTRACT_HANDLER_INFO_SIGNATURE is 0x49534745, the bytes 'E', 'G', 'S', 'I' from low to high |
| HandlerTable.FindGuid | OvmfPkg/Library/SecExtractGuidedSectionLib/SecExtractGuidedSectionLib.c:229-238 | the scan over the registered GUIDs finds nothing exactly when the GUID is absent; otherwise it gives the first index holding the GUID |
| HandlerTable.FindGuidDistinct | OvmfPkg/Library/SecExtractGuidedSectionLib/SecExtractGuidedSectionLib.c:323-335 | with distinct registered GUIDs the scan lands on the one index holding the GUID |
| HandlerTable.FindGuidAppend | OvmfPkg/Library/SecExtractGuidedSectionLib/SecExtractGuidedSectionLib.c:250-252 | appending another GUID does not change the scan's result for this one |
| HandlerTable.Register | OvmfPkg/Library/SecExtractGuidedSectionLib/SecExtractGuidedSectionLib.c:229-254 | the registration rule on a located table; it has no ensures of its own and is characterised by RegisterStatus, RegisterOverwrites, RegisterFull, RegisterAppends, RegisterPreservesWellFormed, RegisterThenFind and RegisterKeepsOthers |
| HandlerTable.RegisterStatus | OvmfPkg/Library/SecExtractGuidedSectionLib/SecExtractGuidedSectionLib.c:229-254 | registration succeeds if and only if the GUID is already present or count < capacity; otherwise it is out-of-resources; the signature never changes |
| HandlerTable.RegisterOverwrites | OvmfPkg/Library/SecExtractGuidedSectionLib/SecExtractGuidedSectionLib.c:229-237 | re-registering a GUID at index i returns success, keeps the count and all GUIDs, and changes only the two handlers at i |
| HandlerTable.RegisterFull | OvmfPkg/Library/SecExtractGuidedSectionLib/SecExtractGuidedSectionLib.c:243-245 | a new GUID when count >= capacity yields out-of-resources with the table unchanged |
| HandlerTable.RegisterAppends | OvmfPkg/Library/SecExtractGuidedSectionLib/SecExtractGuidedSectionLib.c:250-254 | a new GUID with room is written with both handlers at index count; the count grows by exactly one; earlier and later entries are untouched; the registered list gains the GUID at its end |
| HandlerTable.RegisterPreservesWellFormed | OvmfPkg/Library/SecExtractGuidedSectionLib/SecExtractGuidedSectionLib.c:229-254 | registration keeps count <= capacity and the registered GUIDs distinct |
| HandlerTable.RegisterThenFind | OvmfPkg/Library/SecExtractGuidedSectionLib/SecExtractGuidedSectionLib.c:229-254 | after a successful registration the scan for that GUID reaches the handler pair just registered (the last registration wins) |
| HandlerTable.RegisterKeepsOthers | OvmfPkg/Library/SecExtractGuidedSectionLib/SecExtractGuidedSectionLib.c:229-254 | registering one GUID changes neither the scan result nor the handlers for any other GUID |
| HandlerTable.RegisterEach | OvmfPkg/Library/SecExtractGuidedSectionLib/SecExtractGuidedSectionLib.c:199-255 | any sequence of registrations keeps the table invariant |
| HandlerTable.RegisterEachInOrder | OvmfPkg/Library/SecExtractGuidedSectionLib/SecExtractGuidedSectionLib.c:250-252 | registering new, distinct GUIDs while there is room lists them after those already present, in registration order |
| StorageLocator.CheckOrInitialize | OvmfPkg/Library/SecExtractGuidedSectionLib/SecExtractGuidedSectionLib.c:47-82 | the status is success or write-protected; success exactly when the candidate is signed or writable; a signed candidate is reused unchanged; write-protection leaves it untouched, including its count; a writable unsigned one becomes signed with count 0 and its arrays kept |
| StorageLocator.CheckOrInitializeIdempotent | OvmfPkg/Library/SecExtractGuidedSectionLib/SecExtractGuidedSectionLib.c:54-59 | checking a usable candidate a second time succeeds and changes nothing more |
| StorageLocator.CheckOrInitializePreservesWellFormed | OvmfPkg/Library/SecExtractGuidedSectionLib/SecExtractGuidedSectionLib.c:64-72 | checking a candidate keeps the table invariant (a fresh table is empty) |
| StorageLocator.LocateFrom | OvmfPkg/Library/SecExtractGuidedSectionLib/SecExtractGuidedSectionLib.c:115-132 | the loop from candidate i either fails with out-of-resources and changes nothing, or succeeds on a usable candidate k >= i, and only that candidate is checked or initialised |
| StorageLocator.Locate | OvmfPkg/Library/SecExtractGuidedSectionLib/SecExtractGuidedSectionLib.c:95-133 | the locator fails with out-of-resources and a null table, changing nothing, or succeeds on a usable candidate that is then checked or initialised, with nothing else changed |
| StorageLocator.LocateFromChoosesFirstUsable | OvmfPkg/Library/SecExtractGuidedSectionLib/SecExtractGuidedSectionLib.c:115-129 | from candidate i the loop fails if and only if no later candidate is usable, and it skips only unusable ones |
| StorageLocator.LocateChoosesFirstUsable | OvmfPkg/Library/SecExtractGuidedSectionLib/SecExtractGuidedSectionLib.c:99-132 | the chosen table is the first usable candidate in list order; it is signed afterwards; a signed one is not altered; no other candidate changes; failure happens exactly when no candidate is usable |
| StorageLocator.LocateIdempotent | OvmfPkg/Library/SecExtractGuidedSectionLib/SecExtractGuidedSectionLib.c:99-132 | once a table is established, locating again returns the same table and changes nothing |
| StorageLocator.LocateFallsBack | OvmfPkg/Library/SecExtractGuidedSectionLib/SecExtractGuidedSectionLib.c:99-112 | when the static table cannot be used and the fixed-address one can, the table lives at the fixed address |
| StorageLocator.LocatePreservesWellFormed | OvmfPkg/Library/SecExtractGuidedSectionLib/SecExtractGuidedSectionLib.c:99-132 | the locator keeps every candidate's table invariant, and the chosen table is signed |
| Dispatch.RegisterHandlers | OvmfPkg/Library/SecExtractGuidedSectionLib/SecExtractGuidedSectionLib.c:199-255 | ExtractGuidedSectionRegisterHandlers over the candidates; no ensures of its own, characterised by RegisterHandlersUpdatesChosenTable, OperationsPreserveWellFormed, RegisterWhenFull and RegisterThenDispatch |
| Dispatch.GetInfoIn | OvmfPkg/Library/SecExtractGuidedSectionLib/SecExtractGuidedSectionLib.c:323-340 | the search-and-forward part of ExtractGuidedSectionGetInfo on a located table; no ensures of its own, characterised through GetInfo by GetInfoDispatches |
| Dispatch.GetInfo | OvmfPkg/Library/SecExtractGuidedSectionLib/SecExtractGuidedSectionLib.c:291-341 | ExtractGuidedSectionGetInfo over the candidates; no ensures of its own, characterised by GetInfoDispatches and RegisterThenDispatch |
| Dispatch.DecodeIn | OvmfPkg/Library/SecExtractGuidedSectionLib/SecExtractGuidedSectionLib.c:409-426 | the search-and-forward part of ExtractGuidedSectionDecode on a located table; no ensures of its own, characterised through Decode by DecodeDispatches |
| Dispatch.Decode | OvmfPkg/Library/SecExtractGuidedSectionLib/SecExtractGuidedSectionLib.c:378-427 | ExtractGuidedSectionDecode over the candidates; no ensures of its own, characterised by DecodeDispatches and RegisterThenDispatch |
| Dispatch.GetGuidList | OvmfPkg/Library/SecExtractGuidedSectionLib/SecExtractGuidedSectionLib.c:149-173 | ExtractGuidedSectionGetGuidList over the candidates; no ensures of its own, characterised by GuidListIsRegistered and ReRegistrationKeepsGuidList |
| Dispatch.OperationsPreserveWellFormed | OvmfPkg/Library/SecExtractGuidedSectionLib/SecExtractGuidedSectionLib.c:199-255 | locating and registering keep every candidate's table invariant |
| Dispatch.GetInfoDispatches | OvmfPkg/Library/SecExtractGuidedSectionLib/SecExtractGuidedSectionLib.c:291-341 | GetInfo answers unsupported if and only if no registered GUID matches; it forwards to the get-info handler at the matching index and returns its reply verbatim; it propagates out-of-resources from the locator; only the locator changes storage |
| Dispatch.DecodeDispatches | OvmfPkg/Library/SecExtractGuidedSectionLib/SecExtractGuidedSectionLib.c:378-427 | Decode answers unsupported if and only if no registered GUID matches; it forwards to the decode handler at the matching index with the caller's scratch buffer and returns its reply verbatim; it propagates out-of-resources |
| Dispatch.GuidListIsRegistered | OvmfPkg/Library/SecExtractGuidedSectionLib/SecExtractGuidedSectionLib.c:149-173 | the GUID list is the chosen table's count plus its GUID array, whose first count entries are exactly the registered GUIDs; on locator failure the out-of-resources status comes back as the count, a value above any capacity, and no array is given |
| Dispatch.RegisterHandlersUpdatesChosenTable | OvmfPkg/Library/SecExtractGuidedSectionLib/SecExtractGuidedSectionLib.c:199-255 | a locator failure is returned with storage unchanged; otherwise the registration rule is applied to the chosen table; the same table is found next time; no other candidate changes |
| Dispatch.RegisterThenDispatch | OvmfPkg/Library/SecExtractGuidedSectionLib/SecExtractGuidedSectionLib.c:199-427 | once a registration succeeds, GetInfo and Decode on a section with that GUID call exactly the handlers just registered and return their replies unmodified |
| Dispatch.ReRegistrationKeepsGuidList | OvmfPkg/Library/SecExtractGuidedSectionLib/SecExtractGuidedSectionLib.c:229-237 | re-registering a present GUID succeeds and leaves the GUID list (count and contents) unchanged |
| Dispatch.RegisterWhenFull | OvmfPkg/Library/SecExtractGuidedSectionLib/SecExtractGuidedSectionLib.c:243-245 | a new GUID on a full chosen table gives out-of-resources, with storage as the locator left it |
| Dispatch.RegisterHandlersEach | OvmfPkg/Library/SecExtractGuidedSectionLib/SecExtractGuidedSectionLib.c:199-255 | any run of registrations made one after another through the library keeps every candidate's table invariant |
| Dispatch.RegisterHandlersStep | OvmfPkg/Library/SecExtractGuidedSectionLib/SecExtractGuidedSectionLib.c:199-255 | one registration through the library applies the registration rule to the located candidate, changes nothing else, and leaves that candidate to be located again with no further change |
| Dispatch.RegisterHandlersEachIsRegisterEach | OvmfPkg/Library/SecExtractGuidedSectionLib/SecExtractGuidedSectionLib.c:199-255 | a non-empty run of registrations through the library equals the same registrations made directly on the table the first call locates; no other candidate changes and the same table is located afterwards |
| Dispatch.RegisterHandlersEachGuidList | OvmfPkg/Library/SecExtractGuidedSectionLib/SecExtractGuidedSectionLib.c:163-172 | after registering new, distinct GUIDs through the library with room in the located table, the GUID list is the GUIDs registered before followed by the new ones in registration order |
| SecExtractGuidedSectionLib.HandlerInfo.WriteSignature | OvmfPkg/Library/SecExtractGuidedSectionLib/SecExtractGuidedSectionLib.c:64 | the volatile store to Signature sticks only in writable memory |
| SecExtractGuidedSectionLib.HandlerInfo.CheckOrInitializeHandlerInfo | OvmfPkg/Library/SecExtractGuidedSectionLib/SecExtractGuidedSectionLib.c:47-82 | the in-place check returns the status and leaves the memory exactly as StorageLocator.CheckOrInitialize prescribes |
| SecExtractGuidedSectionLib.HandlerInfo.FindHandler | OvmfPkg/Library/SecExtractGuidedSectionLib/SecExtractGuidedSectionLib.c:323-335 | the Index loop over ExtractHandlerGuidTable[0..NumberOfExtractHandler) returns the first matching index, or none, exactly as FindGuid |
| SecExtractGuidedSectionLib.RegisterIn | OvmfPkg/Library/SecExtractGuidedSectionLib/SecExtractGuidedSectionLib.c:229-254 | the in-place overwrite, or the append and count increment, leaves the table and returns the status exactly as HandlerTable.Register prescribes |
| SecExtractGuidedSectionLib.GetInfoIn | OvmfPkg/Library/SecExtractGuidedSectionLib/SecExtractGuidedSectionLib.c:323-340 | the search loop and forwarding call on a located table return exactly Dispatch.GetInfoIn's result |
| SecExtractGuidedSectionLib.DecodeIn | OvmfPkg/Library/SecExtractGuidedSectionLib/SecExtractGuidedSectionLib.c:409-426 | the search loop and forwarding call on a located table return exactly Dispatch.DecodeIn's result |
| SecExtractGuidedSectionLib.ExtractGuidedSectionLib.constructor | OvmfPkg/Library/SecExtractGuidedSectionLib/SecExtractGuidedSectionLib.c:99-112 | the candidate list is mHandlerInfo and then the fixed-address table, in that order; the library's memory is exactly the two candidates' memory |
| SecExtractGuidedSectionLib.ExtractGuidedSectionLib.Probe | OvmfPkg/Library/SecExtractGuidedSectionLib/SecExtractGuidedSectionLib.c:122 | one loop iteration checks candidate k and changes no other candidate |
| SecExtractGuidedSectionLib.ExtractGuidedSectionLib.GetExtractGuidedSectionHandlerInfo | OvmfPkg/Library/SecExtractGuidedSectionLib/SecExtractGuidedSectionLib.c:95-133 | the Loop over PotentialInfoLocations returns the status, the chosen candidate (null exactly on failure) and the new memory as StorageLocator.Locate prescribes |
| SecExtractGuidedSectionLib.ExtractGuidedSectionLib.ExtractGuidedSectionGetGuidList | OvmfPkg/Library/SecExtractGuidedSectionLib/SecExtractGuidedSectionLib.c:149-173 | returns the count (or the locator's status) and the table's GUID array (null where the code leaves the pointer unset), as Dispatch.GetGuidList prescribes; the array returned is the located table's own GUID array, so the caller aliases the live table |
| SecExtractGuidedSectionLib.ExtractGuidedSectionLib.ExtractGuidedSectionRegisterHandlers | OvmfPkg/Library/SecExtractGuidedSectionLib/SecExtractGuidedSectionLib.c:199-255 | returns the status and leaves every candidate's memory as Dispatch.RegisterHandlers prescribes, keeping the invariant |
| SecExtractGuidedSectionLib.ExtractGuidedSectionLib.RegisterAt | OvmfPkg/Library/SecExtractGuidedSectionLib/SecExtractGuidedSectionLib.c:229-254 | registration on the located candidate follows HandlerTable.Register and changes no other candidate |
| SecExtractGuidedSectionLib.ExtractGuidedSectionLib.ExtractGuidedSectionGetInfo | OvmfPkg/Library/SecExtractGuidedSectionLib/SecExtractGuidedSectionLib.c:291-341 | returns the refusal status or the forwarded handler reply, and the new memory, as Dispatch.GetInfo prescribes |
| SecExtractGuidedSectionLib.ExtractGuidedSectionLib.ExtractGuidedSectionDecode | OvmfPkg/Library/SecExtractGuidedSectionLib/SecExtractGuidedSectionLib.c:378-427 | returns the refusal status or the forwarded handler reply, and the new memory, as Dispatch.Decode prescribes |

## Left out

- Raw memory layout is not modelled. This covers the arrays placed directly after the header (`:73-79`), the pointer fields that record them, and the literal address `0x1000`. Each candidate has its own three arrays of the configured capacity. The code also places `mHandlerInfo`'s arrays past the end of that header-only static structure; whether that memory is reserved is outside this model.
- The volatile write-and-read-back of the signature is a hardware property. It is modelled as a per-candidate `writable` flag. Stores to the count and to table entries are assumed to take effect.
- A candidate found already carrying the signature is trusted to be well formed: count <= capacity and distinct registered GUIDs. This is a requirement on the initial memory (`ExtractGuidedSectionLib.Valid`); the code does not check it.
- The get-info and decode handlers are callbacks outside this library. They are total functions from their inputs to a reply (status and out-parameter values). Payload decoding, output buffer aliasing and authentication status computation are not modelled. The scratch buffer is passed to the decode handler as a value, so the handler's writes into the caller's scratch memory are not modelled either.
- The byte layout of `EFI_GUID_DEFINED_SECTION` (UEFI Platform Initialization Specification) is not modelled. Only its `SectionDefinitionGuid` field is read.
- The `ASSERT` null checks (`:158`, `:214-216`, `:307-310`, `:394-396`) become the types' non-nullness. They are not runtime behaviour.
- Concurrency and re-entrancy are not modelled. The code has none.
- `UINTN` is taken to be 64 bits wide (an X64 build). IA32 would encode the error values in 32 bits.
- The caller's GUID-table pointer, which the code leaves unset when the locator fails, is returned as null there.
- `CompareGuid`, `CopyGuid` (BaseMemoryLib) and `PcdGet32` are not part of this model. GUID comparison is equality, a copy is an assignment, and the PCD is a constant of the library object.
- `ENCODE_ERROR` and `SIGNATURE_32` are defined in `Base.h`, which is not part of this model. They are written from their standard definitions. `EncodeError` computes the OR as the equal sum, and `EncodeErrorIsOr` proves the two agree on 64-bit patterns.
