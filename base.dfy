/** Firmware base types used by the guided-section registry: fixed-width integers,
    RETURN_STATUS codes, GUIDs, the guided section as the registry sees it, and the
    two callback contracts a registered decoder provides. */
module EfiBase {

  newtype UINT16 = x: int | 0 <= x < 0x1_0000
  newtype UINT32 = x: int | 0 <= x < 0x1_0000_0000
  /** UINTN of a 64-bit build. */
  newtype UINTN = x: int | 0 <= x < 0x1_0000_0000_0000_0000

  type byte = bv8

  /** A 128-bit GUID; CompareGuid is plain equality. */
  type Guid = bv128

  datatype Option<T> = None | Some(value: T)

  /** RETURN_STATUS is a UINTN: 0 is success and an error code has the top bit set. */
  type ReturnStatus = UINTN

  const MaxBit: UINTN := 0x8000_0000_0000_0000

  /** ENCODE_ERROR: MAX_BIT OR-ed into a code below it, written as the sum it equals. */
  function EncodeError(code: UINTN): (s: ReturnStatus)
    requires code < MaxBit
    ensures s >= MaxBit && s - MaxBit == code
  {
    MaxBit + code
  }

  /** MAX_BIT as the 64-bit pattern ENCODE_ERROR ORs into a code. */
  const MaxBitBits: bv64 := 0x8000_0000_0000_0000

  /** On 64-bit patterns, OR-ing MAX_BIT into any code below it is adding it: the top bit
      is set and the code stays in the low bits. */
  lemma EncodeErrorIsOr(code: bv64)
    requires code < MaxBitBits
    ensures MaxBitBits | code == MaxBitBits + code
    ensures (MaxBitBits | code) & MaxBitBits == MaxBitBits
    ensures (MaxBitBits | code) & (MaxBitBits - 1) == code
  {
  }

  /** The error statuses the library returns have the values ENCODE_ERROR gives them. */
  lemma ErrorStatusesAreOr()
    ensures ReturnUnsupported as int == (MaxBitBits | 3) as int
    ensures ReturnWriteProtected as int == (MaxBitBits | 8) as int
    ensures ReturnOutOfResources as int == (MaxBitBits | 9) as int
  {
  }

  const ReturnSuccess: ReturnStatus := 0
  const ReturnUnsupported: ReturnStatus := EncodeError(3)
  const ReturnWriteProtected: ReturnStatus := EncodeError(8)
  const ReturnOutOfResources: ReturnStatus := EncodeError(9)

  /** EFI_ERROR / RETURN_ERROR: the top bit of the status is set. */
  predicate IsError(s: ReturnStatus) {
    s >= MaxBit
  }

  /** SIGNATURE_32: four characters packed little-endian into a UINT32. */
  function Signature32(a: char, b: char, c: char, d: char): (r: UINT32)
    requires a < 256 as char && b < 256 as char && c < 256 as char && d < 256 as char
    ensures r as int % 0x100 == a as int
    ensures r as int / 0x100 % 0x100 == b as int
    ensures r as int / 0x1_0000 % 0x100 == c as int
    ensures r as int / 0x100_0000 == d as int
  {
    var high := c as int + 0x100 * d as int;
    var rest := b as int + 0x100 * high;
    ByteSplit(c as int, d as int);
    ByteSplit(b as int, high);
    ByteSplit(a as int, rest);
    assert (a as int + 0x100 * rest) / 0x100 / 0x100 == high;
    (a as int + 0x100 * rest) as UINT32
  }

  /** A byte below 0x100 times q: the byte is the remainder and q the quotient. */
  lemma ByteSplit(x: int, q: nat)
    requires 0 <= x < 0x100
    ensures (x + 0x100 * q) % 0x100 == x && (x + 0x100 * q) / 0x100 == q
  {
  }

  /** EXTRACT_HANDLER_INFO_SIGNATURE, 'EGSI'. */
  const ExtractHandlerInfoSignature: UINT32 := Signature32('E', 'G', 'S', 'I')

  /** The signature's four bytes, low to high, are 'E', 'G', 'S', 'I'. */
  lemma ExtractHandlerInfoSignatureBytes()
    ensures ExtractHandlerInfoSignature == 0x4953_4745
  {
  }

  /** A GUID-defined section. The registry reads only SectionDefinitionGuid; the rest of
      the section is passed to the handlers untouched. */
  datatype GuidedSection = GuidedSection(sectionDefinitionGuid: Guid, data: seq<byte>)

  /** What a get-info handler writes through its out-parameters, with its status. */
  datatype InfoReply = InfoReply(
    status: ReturnStatus,
    outputBufferSize: UINT32,
    scratchBufferSize: UINT32,
    sectionAttribute: UINT16)

  /** What a decode handler writes through its out-parameters, with its status. */
  datatype DecodeReply = DecodeReply(
    status: ReturnStatus,
    outputBuffer: seq<byte>,
    authenticationStatus: UINT32)

  /** EXTRACT_GUIDED_SECTION_GET_INFO_HANDLER: a callback outside this library. */
  type GetInfoHandler = GuidedSection -> InfoReply

  /** EXTRACT_GUIDED_SECTION_DECODE_HANDLER: a callback outside this library; the
      scratch buffer is optional. */
  type DecodeHandler = (GuidedSection, Option<seq<byte>>) -> DecodeReply
}
