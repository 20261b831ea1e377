/**
 * The wire envelope `NetworkPacket {Header, Payload}` and the four concrete packet classes
 * with their `Create` factories. The payload serializer (protobuf-net) is foreign code:
 * it is passed in as a function from payload record to bytes.
 */
module Packets {
  import opened Wrappers

  /** C# `byte`. */
  newtype byte = x: int | 0 <= x < 0x100
  /** C# `ushort`, the underlying type of `NetworkPacketType`. */
  newtype u16 = x: int | 0 <= x < 0x1_0000

  /** The values of the enum `NetworkPacketType`. */
  const Invalid: u16 := 0
  const GenerateDiscountsRequest: u16 := 1
  const GenerateDiscountsResponse: u16 := 2
  const UseDiscountRequest: u16 := 3
  const UseDiscountResponse: u16 := 4

  /** `NetworkPacketHeader.Size`: two bytes of type and two of version. */
  const HeaderSize: int := 2 + 2

  datatype NetworkPacketHeader = NetworkPacketHeader(packetType: u16, version: u16)

  /** The envelope; `payload` is a nullable `byte[]`. */
  datatype NetworkPacket = NetworkPacket(header: NetworkPacketHeader, payload: Option<seq<byte>>)

  /** A freshly constructed envelope: default header (type `Invalid`, version 0) and an empty payload. */
  function DefaultPacket(): (p: NetworkPacket)
    ensures p.header.packetType == Invalid && p.header.version == 0
    ensures p.payload == Some([])
  {
    NetworkPacket(NetworkPacketHeader(0, 0), Some([]))
  }

  /** C#'s lifted `+` on `int?`: null as soon as one operand is null. */
  function LiftedAdd(a: Option<int>, b: Option<int>): Option<int> {
    if a.Some? && b.Some? then Some(a.value + b.value) else None
  }

  /** `x ?? d`. */
  function Coalesce(x: Option<int>, d: int): int {
    if x.Some? then x.value else d
  }

  /**
   * The property `Size => NetworkPacketHeader.Size + Payload?.Length ?? 0`. Because `??`
   * binds looser than `+`, a null payload makes the whole sum null and the size 0.
   */
  function Size(p: NetworkPacket): (r: int)
    ensures p.payload.Some? ==> r == HeaderSize + |p.payload.value|
    ensures p.payload.None? ==> r == 0
    ensures r == 0 || r >= 4
  {
    var length := if p.payload.Some? then Some(|p.payload.value|) else None;
    Coalesce(LiftedAdd(Some(HeaderSize), length), 0)
  }

  /** A default envelope measures exactly one header. */
  lemma DefaultPacketSize()
    ensures Size(DefaultPacket()) == 4
  {
  }

  /** The payload records; field numbers are those of each class's `[ProtoMember]` attributes. */
  datatype PayloadRecord =
    | GenerateDiscountsRequestRecord(count: u16, length: byte)  // Count = 1, Length = 2
    | GenerateDiscountResponseRecord(result: bool)              // Result = 1
    | UseDiscountRequestRecord(code: string)                    // Code = 1
    | UseDiscountResponseRecord(result: bool)                   // Result = 1

  /** The four packet classes of the network assembly. */
  datatype PacketClass =
    | GenerateDiscountsRequestPacket
    | GenerateDiscountResponsePacket
    | UseDiscountRequestPacket
    | UseDiscountResponsePacket

  /** Each class's `static readonly NetworkPacketType PacketType`. */
  function PacketTypeField(c: PacketClass): u16 {
    match c
    case GenerateDiscountsRequestPacket => GenerateDiscountsRequest
    case GenerateDiscountResponsePacket => GenerateDiscountsResponse
    case UseDiscountRequestPacket => UseDiscountRequest
    case UseDiscountResponsePacket => UseDiscountResponse
  }

  /** Each class's `static readonly ushort PacketVersion`. */
  function PacketVersionField(c: PacketClass): u16 {
    1
  }

  /** The `Type` of each class's `[Packet]` attribute; the two response classes carry none. */
  function PacketAttributeType(c: PacketClass): Option<u16> {
    match c
    case GenerateDiscountsRequestPacket => Some(GenerateDiscountsRequest)
    case UseDiscountRequestPacket => Some(UseDiscountRequest)
    case _ => None
  }

  /** The class a payload record belongs to. */
  function ClassOf(r: PayloadRecord): PacketClass {
    match r
    case GenerateDiscountsRequestRecord(_, _) => GenerateDiscountsRequestPacket
    case GenerateDiscountResponseRecord(_) => GenerateDiscountResponsePacket
    case UseDiscountRequestRecord(_) => UseDiscountRequestPacket
    case UseDiscountResponseRecord(_) => UseDiscountResponsePacket
  }

  /** The envelope every `Create` builds: header from the class's static fields, payload the serialized record. */
  function Envelope(r: PayloadRecord, serialize: PayloadRecord -> seq<byte>): NetworkPacket {
    var c := ClassOf(r);
    NetworkPacket(NetworkPacketHeader(PacketTypeField(c), PacketVersionField(c)), Some(serialize(r)))
  }

  /** `GenerateDiscountsRequestPacket.Create(count, length)`. */
  function CreateGenerateDiscountsRequest(count: u16, length: byte, serialize: PayloadRecord -> seq<byte>): (p: NetworkPacket)
    ensures p.header == NetworkPacketHeader(GenerateDiscountsRequest, 1)
    ensures p.header.packetType == 1
    ensures p.payload == Some(serialize(GenerateDiscountsRequestRecord(count, length)))
    ensures Size(p) == HeaderSize + |serialize(GenerateDiscountsRequestRecord(count, length))|
  {
    Envelope(GenerateDiscountsRequestRecord(count, length), serialize)
  }

  /** `UseDiscountRequestPacket.Create(code)`; the code is not validated. */
  function CreateUseDiscountRequest(code: string, serialize: PayloadRecord -> seq<byte>): (p: NetworkPacket)
    ensures p.header == NetworkPacketHeader(UseDiscountRequest, 1)
    ensures p.header.packetType == 3
    ensures p.payload == Some(serialize(UseDiscountRequestRecord(code)))
    ensures Size(p) == HeaderSize + |serialize(UseDiscountRequestRecord(code))|
  {
    Envelope(UseDiscountRequestRecord(code), serialize)
  }

  /** `UseDiscountResponsePacket.Create(result)`. */
  function CreateUseDiscountResponse(result: bool, serialize: PayloadRecord -> seq<byte>): (p: NetworkPacket)
    ensures p.header == NetworkPacketHeader(UseDiscountResponse, 1)
    ensures p.header.packetType == 4
    ensures p.payload == Some(serialize(UseDiscountResponseRecord(result)))
    ensures Size(p) == HeaderSize + |serialize(UseDiscountResponseRecord(result))|
  {
    Envelope(UseDiscountResponseRecord(result), serialize)
  }

  /** `GenerateDiscountResponsePacket.Create(result)`. */
  function CreateGenerateDiscountResponse(result: bool, serialize: PayloadRecord -> seq<byte>): (p: NetworkPacket)
    ensures p.header == NetworkPacketHeader(GenerateDiscountsResponse, 1)
    ensures p.header.packetType == 2
    ensures p.payload == Some(serialize(GenerateDiscountResponseRecord(result)))
    ensures Size(p) == HeaderSize + |serialize(GenerateDiscountResponseRecord(result))|
  {
    Envelope(GenerateDiscountResponseRecord(result), serialize)
  }

  /**
   * Where a class carries a `[Packet]` attribute, its type agrees with the class's
   * `PacketType` field; the response classes have no attribute.
   */
  lemma AttributeAgreesWithField(c: PacketClass)
    ensures PacketAttributeType(c).Some? ==> PacketAttributeType(c).value == PacketTypeField(c)
    ensures PacketAttributeType(c).None? <==> c in {GenerateDiscountResponsePacket, UseDiscountResponsePacket}
  {
  }

  /** The header type of every created envelope names the class of the record it carries, and no two classes share one. */
  lemma {:induction false} HeaderIdentifiesClass(r1: PayloadRecord, r2: PayloadRecord, serialize: PayloadRecord -> seq<byte>)
    ensures Envelope(r1, serialize).header.packetType == Envelope(r2, serialize).header.packetType
            <==> ClassOf(r1) == ClassOf(r2)
    ensures Envelope(r1, serialize).header.packetType != Invalid
  {
  }

  /**
   * The attribute scan the host runs over the network assembly: classes with a `[Packet]`
   * attribute (all four have a `NetworkPacketType` field). Only types 1 and 3.
   */
  function AttributeScan(classes: seq<PacketClass>): (r: seq<PacketClass>)
    ensures forall c :: c in r <==> c in classes && PacketAttributeType(c).Some?
  {
    if classes == [] then []
    else
      AttributeScan(classes[..|classes| - 1])
      + (if PacketAttributeType(classes[|classes| - 1]).Some? then [classes[|classes| - 1]] else [])
  }

  /** No scan ever yields a response type. */
  lemma {:induction false} ScanSkipsResponses(classes: seq<PacketClass>)
    ensures forall c :: c in AttributeScan(classes) ==> PacketTypeField(c) in {GenerateDiscountsRequest, UseDiscountRequest}
  {
  }
}
