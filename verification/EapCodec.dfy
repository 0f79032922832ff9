/**
 The wire layers of an EAP-TLS conversation over RADIUS: EAP packets (section 4 of RFC 3748),
 EAP-TLS Type-Data (section 3 of RFC 5216) and EAP-Message attributes (section 3.1 of RFC 3579).
 */
module EapCodec {
  import opened Octets

  datatype EapCode = Request | Response | EapSuccess | EapFailure

  datatype EapType =
    | Identity | Notification | Nak | Md5Challenge | OneTimePassword | GenericTokenCard
    | Tls | Ttls | Peap | MsChapV2 | Teap

  datatype EapError = PacketTooShort(expected: nat, actual: nat) | InvalidCode(code: byte) | InvalidLength(length: nat)

  function CodeByte(c: EapCode): byte {
    match c case Request => 1 case Response => 2 case EapSuccess => 3 case EapFailure => 4
  }

  function CodeFrom(b: byte): Option<EapCode> {
    if b == 1 then Some(Request) else if b == 2 then Some(Response)
    else if b == 3 then Some(EapSuccess) else if b == 4 then Some(EapFailure) else None
  }

  function TypeByte(t: EapType): byte {
    match t
    case Identity => 1 case Notification => 2 case Nak => 3 case Md5Challenge => 4 case OneTimePassword => 5
    case GenericTokenCard => 6 case Tls => 13 case Ttls => 21 case Peap => 25 case MsChapV2 => 26 case Teap => 55
  }

  function TypeFrom(b: byte): Option<EapType> {
    if b == 1 then Some(Identity) else if b == 2 then Some(Notification) else if b == 3 then Some(Nak)
    else if b == 4 then Some(Md5Challenge) else if b == 5 then Some(OneTimePassword)
    else if b == 6 then Some(GenericTokenCard) else if b == 13 then Some(Tls) else if b == 21 then Some(Ttls)
    else if b == 25 then Some(Peap) else if b == 26 then Some(MsChapV2) else if b == 55 then Some(Teap) else None
  }

  datatype EapPacket = EapPacket(code: EapCode, identifier: byte, eapType: Option<EapType>, data: seq<byte>) {
    predicate HasType() { code.Request? || code.Response? }

    /** Requests and Responses carry a Type; Success and Failure are a bare header. */
    predicate WellFormed() {
      if HasType() then eapType.Some? else eapType.None? && data == []
    }
  }

  /** The longest Type-Data the two-octet Length field can describe. */
  const MAX_TYPE_DATA: nat := 65530

  /** `EapPacket::to_bytes`; the Length is truncated to 16 bits. */
  function EncodeEap(p: EapPacket): (bytes: seq<byte>)
    ensures |bytes| >= 4
  {
    var length := if p.HasType() then 5 + |p.data| else 4;
    [CodeByte(p.code), p.identifier] + U16(length % U16_RANGE)
    + if p.eapType.Some? then [TypeByte(p.eapType.value)] + p.data else []
  }

  /** `EapPacket::from_bytes` */
  function DecodeEap(bytes: seq<byte>): Result<EapPacket, EapError> {
    if |bytes| < 4 then Failure(PacketTooShort(4, |bytes|))
    else if CodeFrom(bytes[0]).None? then Failure(InvalidCode(bytes[0]))
    else
      var code, length := CodeFrom(bytes[0]).value, FromU16(bytes[2..4]);
      if length < 4 then Failure(InvalidLength(length))
      else if |bytes| < length then Failure(PacketTooShort(length, |bytes|))
      else if code.Request? || code.Response? then
        if length < 5 then Failure(InvalidLength(length))
        else Success(EapPacket(code, bytes[1], TypeFrom(bytes[4]), bytes[5..length]))
      else Success(EapPacket(code, bytes[1], None, []))
  }

  /** Encoding loses nothing exactly when the Length field can hold the packet. */
  lemma EapRoundTrip(p: EapPacket)
    requires p.WellFormed()
    ensures DecodeEap(EncodeEap(p)) == Success(p) <==> |p.data| <= MAX_TYPE_DATA
  {
    var bytes := EncodeEap(p);
    var length := if p.HasType() then 5 + |p.data| else 4;
    assert bytes[2..4] == U16(length % U16_RANGE);
    U16RoundTrip(length % U16_RANGE);
    if |p.data| <= MAX_TYPE_DATA && p.HasType() {
      assert bytes[5..length] == p.data;
    }
  }

  /** A decoded Request or Response of a known Type is re-encoded to the octets it was read from. */
  lemma EapCanonical(bytes: seq<byte>, p: EapPacket)
    requires DecodeEap(bytes) == Success(p) && p.eapType.Some?
    ensures 5 + |p.data| <= |bytes| && EncodeEap(p) == bytes[..5 + |p.data|]
  {
    hide U16, FromU16, TypeFrom, TypeByte;
    var length := FromU16(bytes[2..4]);
    U16Canonical(bytes[2..4]);
    TypeCanonical(bytes[4]);
    assert CodeByte(p.code) == bytes[0] && p.eapType == TypeFrom(bytes[4]) && p.data == bytes[5..length];
    assert EncodeEap(p) == [bytes[0], bytes[1]] + bytes[2..4] + ([bytes[4]] + bytes[5..length]);
  }

  lemma TypeCanonical(b: byte)
    ensures TypeFrom(b).Some? ==> TypeByte(TypeFrom(b).value) == b
  {
  }

  /** The Types this server speaks or understands, by their numbers. */
  lemma TypeNumbers(b: byte)
    ensures TypeFrom(b) == Some(Identity) <==> b == 1
    ensures TypeFrom(b) == Some(Nak) <==> b == 3
    ensures TypeFrom(b) == Some(Tls) <==> b == 13
    ensures TypeFrom(b) == Some(Teap) <==> b == 55
  {
  }

  /** The octets that are read as a Request or Response: its Code, its Identifier, the length of all of it, its Type,
      and so much of what follows as the length says. */
  lemma EapLayout(bytes: seq<byte>, p: EapPacket)
    requires p.HasType()
    ensures DecodeEap(bytes) == Success(p) <==>
            && |bytes| >= 5 + |p.data| && bytes[0] == (if p.code.Request? then 1 else 2) && bytes[1] == p.identifier
            && 256 * bytes[2] as int + bytes[3] as int == 5 + |p.data|
            && TypeFrom(bytes[4]) == p.eapType && bytes[5..5 + |p.data|] == p.data
  {
    if |bytes| >= 5 {
      assert bytes[2..4][0] == bytes[2] && bytes[2..4][1] == bytes[3];
    }
  }

  /** EAP-Success is four octets. */
  lemma SuccessLayout(identifier: byte)
    ensures EncodeEap(EapPacket(EapSuccess, identifier, None, [])) == [3, identifier, 0, 4]
  {
  }

  // ---------------------------------------------------------------------------------------
  // EAP-TLS Type-Data
  // ---------------------------------------------------------------------------------------

  /** The L, M and S bits; reserved bits are dropped. */
  datatype TlsFlags = TlsFlags(length: bool, more: bool, start: bool)

  datatype EapTlsPacket = EapTlsPacket(flags: TlsFlags, messageLength: Option<u32>, data: seq<byte>) {
    /** The L bit announces the length field. */
    predicate Consistent() { flags.length <==> messageLength.Some? }
  }

  function FlagByte(f: TlsFlags): byte {
    (if f.length then 0x80 else 0) + (if f.more then 0x40 else 0) + (if f.start then 0x20 else 0)
  }

  function FlagsFrom(b: byte): TlsFlags {
    TlsFlags(b >= 0x80, b / 0x40 % 2 == 1, b / 0x20 % 2 == 1)
  }

  /** `EapTlsPacket::to_eap_data` */
  function EncodeTls(p: EapTlsPacket): (bytes: seq<byte>)
    ensures |bytes| == 1 + (if p.messageLength.Some? then 4 else 0) + |p.data|
  {
    [FlagByte(p.flags)] + (if p.messageLength.Some? then U32(p.messageLength.value) else []) + p.data
  }

  /** `EapTlsPacket::from_eap_data` */
  function DecodeTls(bytes: seq<byte>): Result<EapTlsPacket, EapError> {
    if bytes == [] then Failure(PacketTooShort(1, 0))
    else
      var flags := FlagsFrom(bytes[0]);
      if !flags.length then Success(EapTlsPacket(flags, None, bytes[1..]))
      else if |bytes| < 5 then Failure(PacketTooShort(5, |bytes|))
      else Success(EapTlsPacket(flags, Some(FromU32(bytes[1..5])), bytes[5..]))
  }

  lemma TlsRoundTrip(p: EapTlsPacket)
    ensures p.Consistent() ==> DecodeTls(EncodeTls(p)) == Success(p)
  {
    var bytes := EncodeTls(p);
    assert FlagsFrom(bytes[0]) == p.flags;
    if p.messageLength.Some? {
      assert bytes[1..5] == U32(p.messageLength.value);
      U32RoundTrip(p.messageLength.value);
      assert bytes[5..] == p.data;
    } else {
      assert bytes[1..] == p.data;
    }
  }

  /** The octets that are read as an EAP-TLS packet: the L, M and S bits, the length of the whole message if L is
      set, and data. Reserved bits are ignored, and not set when sending. */
  lemma TlsLayout(bytes: seq<byte>, p: EapTlsPacket)
    ensures DecodeTls(bytes) == Success(p) <==>
            && p.Consistent() && |bytes| >= (if p.flags.length then 5 else 1)
            && (p.flags.length <==> bytes[0] / 0x80 % 2 == 1) && (p.flags.more <==> bytes[0] / 0x40 % 2 == 1)
            && (p.flags.start <==> bytes[0] / 0x20 % 2 == 1)
            && (p.flags.length ==>
                  p.messageLength.value ==
                  0x100_0000 * bytes[1] as int + 0x1_0000 * bytes[2] as int + 0x100 * bytes[3] as int + bytes[4] as int)
            && p.data == bytes[if p.flags.length then 5 else 1..]
    ensures EncodeTls(p)[0] % 0x20 == 0
  {
    if |bytes| >= 5 {
      var s := bytes[1..5];
      assert s[..2][0] == bytes[1] && s[..2][1] == bytes[2] && s[2..][0] == bytes[3] && s[2..][1] == bytes[4];
    }
  }

  // ---------------------------------------------------------------------------------------
  // EAP-Message attributes
  // ---------------------------------------------------------------------------------------

  const EAP_MESSAGE: byte := 79
  const MAX_VALUE_LENGTH: nat := 253

  /** A RADIUS attribute: a type and at most 253 octets. */
  type Attribute = a: RawAttribute | |a.value| <= MAX_VALUE_LENGTH witness RawAttribute(0, [])

  datatype RawAttribute = RawAttribute(kind: byte, value: seq<byte>)

  function EapValue(a: Attribute): seq<byte> { if a.kind == EAP_MESSAGE then a.value else [] }

  /** The values of all EAP-Message attributes of a packet, in order. */
  function EapOctets(attributes: seq<Attribute>): seq<byte> {
    if attributes == [] then [] else EapValue(attributes[0]) + EapOctets(attributes[1..])
  }

  lemma {:induction false} EapOctetsConcat(a: seq<Attribute>, b: seq<Attribute>)
    ensures EapOctets(a + b) == EapOctets(a) + EapOctets(b)
  {
    if a == [] {
      assert a + b == b;
    } else {
      TailOfConcat(a, b);
      EapOctetsConcat(a[1..], b);
      Associative(EapValue(a[0]), EapOctets(a[1..]), EapOctets(b));
    }
  }

  /** The EAP-Message attributes of a packet, every other attribute dropped. */
  function EapMessages(attributes: seq<Attribute>): seq<Attribute> {
    if attributes == [] then []
    else (if attributes[0].kind == EAP_MESSAGE then [attributes[0]] else []) + EapMessages(attributes[1..])
  }

  lemma {:induction false} OtherAttributesIgnored(attributes: seq<Attribute>)
    ensures EapOctets(EapMessages(attributes)) == EapOctets(attributes)
  {
    if attributes != [] {
      OtherAttributesIgnored(attributes[1..]);
      EapOctetsConcat(if attributes[0].kind == EAP_MESSAGE then [attributes[0]] else [], EapMessages(attributes[1..]));
    }
  }

  /** `eap_to_radius_attributes`: consecutive chunks of at most 253 octets. */
  function Split(bytes: seq<byte>): (attributes: seq<Attribute>) {
    if |bytes| <= MAX_VALUE_LENGTH then
      if bytes == [] then [] else [RawAttribute(EAP_MESSAGE, bytes)]
    else [RawAttribute(EAP_MESSAGE, bytes[..MAX_VALUE_LENGTH])] + Split(bytes[MAX_VALUE_LENGTH..])
  }

  lemma {:induction false} SplitOctets(bytes: seq<byte>)
    ensures EapOctets(Split(bytes)) == bytes
  {
    if |bytes| > MAX_VALUE_LENGTH {
      SplitOctets(bytes[MAX_VALUE_LENGTH..]);
      assert bytes == bytes[..MAX_VALUE_LENGTH] + bytes[MAX_VALUE_LENGTH..];
    }
  }

  lemma {:induction false} SplitAllEap(bytes: seq<byte>)
    ensures EapMessages(Split(bytes)) == Split(bytes)
  {
    if |bytes| > MAX_VALUE_LENGTH {
      SplitAllEap(bytes[MAX_VALUE_LENGTH..]);
    }
  }

  function ToAttributes(p: EapPacket): seq<Attribute> { Split(EncodeEap(p)) }

  /** `eap_from_radius_packet` */
  function FromAttributes(attributes: seq<Attribute>): Result<Option<EapPacket>, EapError> {
    var bytes := EapOctets(attributes);
    if bytes == [] then Success(None)
    else
      match DecodeEap(bytes)
      case Success(p) => Success(Some(p))
      case Failure(e) => Failure(e)
  }

  /** An EAP packet survives its attributes, whatever other attributes surround them. */
  lemma AttributesRoundTrip(p: EapPacket, attributes: seq<Attribute>)
    requires p.WellFormed() && EapMessages(attributes) == ToAttributes(p)
    ensures FromAttributes(attributes) == Success(Some(p)) <==> |p.data| <= MAX_TYPE_DATA
  {
    OtherAttributesIgnored(attributes);
    SplitOctets(EncodeEap(p));
    EapRoundTrip(p);
  }

  lemma {:induction false} SplitFrom(bytes: seq<byte>, k: nat)
    requires k < |bytes|
    ensures var n := if |bytes| - k < MAX_VALUE_LENGTH then |bytes| - k else MAX_VALUE_LENGTH;
            Split(bytes[k..]) == [RawAttribute(EAP_MESSAGE, bytes[k..k + n])] + Split(bytes[k + n..])
  {
    var rest := bytes[k..];
    if |rest| <= MAX_VALUE_LENGTH {
      assert bytes[k..|bytes|] == rest && bytes[|bytes|..] == [];
      assert [RawAttribute(EAP_MESSAGE, rest)] + [] == [RawAttribute(EAP_MESSAGE, rest)];
    } else {
      assert rest[..MAX_VALUE_LENGTH] == bytes[k..k + MAX_VALUE_LENGTH];
      assert rest[MAX_VALUE_LENGTH..] == bytes[k + MAX_VALUE_LENGTH..];
    }
  }

  /** Non-empty EAP-Messages, all but the last full. */
  predicate Chunks(attributes: seq<Attribute>) {
    && (forall i :: 0 <= i < |attributes| ==> attributes[i].kind == 79 && attributes[i].value != [])
    && (forall i :: 0 <= i < |attributes| - 1 ==> |attributes[i].value| == 253)
  }

  lemma {:induction false} SplitShape(bytes: seq<byte>)
    ensures Chunks(Split(bytes))
  {
    if |bytes| > MAX_VALUE_LENGTH {
      var attributes, rest := Split(bytes), Split(bytes[MAX_VALUE_LENGTH..]);
      SplitShape(bytes[MAX_VALUE_LENGTH..]);
      assert rest != [];
      assert forall i :: 1 <= i < |attributes| ==> attributes[i] == rest[i - 1];
    }
  }

  method EapToAttributes(p: EapPacket) returns (attributes: seq<Attribute>)
    ensures attributes == ToAttributes(p) && Chunks(attributes)
  {
    var bytes := EncodeEap(p);
    SplitShape(bytes);
    attributes := [];
    var offset := 0;
    while offset < |bytes|
      invariant 0 <= offset <= |bytes|
      invariant attributes + Split(bytes[offset..]) == Split(bytes)
    {
      var chunk := if |bytes| - offset < MAX_VALUE_LENGTH then |bytes| - offset else MAX_VALUE_LENGTH;
      SplitFrom(bytes, offset);
      var attribute: Attribute := RawAttribute(EAP_MESSAGE, bytes[offset..offset + chunk]);
      Associative(attributes, [attribute], Split(bytes[offset + chunk..]));
      attributes := attributes + [attribute];
      offset := offset + chunk;
    }
    assert bytes[offset..] == [] && attributes + [] == attributes;
  }

  method EapFromAttributes(attributes: seq<Attribute>) returns (r: Result<Option<EapPacket>, EapError>)
    ensures r == FromAttributes(attributes)
  {
    var bytes: seq<byte> := [];
    for i := 0 to |attributes|
      invariant bytes == EapOctets(attributes[..i])
    {
      assert attributes[..i + 1] == attributes[..i] + [attributes[i]];
      EapOctetsConcat(attributes[..i], [attributes[i]]);
      assert EapOctets([attributes[i]]) == EapValue(attributes[i]) + EapOctets([]);
      if attributes[i].kind == EAP_MESSAGE {
        bytes := bytes + attributes[i].value;
      }
    }
    assert attributes[..|attributes|] == attributes;
    if bytes == [] {
      return Success(None);
    }
    match DecodeEap(bytes) {
      case Success(p) => r := Success(Some(p));
      case Failure(e) => r := Failure(e);
    }
  }
}
