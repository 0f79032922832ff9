/** Vendor-Specific attributes (section 5.26 of RFC 2865): one vendor id, then vendor sub-attributes. */
module Vendor {
  import opened Octets
  import opened EapCodec

  const VENDOR_SPECIFIC: byte := 26

  datatype VendorSpecific = VendorSpecific(vendorId: u32, vendorType: byte, value: seq<byte>)

  datatype VendorError =
    | TooShort(have: nat)
    | TruncatedHeader
    | SubLength(declared: nat, remaining: nat)
    | NoSubAttributes
    | VendorsDiffer
    | TooLong(octets: nat)

  /** Type, length (one octet, counting itself and the type) and value. */
  function EncodeSub(sub: VendorSpecific): seq<byte> {
    [sub.vendorType, (2 + |sub.value|) % 256] + sub.value
  }

  function EncodeSubs(subs: seq<VendorSpecific>): seq<byte> {
    if subs == [] then [] else EncodeSub(subs[0]) + EncodeSubs(subs[1..])
  }

  function DecodeSubs(id: u32, rest: seq<byte>): (r: Result<seq<VendorSpecific>, VendorError>)
    decreases |rest|
  {
    if rest == [] then Success([])
    else if |rest| < 2 then Failure(TruncatedHeader)
    else if !(2 <= rest[1] <= |rest|) then Failure(SubLength(rest[1], |rest|))
    else match DecodeSubs(id, rest[rest[1]..])
      case Failure(e) => Failure(e)
      case Success(more) => Success([VendorSpecific(id, rest[0], rest[2..rest[1]])] + more)
  }

  /** `decode_value` */
  function DecodeVendor(value: seq<byte>): (r: Result<seq<VendorSpecific>, VendorError>) {
    if |value| < 6 then Failure(TooShort(|value|)) else DecodeSubs(FromU32(value[..4]), value[4..])
  }

  predicate SameVendor(subs: seq<VendorSpecific>) {
    forall i, j :: 0 <= i < |subs| && 0 <= j < |subs| ==> subs[i].vendorId == subs[j].vendorId
  }

  /** `to_attribute_combined` */
  function Combined(subs: seq<VendorSpecific>): (r: Result<Attribute, VendorError>) {
    if subs == [] then Failure(NoSubAttributes)
    else if !SameVendor(subs) then Failure(VendorsDiffer)
    else
      var value := U32(subs[0].vendorId) + EncodeSubs(subs);
      if |value| > MAX_VALUE_LENGTH then Failure(TooLong(|value|)) else Success(RawAttribute(VENDOR_SPECIFIC, value))
  }

  /** Decoding takes one encoded sub-attribute off the front. */
  lemma DecodeFirst(id: u32, sub: VendorSpecific, tail: seq<byte>)
    requires sub.vendorId == id && |sub.value| < 254
    ensures DecodeSubs(id, EncodeSub(sub) + tail) ==
            match DecodeSubs(id, tail)
            case Failure(e) => Failure(e)
            case Success(more) => Success([sub] + more)
  {
    var first := EncodeSub(sub);
    var rest := first + tail;
    Unconcat(first, tail);
    assert rest[2..|first|] == sub.value;
  }

  lemma {:induction false} SubsRoundTrip(id: u32, subs: seq<VendorSpecific>)
    requires |EncodeSubs(subs)| < 256 && forall i :: 0 <= i < |subs| ==> subs[i].vendorId == id
    ensures DecodeSubs(id, EncodeSubs(subs)) == Success(subs)
  {
    if subs != [] {
      DecodeFirst(id, subs[0], EncodeSubs(subs[1..]));
      SubsRoundTrip(id, subs[1..]);
      assert [subs[0]] + subs[1..] == subs;
    }
  }

  lemma {:induction false} SubsCanonical(id: u32, rest: seq<byte>)
    requires DecodeSubs(id, rest).Success?
    ensures var subs := DecodeSubs(id, rest).value;
            EncodeSubs(subs) == rest && (rest == [] <==> subs == []) &&
            forall i :: 0 <= i < |subs| ==> subs[i].vendorId == id
    decreases |rest|
  {
    if rest != [] {
      SubsCanonical(id, rest[rest[1]..]);
      var subs, more := DecodeSubs(id, rest).value, DecodeSubs(id, rest[rest[1]..]).value;
      assert subs[1..] == more;
      assert rest == EncodeSub(subs[0]) + rest[rest[1]..];
    }
  }

  lemma U32Canonical(s: seq<byte>)
    requires |s| == 4
    ensures FromU32(s) < U32_RANGE && U32(FromU32(s)) == s
  {
    U16Canonical(s[..2]);
    U16Canonical(s[2..]);
    var high, low := FromU16(s[..2]), FromU16(s[2..]);
    assert (high * U16_RANGE + low) / U16_RANGE == high && (high * U16_RANGE + low) % U16_RANGE == low;
    assert s == s[..2] + s[2..];
  }

  /** An attribute combines sub-attributes exactly when it decodes to them. */
  lemma CombinedExactly(subs: seq<VendorSpecific>, a: Attribute)
    ensures Combined(subs) == Success(a) <==> a.kind == VENDOR_SPECIFIC && DecodeVendor(a.value) == Success(subs)
  {
    if Combined(subs) == Success(a) {
      var id := subs[0].vendorId;
      assert EncodeSubs(subs) == EncodeSub(subs[0]) + EncodeSubs(subs[1..]);
      assert a.value[..4] == U32(id) && a.value[4..] == EncodeSubs(subs);
      U32RoundTrip(id);
      SubsRoundTrip(id, subs);
    }
    if a.kind == VENDOR_SPECIFIC && DecodeVendor(a.value) == Success(subs) {
      U32Canonical(a.value[..4]);
      SubsCanonical(FromU32(a.value[..4]), a.value[4..]);
      assert a.value == a.value[..4] + a.value[4..];
    }
  }

  /** A Vendor-Specific attribute: the vendor in four octets, then for each sub-attribute its type, a length that counts
      type and length themselves, and its value. */
  lemma VendorLayout(subs: seq<VendorSpecific>, more: seq<VendorSpecific>)
    ensures Combined(subs).Success? ==>
              && Combined(subs).value.kind == 26
              && Combined(subs).value.value == U32(subs[0].vendorId) + EncodeSubs(subs)
    ensures |subs| == 1 && |subs[0].value| <= 253 ==>
              EncodeSubs(subs) == [subs[0].vendorType, 2 + |subs[0].value|] + subs[0].value
    ensures EncodeSubs(subs + more) == EncodeSubs(subs) + EncodeSubs(more)
  {
    EncodeSubsConcat(subs, more);
    if |subs| == 1 {
      assert subs[1..] == [];
    }
  }

  lemma {:induction false} EncodeSubsConcat(a: seq<VendorSpecific>, b: seq<VendorSpecific>)
    ensures EncodeSubs(a + b) == EncodeSubs(a) + EncodeSubs(b)
  {
    if a == [] {
      assert a + b == b;
    } else {
      TailOfConcat(a, b);
      EncodeSubsConcat(a[1..], b);
      Associative(EncodeSub(a[0]), EncodeSubs(a[1..]), EncodeSubs(b));
    }
  }

  predicate Is(sub: VendorSpecific, id: u32, vendorType: byte) {
    sub.vendorId == id && sub.vendorType == vendorType
  }

  function Matching(subs: seq<VendorSpecific>, id: u32, vendorType: byte): seq<VendorSpecific> {
    if subs == [] then []
    else (if Is(subs[0], id, vendorType) then [subs[0]] else []) + Matching(subs[1..], id, vendorType)
  }

  /** The readable sub-attributes of one attribute. */
  function SubsOf(a: Attribute): seq<VendorSpecific> {
    if a.kind == VENDOR_SPECIFIC && DecodeVendor(a.value).Success? then DecodeVendor(a.value).value else []
  }

  /** `find_vendor_attributes` */
  function FindVendor(attributes: seq<Attribute>, id: u32, vendorType: byte): seq<VendorSpecific> {
    if attributes == [] then []
    else Matching(SubsOf(attributes[0]), id, vendorType) + FindVendor(attributes[1..], id, vendorType)
  }

  lemma {:induction false} FindVendorConcat(a: seq<Attribute>, b: seq<Attribute>, id: u32, vendorType: byte)
    ensures FindVendor(a + b, id, vendorType) == FindVendor(a, id, vendorType) + FindVendor(b, id, vendorType)
  {
    if a == [] {
      assert a + b == b;
    } else {
      TailOfConcat(a, b);
      FindVendorConcat(a[1..], b, id, vendorType);
      Associative(Matching(SubsOf(a[0]), id, vendorType), FindVendor(a[1..], id, vendorType),
                  FindVendor(b, id, vendorType));
    }
  }

  lemma {:induction false} MatchingAre(subs: seq<VendorSpecific>, id: u32, vendorType: byte)
    ensures forall v :: v in Matching(subs, id, vendorType) <==> v in subs && Is(v, id, vendorType)
  {
    if subs != [] {
      MatchingAre(subs[1..], id, vendorType);
      assert subs == [subs[0]] + subs[1..];
    }
  }

  /** The decoding loop. */
  method DecodeValue(value: seq<byte>) returns (r: Result<seq<VendorSpecific>, VendorError>)
    ensures r == DecodeVendor(value)
  {
    if |value| < 6 {
      return Failure(TooShort(|value|));
    }
    var id := FromU32(value[..4]);
    U32Canonical(value[..4]);
    var rest := value[4..];
    var subs: seq<VendorSpecific> := [];
    assert forall more: seq<VendorSpecific> :: subs + more == more;
    while rest != []
      invariant DecodeVendor(value) ==
                match DecodeSubs(id, rest)
                case Failure(e) => Failure(e)
                case Success(more) => Success(subs + more)
      decreases |rest|
    {
      if |rest| < 2 {
        return Failure(TruncatedHeader);
      }
      var n := rest[1];
      if n < 2 || n > |rest| {
        return Failure(SubLength(n, |rest|));
      }
      var sub := VendorSpecific(id, rest[0], rest[2..n]);
      ghost var tail := DecodeSubs(id, rest[n..]);
      if tail.Success? {
        Associative(subs, [sub], tail.value);
      }
      subs := subs + [sub];
      rest := rest[n..];
    }
    assert subs + [] == subs;
    return Success(subs);
  }
}
