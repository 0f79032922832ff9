/** How a RADIUS request names an EAP conversation: the State attribute and the conversation binding. */
module Binding {
  import opened Octets
  import opened EapCodec

  const USER_NAME: byte := 1
  const NAS_IP_ADDRESS: byte := 4
  const STATE: byte := 24
  const NAS_IDENTIFIER: byte := 32
  const NAS_IPV6_ADDRESS: byte := 95

  const STATE_LEN: nat := 16

  /** The first attribute of a kind. */
  function Find(attributes: seq<Attribute>, kind: byte): (value: Option<seq<byte>>)
    ensures value.Some? ==> |value.value| <= MAX_VALUE_LENGTH
  {
    if attributes == [] then None
    else if attributes[0].kind == kind then Some(attributes[0].value)
    else Find(attributes[1..], kind)
  }

  /** The first attribute of the kind is found, whatever follows it. */
  lemma {:induction false} FindFirst(before: seq<Attribute>, a: Attribute, after: seq<Attribute>)
    requires forall i :: 0 <= i < |before| ==> before[i].kind != a.kind
    ensures Find(before + [a] + after, a.kind) == Some(a.value) && Find(before, a.kind) == None
  {
    var all := before + [a] + after;
    if before != [] {
      FindFirst(before[1..], a, after);
      assert all[0] == before[0] && all[1..] == before[1..] + [a] + after;
    }
  }

  datatype IpAddr = V4(o4: seq<byte>) | V6(o6: seq<byte>) {
    predicate Valid() { if V4? then |o4| == 4 else |o6| == 16 }

    /** `to_canonical`: an IPv4-mapped IPv6 address is the IPv4 address it maps. */
    function Canonical(): IpAddr
      requires Valid()
    {
      if V6? && o6[..12] == seq(10, _ => 0) + [255, 255] then V4(o6[12..]) else this
    }

    function Octets(): seq<byte> { if V4? then o4 else o6 }
  }

  type Ip = ip: IpAddr | ip.Valid() witness V4([0, 0, 0, 0])

  /** One field of the binding: tag, presence octet and, when present, length and value. */
  function Field(tag: byte, value: Option<seq<byte>>): seq<byte>
    requires value.Some? ==> |value.value| < U16_RANGE
  {
    match value
    case None => [tag, 0]
    case Some(v) => [tag, 1] + U16(|v|) + v
  }

  function ClientValue(client: Option<Ip>): (value: Option<seq<byte>>)
    ensures value.Some? ==> |value.value| <= 16
  {
    match client
    case None => None
    case Some(ip) => Some(ip.Canonical().Octets())
  }

  /** Field values fit their two-octet length. */
  predicate Short(values: seq<Option<seq<byte>>>) {
    forall i :: 0 <= i < |values| && values[i].Some? ==> |values[i].value| < U16_RANGE
  }

  function Fields(tags: seq<byte>, values: seq<Option<seq<byte>>>): seq<byte>
    requires |tags| == |values| && Short(values)
  {
    if tags == [] then [] else Field(tags[0], values[0]) + Fields(tags[1..], values[1..])
  }

  const TAGS: seq<byte> := [0, NAS_IP_ADDRESS, NAS_IPV6_ADDRESS, NAS_IDENTIFIER, USER_NAME]

  function BoundValues(request: seq<Attribute>, client: Option<Ip>): (values: seq<Option<seq<byte>>>)
    ensures |values| == |TAGS| && Short(values)
  {
    [ClientValue(client), Find(request, NAS_IP_ADDRESS), Find(request, NAS_IPV6_ADDRESS),
     Find(request, NAS_IDENTIFIER), Find(request, USER_NAME)]
  }

  /** `conversation_binding` */
  function ConversationBinding(request: seq<Attribute>, client: Option<Ip>): seq<byte> {
    Fields(TAGS, BoundValues(request, client))
  }

  /** A field can be told from whatever follows it. */
  lemma FieldPrefix(tag: byte, a: Option<seq<byte>>, b: Option<seq<byte>>, restA: seq<byte>, restB: seq<byte>)
    requires a.Some? ==> |a.value| < U16_RANGE
    requires b.Some? ==> |b.value| < U16_RANGE
    requires Field(tag, a) + restA == Field(tag, b) + restB
    ensures a == b && restA == restB
  {
    var s, t := Field(tag, a) + restA, Field(tag, b) + restB;
    assert s[1] == t[1];
    if a.Some? {
      assert s[2..4] == U16(|a.value|) && t[2..4] == U16(|b.value|);
      U16RoundTrip(|a.value|);
      U16RoundTrip(|b.value|);
      assert s[4..4 + |a.value|] == a.value && t[4..4 + |a.value|] == b.value;
      assert s[4 + |a.value|..] == restA && t[4 + |a.value|..] == restB;
    } else {
      assert s[2..] == restA && t[2..] == restB;
    }
  }

  lemma CanonicalOctets(a: Option<Ip>, b: Option<Ip>)
    ensures ClientValue(a) == ClientValue(b) <==>
            a.Some? == b.Some? && (a.Some? ==> a.value.Canonical() == b.value.Canonical())
  {
  }

  /** `a` is the IPv6 form of the IPv4 address `b`. */
  predicate Maps(a: IpAddr, b: IpAddr) {
    a.V6? && b.V4? && a.o6 == [0, 0, 0, 0, 0, 0, 0, 0, 0, 0, 0xFF, 0xFF] + b.o4
  }

  predicate SameAddress(a: IpAddr, b: IpAddr) { a == b || Maps(a, b) || Maps(b, a) }

  lemma CanonicalExactly(a: Ip, b: Ip)
    ensures a.Canonical() == b.Canonical() <==> SameAddress(a, b)
  {
    var mapped: seq<byte> := [0, 0, 0, 0, 0, 0, 0, 0, 0, 0, 0xFF, 0xFF];
    assert seq(10, _ => 0) + [255, 255] == mapped;
    assert a.V6? ==> a.o6 == a.o6[..12] + a.o6[12..];
    assert b.V6? ==> b.o6 == b.o6[..12] + b.o6[12..];
    assert Maps(a, b) ==> a.o6[..12] == mapped && a.o6[12..] == b.o4;
    assert Maps(b, a) ==> b.o6[..12] == mapped && b.o6[12..] == a.o4;
  }

  /** Two requests carry the same binding exactly when they come from the same client (up to
      IPv4 mapping) and agree on all four naming attributes. */
  lemma BindingExact(r: seq<Attribute>, c: Option<Ip>, r': seq<Attribute>, c': Option<Ip>)
    ensures ConversationBinding(r, c) == ConversationBinding(r', c') <==>
            && c.Some? == c'.Some? && (c.Some? ==> SameAddress(c.value, c'.value))
            && Find(r, 4) == Find(r', 4) && Find(r, 95) == Find(r', 95)
            && Find(r, 32) == Find(r', 32) && Find(r, 1) == Find(r', 1)
  {
    CanonicalOctets(c, c');
    if c.Some? && c'.Some? {
      CanonicalExactly(c.value, c'.value);
    }
    var v, v' := BoundValues(r, c), BoundValues(r', c');
    if ConversationBinding(r, c) == ConversationBinding(r', c') {
      FieldsInjective(TAGS, v, v');
      assert v[0] == v'[0] && v[1] == v'[1] && v[2] == v'[2] && v[3] == v'[3] && v[4] == v'[4];
    }
  }

  lemma {:induction false} FieldsInjective(tags: seq<byte>, values: seq<Option<seq<byte>>>,
                                           values': seq<Option<seq<byte>>>)
    requires |tags| == |values| == |values'| && Short(values) && Short(values')
    requires Fields(tags, values) == Fields(tags, values')
    ensures values == values'
  {
    if tags != [] {
      FieldPrefix(tags[0], values[0], values'[0], Fields(tags[1..], values[1..]), Fields(tags[1..], values'[1..]));
      FieldsInjective(tags[1..], values[1..], values'[1..]);
      assert values == [values[0]] + values[1..] && values' == [values'[0]] + values'[1..];
    }
  }

  // ---------------------------------------------------------------------------------------
  // State and session ID
  // ---------------------------------------------------------------------------------------

  function HexDigit(n: nat): char
    requires n < 16
  {
    "0123456789abcdef"[n]
  }

  function HexValue(c: char): Option<nat> {
    if '0' <= c <= '9' then Some((c - '0') as nat)
    else if 'a' <= c <= 'f' then Some(10 + (c - 'a') as nat)
    else if 'A' <= c <= 'F' then Some(10 + (c - 'A') as nat)
    else None
  }

  function Hex(state: seq<byte>): (s: string)
    ensures |s| == 2 * |state|
  {
    if state == [] then "" else [HexDigit(state[0] / 16), HexDigit(state[0] % 16)] + Hex(state[1..])
  }

  /** `u8::from_str_radix(_, 16)` of two characters; a leading plus sign is accepted. */
  function ParsePair(a: char, b: char): (r: Option<byte>) {
    match (HexValue(a), HexValue(b))
    case (Some(h), Some(l)) => if h < 16 && l < 16 then Some(h * 16 + l) else None
    case (None, Some(l)) => if a == '+' && l < 16 then Some(l) else None
    case _ => None
  }

  /** `session_id_for_state`: only a State of 16 octets names a session. */
  function SessionIdForState(state: Option<seq<byte>>): Option<string> {
    if state.Some? && |state.value| == STATE_LEN then Some(Hex(state.value)) else None
  }

  /** `state_for`: pairs that do not parse are skipped. */
  function StateFor(id: string): seq<byte> {
    if |id| < 2 then []
    else
      var first := ParsePair(id[0], id[1]);
      (if first.Some? then [first.value] else []) + StateFor(id[2..])
  }

  lemma PairRoundTrip(b: byte)
    ensures ParsePair(HexDigit(b / 16), HexDigit(b % 16)) == Some(b)
  {
    DigitRoundTrip(b / 16);
    DigitRoundTrip(b % 16);
  }

  lemma DigitRoundTrip(n: nat)
    requires n < 16
    ensures HexValue(HexDigit(n)) == Some(n)
  {
  }

  lemma {:induction false} StateForHex(state: seq<byte>)
    ensures StateFor(Hex(state)) == state
  {
    if state != [] {
      PairRoundTrip(state[0]);
      assert Hex(state)[2..] == Hex(state[1..]);
      StateForHex(state[1..]);
    }
  }

  /** A State names a session exactly when it has 16 octets. */
  lemma StateLength(state: Option<seq<byte>>)
    ensures SessionIdForState(state).Some? <==> state.Some? && |state.value| == 16
  {
  }

  /** Distinct States name distinct sessions, and a session's State names it again. */
  lemma StateMapping(state: seq<byte>, other: seq<byte>)
    requires |state| == |other| == STATE_LEN
    ensures StateFor(SessionIdForState(Some(state)).value) == state
    ensures SessionIdForState(Some(state)) == SessionIdForState(Some(other)) <==> state == other
  {
    StateForHex(state);
    StateForHex(other);
  }
}
