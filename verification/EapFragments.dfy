/** Fragmentation and reassembly of TLS messages (sections 2.1.5 and 3.1 of RFC 5216). */
module EapFragments {
  import opened Octets
  import opened EapCodec

  const MAX_MESSAGE_LENGTH: nat := 65536

  function Flatten(parts: seq<seq<byte>>): seq<byte> {
    if parts == [] then [] else Flatten(parts[..|parts| - 1]) + parts[|parts| - 1]
  }

  // ---------------------------------------------------------------------------------------
  // The sender
  // ---------------------------------------------------------------------------------------

  datatype LengthFlagPolicy = Always | FragmentedOnly

  function Min(a: nat, b: nat): nat { if a < b then a else b }

  function SaturatingSub(a: nat, b: nat): nat { if a < b then 0 else a - b }

  /** Message, fragment size limit and length-flag policy of one fragmentation. */
  datatype Job = Job(message: seq<byte>, max: nat, policy: LengthFlagPolicy) {

    predicate LengthOnFirst() {
      policy.Always? || |message| > SaturatingSub(max, 1)
    }

    function FirstSize(): nat {
      if LengthOnFirst() then SaturatingSub(max, 5) else SaturatingSub(max, 1)
    }

    function Size(offset: nat): nat
      requires offset <= |message|
    {
      Min(if offset == 0 then FirstSize() else SaturatingSub(max, 1), |message| - offset)
    }

    /** The loop makes progress: the first packet has room for data. */
    predicate Progresses() {
      message == [] || FirstSize() > 0
    }

    function Packet(offset: nat): (p: EapTlsPacket)
      requires offset <= |message|
      ensures p.Consistent() && !p.flags.start
    {
      var size := Size(offset);
      var more := offset + size < |message|;
      if offset == 0 && LengthOnFirst()
      then EapTlsPacket(TlsFlags(true, more, false), Some(|message| % U32_RANGE), message[offset..offset + size])
      else EapTlsPacket(TlsFlags(false, more, false), None, message[offset..offset + size])
    }

    function PacketsFrom(offset: nat): (packets: seq<EapTlsPacket>)
      requires offset <= |message| && Progresses()
      ensures offset < |message| ==> packets != []
      decreases |message| - offset
    {
      if offset == |message| then [] else [Packet(offset)] + PacketsFrom(offset + Size(offset))
    }

    function Packets(): seq<EapTlsPacket>
      requires Progresses()
    {
      PacketsFrom(0)
    }
  }

  /** Exactly when the first packet has no room, an iteration of the loop stays where it was. */
  lemma StuckWithoutRoom(job: Job, offset: nat)
    requires offset < |job.message|
    ensures job.Progresses() ==> job.Size(offset) > 0
    ensures !job.Progresses() ==> job.Size(0) == 0
    ensures job.max >= 6 ==> job.Progresses()
  {
  }

  /** The L bit: never after the first packet; on the first under `Always`, and under `FragmentedOnly` exactly when
      there is more than one packet. The M bit is set on all but the last, S on none, the announced length is that
      of the whole message, and only the last packet falls short of the size limit. */
  lemma {:induction false} PacketFlags(job: Job, i: nat)
    requires job.Progresses() && i < |job.Packets()|
    ensures var packets := job.Packets(); var p := packets[i];
            && (p.flags.length <==> i == 0 && (job.policy.Always? || |packets| > 1))
            && (p.flags.more <==> i < |packets| - 1) && !p.flags.start
            && p.messageLength == (if p.flags.length then Some(|job.message| % U32_RANGE) else None)
            && (i < |packets| - 1 ==> |EncodeTls(p)| == job.max)
  {
    FlagsFromOffset(job, 0, i);
    if job.message != [] {
      var packets, n := job.Packets(), job.Size(0);
      assert packets == [job.Packet(0)] + job.PacketsFrom(n);
      assert |packets| > 1 <==> n < |job.message|;
    }
  }

  /** One packet carries the message whenever it can: flags, the length where it is always announced, the message. */
  lemma OnePacket(job: Job)
    requires job.Progresses() && job.message != []
    ensures |job.Packets()| == 1 <==> (if job.policy.Always? then 5 else 1) + |job.message| <= job.max
  {
    var n := job.Size(0);
    assert job.Packets() == [job.Packet(0)] + job.PacketsFrom(n);
    assert |job.Packets()| == 1 <==> n == |job.message|;
  }

  lemma {:induction false} FlagsFromOffset(job: Job, offset: nat, i: nat)
    requires job.Progresses() && offset <= |job.message| && i < |job.PacketsFrom(offset)|
    ensures var packets := job.PacketsFrom(offset); var p := packets[i];
            && (p.flags.length <==> i == 0 && offset == 0 && job.LengthOnFirst())
            && (p.flags.more <==> i < |packets| - 1) && !p.flags.start
            && p.messageLength == (if p.flags.length then Some(|job.message| % U32_RANGE) else None)
            && (i < |packets| - 1 ==> |EncodeTls(p)| == job.max)
    decreases |job.message| - offset
  {
    var next := offset + job.Size(offset);
    assert job.PacketsFrom(offset) == [job.Packet(offset)] + job.PacketsFrom(next);
    if i > 0 {
      FlagsFromOffset(job, next, i - 1);
    }
  }

  method FragmentTlsMessage(message: seq<byte>, max: nat, policy: LengthFlagPolicy) returns (packets: seq<EapTlsPacket>)
    requires Job(message, max, policy).Progresses()
    ensures packets == Job(message, max, policy).Packets()
    ensures forall i :: 0 <= i < |packets| ==> |EncodeTls(packets[i])| <= max
  {
    ghost var job := Job(message, max, policy);
    packets := [];
    var totalLength := |message| % U32_RANGE;
    var offset := 0;
    var subsequentSize := SaturatingSub(max, 1);
    var lengthOnFirst := policy.Always? || |message| > subsequentSize;
    var firstSize := if lengthOnFirst then SaturatingSub(max, 5) else subsequentSize;
    while offset < |message|
      invariant 0 <= offset <= |message|
      invariant packets + job.PacketsFrom(offset) == job.Packets()
      invariant forall i :: 0 <= i < |packets| ==> |EncodeTls(packets[i])| <= max
    {
      var isFirst := offset == 0;
      var remaining := |message| - offset;
      var size := if isFirst then Min(firstSize, remaining) else Min(subsequentSize, remaining);
      var more := offset + size < |message|;
      var data := message[offset..offset + size];
      var packet;
      if isFirst && lengthOnFirst {
        packet := EapTlsPacket(TlsFlags(true, more, false), Some(totalLength), data);
      } else {
        packet := EapTlsPacket(TlsFlags(false, more, false), None, data);
      }
      assert packet == job.Packet(offset);
      Associative(packets, [packet], job.PacketsFrom(offset + size));
      packets := packets + [packet];
      offset := offset + size;
    }
    assert packets + [] == packets;
  }

  // ---------------------------------------------------------------------------------------
  // The receiver
  // ---------------------------------------------------------------------------------------

  datatype Added = Added(next: Assembler, result: Result<Option<seq<byte>>, EapError>)

  datatype Assembler = Assembler(expected: Option<u32>, buffer: seq<byte>) {

    /** `check_fragment`: why a fragment is refused, if it is. */
    function Refusal(p: EapTlsPacket): Option<EapError> {
      var first := buffer == [] && expected.None?;
      var announced := if p.messageLength.Some? then p.messageLength.value else 0;
      if p.flags.more && p.data == [] then Some(InvalidLength(0))
      else if first && p.flags.more && !p.flags.length then Some(InvalidLength(0))
      else if p.flags.length && (announced == 0 || announced > MAX_MESSAGE_LENGTH) then Some(InvalidLength(announced))
      else
        var limit := if expected.Some? then expected.value
                     else if first && p.flags.length then announced
                     else MAX_MESSAGE_LENGTH;
        var total := |buffer| + |p.data|;
        if total > limit then Some(InvalidLength(total)) else None
    }

    /** `add_fragment` on values. */
    function Add(p: EapTlsPacket): Added {
      if Refusal(p).Some? then Added(CLEARED, Failure(Refusal(p).value))
      else
        var expected' := if p.flags.length && expected.None? then p.messageLength else expected;
        var buffer' := buffer + p.data;
        if p.flags.more then Added(Assembler(expected', buffer'), Success(None))
        else if expected'.Some? && |buffer'| != expected'.value then Added(CLEARED, Failure(InvalidLength(|buffer'|)))
        else Added(CLEARED, Success(Some(buffer')))
    }

    /** Octets still to come. */
    function Remaining(): int {
      if expected.Some? then expected.value - |buffer| else MAX_MESSAGE_LENGTH + 1
    }

    /** The buffer is empty exactly when no length is pending, and never outgrows it. */
    predicate Bounded() {
      if expected.None? then buffer == []
      else 1 <= |buffer| <= expected.value <= MAX_MESSAGE_LENGTH
    }
  }

  const CLEARED: Assembler := Assembler(None, [])

  class TlsFragmentAssembler {
    var expectedLength: Option<u32>
    var fragments: seq<byte>

    function Model(): Assembler
      reads this
    {
      Assembler(expectedLength, fragments)
    }

    constructor ()
      ensures Model() == CLEARED
    {
      expectedLength := None;
      fragments := [];
    }

    method Reset()
      modifies this
      ensures Model() == CLEARED
    {
      expectedLength := None;
      fragments := [];
    }

    method AddFragment(p: EapTlsPacket) returns (r: Result<Option<seq<byte>>, EapError>)
      modifies this
      ensures Added(Model(), r) == old(Model()).Add(p)
    {
      var refusal := Model().Refusal(p);
      if refusal.Some? {
        Reset();
        return Failure(refusal.value);
      }
      if p.flags.length && expectedLength.None? {
        expectedLength := p.messageLength;
      }
      fragments := fragments + p.data;
      if !p.flags.more {
        if expectedLength.Some? && |fragments| != expectedLength.value {
          var got := |fragments|;
          Reset();
          return Failure(InvalidLength(got));
        }
        var complete := fragments;
        fragments := [];
        expectedLength := None;
        return Success(Some(complete));
      }
      return Success(None);
    }
  }

  /** The assembler after an arbitrary sequence of packets. */
  function Assembled(packets: seq<EapTlsPacket>): Assembler {
    if packets == [] then CLEARED else Assembled(packets[..|packets| - 1]).Add(packets[|packets| - 1]).next
  }

  /** The packets accepted since the last completion, error or reset. */
  function Accepted(packets: seq<EapTlsPacket>): seq<EapTlsPacket> {
    if packets == [] then []
    else
      var before, last := packets[..|packets| - 1], packets[|packets| - 1];
      if Assembled(before).Add(last).result == Success(None) then Accepted(before) + [last] else []
  }

  function Payloads(packets: seq<EapTlsPacket>): seq<seq<byte>> {
    seq(|packets|, i requires 0 <= i < |packets| => packets[i].data)
  }

  /** The buffer holds the accepted fragments, the first of which announced the length. */
  ghost predicate Holds(a: Assembler, accepted: seq<EapTlsPacket>) {
    && a.Bounded() && a.buffer == Flatten(Payloads(accepted)) && (accepted == [] <==> a == CLEARED)
    && (accepted != [] ==> accepted[0].flags.length && a.expected == accepted[0].messageLength)
  }

  /** What one more packet does: an error or a completion leaves nothing behind, an accepted fragment brings
      completion nearer, and a completed message is what was accepted, of exactly the announced length. */
  ghost predicate AddsSafely(a: Assembler, accepted: seq<EapTlsPacket>, p: EapTlsPacket) {
    var added := a.Add(p);
    && (added.result.Failure? ==> added.next == CLEARED)
    && (added.result == Success(None) ==>
          added.next.Remaining() < a.Remaining() && Holds(added.next, accepted + [p]))
    && (added.result.Success? && added.result.value.Some? ==>
          var message := added.result.value.value;
          && added.next == CLEARED && message == Flatten(Payloads(accepted + [p])) && |message| <= MAX_MESSAGE_LENGTH
          && (accepted != [] ==> accepted[0].messageLength == Some(|message|))
          && (accepted == [] && p.flags.length ==> p.messageLength == Some(|message|)))
  }

  lemma AddKeeps(a: Assembler, accepted: seq<EapTlsPacket>, p: EapTlsPacket)
    requires Holds(a, accepted)
    ensures AddsSafely(a, accepted, p)
  {
    PayloadsSnoc(accepted, p);
    hide Payloads, Flatten;
  }

  /** Over every sequence of packets the assembler holds what it accepted since the last completion, error or reset,
      and one more packet is taken safely. */
  lemma {:induction false} AssemblerSafety(packets: seq<EapTlsPacket>, p: EapTlsPacket)
    ensures Holds(Assembled(packets), Accepted(packets)) && AddsSafely(Assembled(packets), Accepted(packets), p)
  {
    if packets != [] {
      AssemblerSafety(packets[..|packets| - 1], packets[|packets| - 1]);
    }
    AddKeeps(Assembled(packets), Accepted(packets), p);
  }

  /** The assembler after packets all of which it accepted as fragments of one message still incomplete. */
  function Gather(packets: seq<EapTlsPacket>): Option<Assembler> {
    if packets == [] then Some(CLEARED)
    else
      var before, last := Gather(packets[..|packets| - 1]), packets[|packets| - 1];
      if before.None? || last.flags.start || before.value.Add(last).result != Success(None) then None
      else Some(before.value.Add(last).next)
  }

  /** The packets carry one message, which the last of them completes. */
  predicate Completes(packets: seq<EapTlsPacket>, message: seq<byte>) {
    var n := |packets| - 1;
    && packets != [] && Gather(packets[..n]).Some? && !packets[n].flags.start
    && Gather(packets[..n]).value.Add(packets[n]).result == Success(Some(message))
  }

  lemma {:induction false} GatherHolds(packets: seq<EapTlsPacket>)
    requires Gather(packets).Some?
    ensures Holds(Gather(packets).value, packets)
    ensures forall i :: 0 <= i < |packets| ==> packets[i].flags.more && !packets[i].flags.start
  {
    if packets != [] {
      var n := |packets| - 1;
      GatherHolds(packets[..n]);
      AddKeeps(Gather(packets[..n]).value, packets[..n], packets[n]);
      assert packets[..n] + [packets[n]] == packets;
      assert forall i :: 0 <= i < n ==> packets[..n][i] == packets[i];
    }
  }

  /** A completed message is the data of its packets, all but the last with the M bit set and none with the S bit;
      the first of several announced its length, and so did a single one with the L bit. */
  lemma CompletesMeaning(packets: seq<EapTlsPacket>, message: seq<byte>)
    requires Completes(packets, message)
    ensures message == Flatten(Payloads(packets)) && |message| <= MAX_MESSAGE_LENGTH
    ensures forall i :: 0 <= i < |packets| ==> !packets[i].flags.start && (packets[i].flags.more <==> i < |packets| - 1)
    ensures |packets| > 1 || packets[0].flags.length ==> packets[0].messageLength == Some(|message|)
  {
    var n := |packets| - 1;
    GatherHolds(packets[..n]);
    AddKeeps(Gather(packets[..n]).value, packets[..n], packets[n]);
    assert packets[..n] + [packets[n]] == packets;
    assert forall i :: 0 <= i < n ==> packets[..n][i] == packets[i];
  }

  /** Exactly which packet is refused after the fragments accepted so far: an empty fragment; a first fragment that
      announces no length; a length that is announced as zero or as more than 65536; data beyond the length announced
      first, or beyond 65536 where none was; and a last packet that falls short of the length announced. */
  lemma RefusedExactly(a: Assembler, accepted: seq<EapTlsPacket>, p: EapTlsPacket)
    requires Holds(a, accepted)
    ensures var total := |Flatten(Payloads(accepted))| + |p.data|;
            var stated := if p.messageLength.Some? then p.messageLength.value else 0;
            var announced := if accepted != [] then accepted[0].messageLength
                             else if p.flags.length then Some(stated) else None;
            a.Add(p).result.Failure? <==>
            || (p.flags.more && (p.data == [] || (accepted == [] && !p.flags.length)))
            || (p.flags.length && !(1 <= stated <= 65536))
            || (if announced.Some? then total > announced.value || (!p.flags.more && total < announced.value)
                else total > 65536)
  {
  }

  lemma PayloadsSnoc(packets: seq<EapTlsPacket>, p: EapTlsPacket)
    ensures Flatten(Payloads(packets + [p])) == Flatten(Payloads(packets)) + p.data
  {
    var parts := Payloads(packets + [p]);
    assert parts[..|packets|] == Payloads(packets);
  }

  // ---------------------------------------------------------------------------------------
  // Sender to receiver
  // ---------------------------------------------------------------------------------------

  /** The assembler in the middle of a message. */
  function Midway(job: Job, offset: nat): Assembler
    requires offset <= |job.message| <= MAX_MESSAGE_LENGTH
  {
    if offset == 0 then CLEARED else Assembler(Some(|job.message|), job.message[..offset])
  }

  lemma StepThrough(job: Job, offset: nat)
    requires job.Progresses() && offset < |job.message| <= MAX_MESSAGE_LENGTH
    requires offset > 0 ==> job.LengthOnFirst()
    ensures var next := offset + job.Size(offset);
            Midway(job, offset).Add(job.Packet(offset)) ==
            if next < |job.message| then Added(Midway(job, next), Success(None))
              else Added(CLEARED, Success(Some(job.message)))
    ensures offset + job.Size(offset) < |job.message| ==> job.LengthOnFirst()
  {
    var next := offset + job.Size(offset);
    assert job.message[..offset] + job.message[offset..next] == job.message[..next];
    assert job.message[..|job.message|] == job.message;
  }

  /** Feeding `packets` from `a` yields nothing until the last packet, and then `message`. */
  ghost predicate Delivers(a: Assembler, packets: seq<EapTlsPacket>, message: seq<byte>)
    decreases |packets|
  {
    packets != [] &&
    var added := a.Add(packets[0]);
    if |packets| == 1 then added.result == Success(Some(message))
    else added.result == Success(None) && Delivers(added.next, packets[1..], message)
  }

  lemma {:induction false} ReassembledFrom(job: Job, offset: nat)
    requires job.Progresses() && offset < |job.message| <= MAX_MESSAGE_LENGTH
    requires offset > 0 ==> job.LengthOnFirst()
    ensures Delivers(Midway(job, offset), job.PacketsFrom(offset), job.message)
    decreases |job.message| - offset
  {
    StepThrough(job, offset);
    var next := offset + job.Size(offset);
    var packets := job.PacketsFrom(offset);
    assert packets[1..] == job.PacketsFrom(next);
    if next < |job.message| {
      ReassembledFrom(job, next);
    }
  }

  /** What a receiver makes of the attributes of one RADIUS packet: an EAP-TLS packet, if any. */
  function ReadTls(attributes: seq<Attribute>): Option<EapTlsPacket> {
    match FromAttributes(attributes)
    case Failure(_) => None
    case Success(None) => None
    case Success(Some(p)) =>
      if p.eapType != Some(Tls) then None
      else
        match DecodeTls(p.data)
        case Failure(_) => None
        case Success(q) => Some(q)
  }

  /** Each RADIUS packet of `wire` carries the matching fragment as an EAP packet, next to any
      attributes that are not EAP-Message. */
  ghost predicate Carries(wire: seq<seq<Attribute>>, code: EapCode, ids: seq<byte>, packets: seq<EapTlsPacket>) {
    && |wire| == |ids| == |packets|
    && forall i :: 0 <= i < |wire| ==>
         EapMessages(wire[i]) == ToAttributes(EapPacket(code, ids[i], Some(Tls), EncodeTls(packets[i])))
  }

  /** A fresh receiver of `wire` reads nothing complete before the last packet, and then `message`. */
  ghost predicate Received(wire: seq<seq<Attribute>>, message: seq<byte>) {
    exists packets :: Reads(wire, packets) && Delivers(CLEARED, packets, message)
  }

  ghost predicate Reads(wire: seq<seq<Attribute>>, packets: seq<EapTlsPacket>) {
    |packets| == |wire| && forall i :: 0 <= i < |wire| ==> ReadTls(wire[i]) == Some(packets[i])
  }

  /** The first packet, the longest one, can be described by the EAP Length field. */
  predicate FitsEap(job: Job) {
    var header := if job.LengthOnFirst() then 5 else 1;
    Min(job.max, header + |job.message|) <= MAX_TYPE_DATA
  }

  lemma {:induction false} PacketAt(job: Job, offset: nat, i: nat)
    requires job.Progresses() && offset <= |job.message|
    requires i < |job.PacketsFrom(offset)|
    ensures var p := job.PacketsFrom(offset)[i];
            && p.Consistent()
            && |EncodeTls(p)| <= job.max
            && (|EncodeTls(p)| <= 5 + |job.message|)
            && (!job.LengthOnFirst() ==> |EncodeTls(p)| <= 1 + |job.message|)
    decreases |job.message| - offset
  {
    if i > 0 {
      PacketAt(job, offset + job.Size(offset), i - 1);
    }
  }

  lemma ReadsFragment(p: EapTlsPacket, code: EapCode, id: byte, attributes: seq<Attribute>)
    requires (code.Request? || code.Response?) && p.Consistent() && |EncodeTls(p)| <= MAX_TYPE_DATA
    requires EapMessages(attributes) == ToAttributes(EapPacket(code, id, Some(Tls), EncodeTls(p)))
    ensures ReadTls(attributes) == Some(p)
  {
    AttributesRoundTrip(EapPacket(code, id, Some(Tls), EncodeTls(p)), attributes);
    TlsRoundTrip(p);
  }

  /** A packet too long for the Length field is read back as a stump of its Type-Data, or not at all. */
  lemma DecodesStump(p: EapPacket)
    requires p.HasType() && p.eapType.Some? && MAX_TYPE_DATA < |p.data| <= MAX_TYPE_DATA + 11
    ensures var r := DecodeEap(EncodeEap(p));
            r.Success? ==>
              0 <= |p.data| - MAX_TYPE_DATA - 6 <= |p.data| && r.value.data == p.data[..|p.data| - MAX_TYPE_DATA - 6]
  {
    var bytes := EncodeEap(p);
    var length := |p.data| - MAX_TYPE_DATA - 1;
    assert (5 + |p.data|) % U16_RANGE == length;
    assert bytes[2..4] == U16(length);
    U16RoundTrip(length);
    if length >= 5 {
      assert bytes[5..length] == p.data[..length - 5];
    }
  }

  /** The header of an EAP-TLS packet alone carries no TLS data. */
  lemma HeaderOnly(p: EapTlsPacket, k: nat)
    requires p.Consistent() && k <= |EncodeTls(p)| - |p.data|
    ensures var r := DecodeTls(EncodeTls(p)[..k]); r.Success? ==> r.value.data == []
  {
    assert FlagsFrom(FlagByte(p.flags)) == p.flags;
  }

  /** A packet slightly too long for the Length field reaches the receiver without any TLS data. */
  lemma ReadsOversized(p: EapTlsPacket, code: EapCode, id: byte, attributes: seq<Attribute>)
    requires (code.Request? || code.Response?) && p.Consistent()
    requires MAX_TYPE_DATA < |EncodeTls(p)| <= MAX_MESSAGE_LENGTH + if p.flags.length then 5 else 1
    requires EapMessages(attributes) == ToAttributes(EapPacket(code, id, Some(Tls), EncodeTls(p)))
    ensures ReadTls(attributes).Some? ==> ReadTls(attributes).value.data == []
  {
    var packet := EapPacket(code, id, Some(Tls), EncodeTls(p));
    OtherAttributesIgnored(attributes);
    SplitOctets(EncodeEap(packet));
    DecodesStump(packet);
    if ReadTls(attributes).Some? {
      HeaderOnly(p, |packet.data| - MAX_TYPE_DATA - 6);
    }
  }

  lemma NothingDelivered(packets: seq<EapTlsPacket>, message: seq<byte>)
    requires packets != [] && packets[0].data == [] && message != []
    ensures !Delivers(CLEARED, packets, message)
  {
  }

  /** End to end: the receiver gets exactly the message, exactly when the EAP Length field can
      describe the first fragment. */
  lemma EndToEnd(job: Job, code: EapCode, ids: seq<byte>, wire: seq<seq<Attribute>>)
    requires 1 <= |job.message| <= MAX_MESSAGE_LENGTH && job.Progresses()
    requires code.Request? || code.Response?
    requires Carries(wire, code, ids, job.Packets())
    ensures Received(wire, job.message) <==> FitsEap(job)
  {
    var packets := job.Packets();
    forall i | 0 <= i < |packets|
      ensures packets[i].Consistent()
      ensures |EncodeTls(packets[i])| <= job.max && |EncodeTls(packets[i])| <= 5 + |job.message|
      ensures !job.LengthOnFirst() ==> |EncodeTls(packets[i])| <= 1 + |job.message|
    {
      PacketAt(job, 0, i);
    }
    if FitsEap(job) {
      forall i | 0 <= i < |wire| ensures ReadTls(wire[i]) == Some(packets[i]) {
        ReadsFragment(packets[i], code, ids[i], wire[i]);
      }
      assert Reads(wire, packets);
      ReassembledFrom(job, 0);
    } else {
      assert packets[0] == job.Packet(0);
      ReadsOversized(packets[0], code, ids[0], wire[0]);
      forall read: seq<EapTlsPacket> | Reads(wire, read) ensures !Delivers(CLEARED, read, job.message) {
        assert ReadTls(wire[0]) == Some(read[0]);
        NothingDelivered(read, job.message);
      }
    }
  }
}
