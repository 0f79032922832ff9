/** The proxy's re-keying of a home server's reply: MS-MPPE keys and Tunnel-Passwords move from the home
    server's secret to the client's, under salts unique in the packet. */
module Rekey {
  import opened Octets
  import opened EapCodec
  import opened Chain
  import opened Vendor
  import opened Mppe
  import opened TunnelPasswords

  // ----- removing MS-MPPE keys -----

  predicate IsKeyType(id: u32,
                      vendorType: byte) { id == MICROSOFT && (vendorType == SEND_KEY || vendorType == RECV_KEY) }

  predicate IsKey(sub: VendorSpecific) { IsKeyType(sub.vendorId, sub.vendorType) }

  function WithoutKeys(subs: seq<VendorSpecific>): seq<VendorSpecific> {
    if subs == [] then [] else (if IsKey(subs[0]) then [] else [subs[0]]) + WithoutKeys(subs[1..])
  }

  function StripOne(a: Attribute): seq<Attribute> {
    if a.kind != VENDOR_SPECIFIC || DecodeVendor(a.value).Failure? then [a]
    else
      var subs := DecodeVendor(a.value).value;
      var remaining := WithoutKeys(subs);
      if forall sub | sub in subs :: !IsKey(sub) then [a]
      else if remaining == [] then []
      else match Combined(remaining)
        case Success(b) => [b]
        case Failure(_) => [a]
  }

  function Strip(attributes: seq<Attribute>): seq<Attribute> {
    if attributes == [] then [] else StripOne(attributes[0]) + Strip(attributes[1..])
  }

  lemma {:induction false} WithoutKeysShrinks(subs: seq<VendorSpecific>)
    ensures |EncodeSubs(WithoutKeys(subs))| <= |EncodeSubs(subs)|
    ensures forall sub :: sub in WithoutKeys(subs) <==> sub in subs && !IsKey(sub)
  {
    if subs != [] {
      WithoutKeysShrinks(subs[1..]);
      assert subs == [subs[0]] + subs[1..];
      var rest := WithoutKeys(subs[1..]);
      if IsKey(subs[0]) {
        assert WithoutKeys(subs) == rest;
      } else {
        assert WithoutKeys(subs) == [subs[0]] + rest && ([subs[0]] + rest)[1..] == rest;
      }
    }
  }

  lemma {:induction false} MatchingWithoutKeys(subs: seq<VendorSpecific>, id: u32, vendorType: byte)
    ensures Matching(WithoutKeys(subs), id, vendorType) ==
            if IsKeyType(id, vendorType) then [] else Matching(subs, id, vendorType)
  {
    if subs != [] {
      MatchingWithoutKeys(subs[1..], id, vendorType);
      var rest := WithoutKeys(subs[1..]);
      if IsKey(subs[0]) {
        assert WithoutKeys(subs) == rest;
      } else {
        assert WithoutKeys(subs) == [subs[0]] + rest && ([subs[0]] + rest)[1..] == rest;
      }
    }
  }

  /** Re-encoding what remains of a readable attribute never fails. */
  lemma RemainderFits(a: Attribute)
    requires a.kind == VENDOR_SPECIFIC && DecodeVendor(a.value).Success?
    requires WithoutKeys(DecodeVendor(a.value).value) != []
    ensures Combined(WithoutKeys(DecodeVendor(a.value).value)).Success?
  {
    var subs := DecodeVendor(a.value).value;
    CombinedExactly(subs, a);
    WithoutKeysShrinks(subs);
    var remaining := WithoutKeys(subs);
    forall i | 0 <= i < |remaining| ensures remaining[i].vendorId == subs[0].vendorId {
      assert remaining[i] in remaining;
    }
  }

  lemma FindSingle(a: Attribute, id: u32, vendorType: byte)
    ensures FindVendor([a], id, vendorType) == Matching(SubsOf(a), id, vendorType)
  {
    assert [a][1..] == [];
  }

  /** Keys are gone from a readable attribute, and its other sub-attributes remain. */
  lemma StripReadable(a: Attribute, id: u32, vendorType: byte)
    requires a.kind == VENDOR_SPECIFIC && DecodeVendor(a.value).Success?
    ensures FindVendor(StripOne(a), id, vendorType) == Matching(WithoutKeys(SubsOf(a)), id, vendorType)
    ensures forall b :: b in StripOne(a) ==> b.kind == VENDOR_SPECIFIC
  {
    var subs := SubsOf(a);
    var remaining := WithoutKeys(subs);
    if forall sub | sub in subs :: !IsKey(sub) {
      NoKeys(subs);
      FindSingle(a, id, vendorType);
    } else if remaining != [] {
      RemainderFits(a);
      var b := Combined(remaining).value;
      CombinedExactly(remaining, b);
      FindSingle(b, id, vendorType);
    }
  }

  lemma {:induction false} NoKeys(subs: seq<VendorSpecific>)
    requires forall sub | sub in subs :: !IsKey(sub)
    ensures WithoutKeys(subs) == subs
  {
    if subs != [] {
      NoKeys(subs[1..]);
    }
  }

  lemma StripOneFinds(a: Attribute, id: u32, vendorType: byte)
    ensures FindVendor(StripOne(a), id, vendorType) ==
            if IsKeyType(id, vendorType) then [] else Matching(SubsOf(a), id, vendorType)
    ensures forall b :: b in StripOne(a) ==> b.kind == a.kind
    ensures a.kind != VENDOR_SPECIFIC ==> StripOne(a) == [a]
  {
    if a.kind == VENDOR_SPECIFIC && DecodeVendor(a.value).Success? {
      StripReadable(a, id, vendorType);
      MatchingWithoutKeys(SubsOf(a), id, vendorType);
    } else {
      FindSingle(a, id, vendorType);
    }
  }

  /** Stripping removes every MS-MPPE key and leaves every other vendor sub-attribute where it was. */
  lemma {:induction false} StripFinds(attributes: seq<Attribute>, id: u32, vendorType: byte)
    ensures FindVendor(Strip(attributes), id, vendorType) ==
            if id == 311 && (vendorType == 16 || vendorType == 17) then [] else FindVendor(attributes, id, vendorType)
  {
    if attributes != [] {
      StripOneFinds(attributes[0], id, vendorType);
      StripFinds(attributes[1..], id, vendorType);
      FindVendorConcat(StripOne(attributes[0]), Strip(attributes[1..]), id, vendorType);
    }
  }

  /** The body of the stripping loop: what becomes of one attribute. */
  method StripAttribute(a: Attribute) returns (kept: seq<Attribute>)
    ensures kept == StripOne(a)
  {
    if a.kind != VENDOR_SPECIFIC {
      return [a];
    }
    var decoded := DecodeValue(a.value);
    if decoded.Failure? || forall sub | sub in decoded.value :: !IsKey(sub) {
      return [a];
    }
    var remaining := WithoutKeys(decoded.value);
    if remaining == [] {
      return [];
    }
    match Combined(remaining) {
      case Success(b) => return [b];
      case Failure(_) => return [a];
    }
  }

  /** `strip_mppe_attributes` */
  method StripMppeAttributes(attributes: seq<Attribute>) returns (rewritten: seq<Attribute>)
    ensures rewritten == Strip(attributes)
  {
    rewritten := [];
    for i := 0 to |attributes|
      invariant Strip(attributes) == rewritten + Strip(attributes[i..])
    {
      assert attributes[i..][0] == attributes[i] && attributes[i..][1..] == attributes[i + 1..];
      var kept := StripAttribute(attributes[i]);
      Associative(rewritten, kept, Strip(attributes[i + 1..]));
      rewritten := rewritten + kept;
    }
  }

  /** `rekey_mppe_attributes`; `drawn` is the random value its salts start from. */
  function RekeyMppe(h: Hash, attributes: seq<Attribute>, home: seq<byte>, client: seq<byte>, auth: Block, drawn: nat)
    : seq<Attribute>
    requires drawn < U16_RANGE
  {
    match FromPacket(h, attributes, home, auth)
    case Success(None) => attributes
    case Failure(_) => Strip(attributes)
    case Success(Some(keys)) =>
      var salts := GenerateSalts(drawn, 2);
      match KeyAttributes(h, keys, client, auth, salts[0], salts[1])
      case Success(added) => Strip(attributes) + added
      case Failure(_) => Strip(attributes)
  }

  // ----- what a packet says -----

  datatype Reading =
    | Password(password: TunnelPassword)
    | Vendors(subs: seq<VendorSpecific>)
    | Other(attribute: Attribute)

  function ReadingOf(h: Hash, a: Attribute, secret: seq<byte>, auth: Block): seq<Reading> {
    if a.kind == VENDOR_SPECIFIC then
      match DecodeVendor(a.value)
      case Success(subs) => if WithoutKeys(subs) == [] then [] else [Vendors(WithoutKeys(subs))]
      case Failure(_) => [Other(a)]
    else if a.kind != TUNNEL_PASSWORD then [Other(a)]
    else
      match FromAttribute(h, a, secret, auth)
      case Success(p) => [Password(p)]
      case Failure(_) => []
  }

  /** What a holder of `secret` reads, in order, apart from MS-MPPE keys: Tunnel-Passwords in the clear
      (undecryptable ones left out), the other sub-attributes of each Vendor-Specific attribute, and every other
      attribute as it is, malformed Vendor-Specific ones included. */
  function Readings(h: Hash, attributes: seq<Attribute>, secret: seq<byte>, auth: Block): seq<Reading> {
    if attributes == [] then []
    else ReadingOf(h, attributes[0], secret, auth) + Readings(h, attributes[1..], secret, auth)
  }

  lemma {:induction false} ReadingsConcat(h: Hash, a: seq<Attribute>, b: seq<Attribute>, secret: seq<byte>, auth: Block)
    ensures Readings(h, a + b, secret, auth) == Readings(h, a, secret, auth) + Readings(h, b, secret, auth)
  {
    if a == [] {
      assert a + b == b;
    } else {
      TailOfConcat(a, b);
      ReadingsConcat(h, a[1..], b, secret, auth);
      Associative(ReadingOf(h, a[0], secret, auth), Readings(h, a[1..], secret, auth), Readings(h, b, secret, auth));
    }
  }

  /** Nothing but MS-MPPE keys. */
  predicate OnlyKeys(a: Attribute) {
    a.kind == VENDOR_SPECIFIC && DecodeVendor(a.value).Success? && WithoutKeys(DecodeVendor(a.value).value) == []
  }

  lemma {:induction false} KeysUnread(h: Hash, attributes: seq<Attribute>, secret: seq<byte>, auth: Block)
    requires forall i :: 0 <= i < |attributes| ==> OnlyKeys(attributes[i])
    ensures Readings(h, attributes, secret, auth) == [] && Count(attributes) == 0
  {
    if attributes != [] {
      KeysUnread(h, attributes[1..], secret, auth);
    }
  }

  lemma ReadSingle(h: Hash, a: Attribute, secret: seq<byte>, auth: Block)
    ensures Readings(h, [a], secret, auth) == ReadingOf(h, a, secret, auth)
    ensures Count([a]) == if a.kind == TUNNEL_PASSWORD then 1 else 0
  {
    assert [a][1..] == [];
  }

  /** Stripping one attribute takes nothing from it but keys. */
  lemma {:induction false} StripOneReads(h: Hash, a: Attribute, secret: seq<byte>, auth: Block)
    ensures Readings(h, StripOne(a), secret, auth) == ReadingOf(h, a, secret, auth)
    ensures Count(StripOne(a)) == Count([a])
  {
    ReadSingle(h, a, secret, auth);
    if a.kind == VENDOR_SPECIFIC && DecodeVendor(a.value).Success? {
      var subs := DecodeVendor(a.value).value;
      var remaining := WithoutKeys(subs);
      if exists sub | sub in subs :: IsKey(sub) {
        if remaining != [] {
          RemainderFits(a);
          var b := Combined(remaining).value;
          CombinedExactly(remaining, b);
          WithoutKeysShrinks(subs);
          NoKeys(remaining);
          ReadSingle(h, b, secret, auth);
        }
      }
    }
  }

  /** Stripping takes nothing but keys, and everything else stays in its place. */
  lemma {:induction false} StripReads(h: Hash, attributes: seq<Attribute>, secret: seq<byte>, auth: Block)
    ensures Readings(h, Strip(attributes), secret, auth) == Readings(h, attributes, secret, auth)
    ensures Count(Strip(attributes)) == Count(attributes)
  {
    hide StripOne, ReadingOf;
    if attributes != [] {
      var a := attributes[0];
      StripOneReads(h, a, secret, auth);
      StripReads(h, attributes[1..], secret, auth);
      ReadingsConcat(h, StripOne(a), Strip(attributes[1..]), secret, auth);
      CountConcat(StripOne(a), Strip(attributes[1..]));
      CountConcat([a], attributes[1..]);
      assert [a] + attributes[1..] == attributes;
    }
  }

  // ----- salts -----

  function Count(attributes: seq<Attribute>): nat {
    if attributes == [] then 0 else (if attributes[0].kind == TUNNEL_PASSWORD then 1 else 0) + Count(attributes[1..])
  }

  lemma {:induction false} CountConcat(a: seq<Attribute>, b: seq<Attribute>)
    ensures Count(a + b) == Count(a) + Count(b)
  {
    if a == [] {
      assert a + b == b;
    } else {
      TailOfConcat(a, b);
      CountConcat(a[1..], b);
    }
  }

  /** Octets the attributes take in a packet. */
  function WireLength(attributes: seq<Attribute>): nat {
    if attributes == [] then 0 else 2 + |attributes[0].value| + WireLength(attributes[1..])
  }

  lemma {:induction false} CountFits(attributes: seq<Attribute>)
    ensures 2 * Count(attributes) <= WireLength(attributes)
  {
    if attributes != [] {
      CountFits(attributes[1..]);
    }
  }

  function Heads(subs: seq<VendorSpecific>): seq<Salt> {
    if subs == [] then []
    else (if |subs[0].value| >= 2 then [subs[0].value[..2]] else []) + Heads(subs[1..])
  }

  /** Salts of the MS-MPPE keys in a packet. */
  function KeySalts(attributes: seq<Attribute>): seq<Salt> {
    Heads(FindVendor(attributes, MICROSOFT, SEND_KEY)) + Heads(FindVendor(attributes, MICROSOFT, RECV_KEY))
  }

  /** Salts of the Tunnel-Passwords in a packet. */
  function TunnelSalts(attributes: seq<Attribute>): seq<Salt> {
    if attributes == [] then []
    else
      var a := attributes[0];
      (if a.kind == TUNNEL_PASSWORD && |a.value| >= HEADER then [a.value[1..HEADER]] else []) +
          TunnelSalts(attributes[1..])
  }

  function Excluding(salts: seq<Salt>, used: seq<Salt>): seq<Salt> {
    if salts == [] then [] else (if salts[0] in used then [] else [salts[0]]) + Excluding(salts[1..], used)
  }

  /** `fresh_salts` */
  function FreshSalts(count: nat, used: seq<Salt>, drawn: nat): seq<Salt>
    requires drawn < U16_RANGE
  {
    var salts := Excluding(GenerateSalts(drawn, count + |used|), used);
    if |salts| <= count then salts else salts[..count]
  }

  lemma {:induction false} ExcludingMeaning(salts: seq<Salt>, used: seq<Salt>)
    requires Distinct(salts)
    ensures Distinct(Excluding(salts, used))
    ensures forall s :: s in Excluding(salts, used) <==> s in salts && s !in used
  {
    if salts != [] {
      ExcludingMeaning(salts[1..], used);
      assert salts == [salts[0]] + salts[1..];
      assert salts[0] !in salts[1..];
    }
  }

  lemma {:induction false} ExcludingOne(salts: seq<Salt>, x: Salt)
    requires Distinct(salts)
    ensures |Excluding(salts, [x])| == |salts| - if x in salts then 1 else 0
  {
    if salts != [] {
      ExcludingOne(salts[1..], x);
      assert salts == [salts[0]] + salts[1..];
      assert salts[0] !in salts[1..];
    }
  }

  lemma {:induction false} ExcludingTwice(salts: seq<Salt>, x: Salt, used: seq<Salt>)
    ensures Excluding(Excluding(salts, [x]), used) == Excluding(salts, [x] + used)
  {
    if salts != [] {
      ExcludingTwice(salts[1..], x, used);
      var rest := Excluding(salts[1..], [x]);
      if salts[0] == x {
        assert Excluding(salts, [x]) == rest;
      } else {
        assert Excluding(salts, [x]) == [salts[0]] + rest && ([salts[0]] + rest)[1..] == rest;
      }
    }
  }

  lemma {:induction false} ExcludingNone(salts: seq<Salt>)
    ensures Excluding(salts, []) == salts
  {
    if salts != [] {
      ExcludingNone(salts[1..]);
    }
  }

  /** Excluding `used` from distinct salts loses at most one salt per used one. */
  lemma {:induction false} ExcludingLeaves(salts: seq<Salt>, used: seq<Salt>)
    requires Distinct(salts)
    ensures |Excluding(salts, used)| >= |salts| - |used|
    decreases |used|
  {
    if used == [] {
      ExcludingNone(salts);
    } else {
      ExcludingOne(salts, used[0]);
      ExcludingMeaning(salts, [used[0]]);
      ExcludingLeaves(Excluding(salts, [used[0]]), used[1..]);
      ExcludingTwice(salts, used[0], used[1..]);
      assert used == [used[0]] + used[1..];
    }
  }

  predicate AllTopBit(salts: seq<Salt>) { forall i :: 0 <= i < |salts| ==> TopBitSet(salts[i]) }

  /** `fresh_salts` delivers exactly `count` distinct salts, none in use. */
  lemma FreshSaltsMeaning(count: nat, used: seq<Salt>, drawn: nat)
    requires drawn < U16_RANGE && count + |used| <= 0x8000
    ensures var salts := FreshSalts(count, used, drawn);
            && |salts| == count && Distinct(salts) && AllTopBit(salts)
            && forall s :: s in salts ==> s !in used
  {
    var all := GenerateSalts(drawn, count + |used|);
    SaltsDistinct(drawn, count + |used|);
    var kept := Excluding(all, used);
    ExcludingMeaning(all, used);
    ExcludingLeaves(all, used);
    var salts := FreshSalts(count, used, drawn);
    assert forall i :: 0 <= i < |salts| ==> salts[i] == kept[i];
    forall i | 0 <= i < |salts| ensures TopBitSet(salts[i]) {
      assert kept[i] in kept;
    }
  }

  // ----- re-keying Tunnel-Passwords -----

  /** The rewriting loop of `rekey_tunnel_passwords`, taking salts from the front. */
  function Rewrite(h: Hash, attributes: seq<Attribute>, home: seq<byte>, client: seq<byte>, auth: Block,
                   salts: seq<Salt>)
    : seq<Attribute>
    requires |salts| >= Count(attributes)
  {
    if attributes == [] then []
    else
      var a, rest := attributes[0], attributes[1..];
      if a.kind != TUNNEL_PASSWORD then [a] + Rewrite(h, rest, home, client, auth, salts)
      else match FromAttribute(h, a, home, auth)
        case Failure(_) => Rewrite(h, rest, home, client, auth, salts)
        case Success(p) =>
          (match ToAttribute(h, p, client, auth, salts[0])
           case Success(b) => [b]
           case Failure(_) => [])
          + Rewrite(h, rest, home, client, auth, salts[1..])
  }

  /** The rewriting loop. */
  method RewriteTunnelPasswords(h: Hash, attributes: seq<Attribute>, home: seq<byte>, client: seq<byte>, auth: Block,
                                salts: seq<Salt>)
    returns (rewritten: seq<Attribute>)
    requires |salts| >= Count(attributes)
    ensures rewritten == Rewrite(h, attributes, home, client, auth, salts)
  {
    rewritten := [];
    var left := salts;
    for i := 0 to |attributes|
      invariant |left| >= Count(attributes[i..])
      invariant Rewrite(h, attributes, home, client, auth, salts) ==
                rewritten + Rewrite(h, attributes[i..], home, client, auth, left)
    {
      var a := attributes[i];
      var kept := [];
      assert attributes[i..][0] == a && attributes[i..][1..] == attributes[i + 1..];
      if a.kind != TUNNEL_PASSWORD {
        kept := [a];
      } else {
        match FromAttribute(h, a, home, auth) {
          case Failure(_) =>
          case Success(p) =>
            match ToAttribute(h, p, client, auth, left[0]) {
              case Success(b) => kept := [b];
              case Failure(_) =>
            }
            left := left[1..];
        }
      }
      Associative(rewritten, kept, Rewrite(h, attributes[i + 1..], home, client, auth, left));
      rewritten := rewritten + kept;
    }
  }

  /** `rekey_tunnel_passwords`; `drawn` is the random value its salts start from. */
  function RekeyTunnels(h: Hash, attributes: seq<Attribute>, home: seq<byte>, client: seq<byte>, auth: Block,
                        drawn: nat)
    : seq<Attribute>
    requires drawn < U16_RANGE && Count(attributes) + |KeySalts(attributes)| <= 0x8000
  {
    if Count(attributes) == 0 then attributes
    else
      FreshSaltsMeaning(Count(attributes), KeySalts(attributes), drawn);
      Rewrite(h, attributes, home, client, auth, FreshSalts(Count(attributes), KeySalts(attributes), drawn))
  }

  /** Every Tunnel-Password decrypts. */
  predicate AllDecrypt(h: Hash, attributes: seq<Attribute>, secret: seq<byte>, auth: Block) {
    forall i :: 0 <= i < |attributes| && attributes[i].kind == TUNNEL_PASSWORD ==>
      FromAttribute(h, attributes[i], secret, auth).Success?
  }

  /** The client reads after rewriting what the home server's secret read before, in the same order;
      nothing undecryptable is passed on, and the salts are the first of those supplied. */
  lemma {:induction false} RewriteReads(h: Hash, attributes: seq<Attribute>, home: seq<byte>, client: seq<byte>,
                                        auth: Block, salts: seq<Salt>)
    requires |salts| >= Count(attributes) && AllTopBit(salts)
    ensures var r := Rewrite(h, attributes, home, client, auth, salts);
            && Readings(h, r, client, auth) == Readings(h, attributes, home, auth)
            && AllDecrypt(h, r, client, auth)
            && TunnelSalts(r) <= salts
  {
    if attributes != [] {
      var a, rest := attributes[0], attributes[1..];
      var r := Rewrite(h, attributes, home, client, auth, salts);
      if a.kind != TUNNEL_PASSWORD {
        RewriteReads(h, rest, home, client, auth, salts);
        var tail := Rewrite(h, rest, home, client, auth, salts);
        assert r[0] == a && r[1..] == tail;
      } else if FromAttribute(h, a, home, auth).Failure? {
        RewriteReads(h, rest, home, client, auth, salts);
      } else {
        RewriteReads(h, rest, home, client, auth, salts[1..]);
        ReEncryption(h, a, home, client, auth, salts[0]);
        var b := ToAttribute(h, FromAttribute(h, a, home, auth).value, client, auth, salts[0]).value;
        var tail := Rewrite(h, rest, home, client, auth, salts[1..]);
        assert r[0] == b && r[1..] == tail;
        assert TunnelSalts(r) == [salts[0]] + TunnelSalts(tail);
        assert salts == [salts[0]] + salts[1..];
      }
    }
  }

  /** Rewriting leaves every vendor sub-attribute where it was. */
  lemma {:induction false} RewriteFinds(h: Hash, attributes: seq<Attribute>, home: seq<byte>, client: seq<byte>,
                                        auth: Block, salts: seq<Salt>, id: u32, vendorType: byte)
    requires |salts| >= Count(attributes)
    ensures FindVendor(Rewrite(h, attributes, home, client, auth, salts), id, vendorType) ==
            FindVendor(attributes, id, vendorType)
  {
    if attributes != [] {
      var a, rest := attributes[0], attributes[1..];
      var r := Rewrite(h, attributes, home, client, auth, salts);
      if a.kind != TUNNEL_PASSWORD {
        RewriteFinds(h, rest, home, client, auth, salts, id, vendorType);
        assert r[0] == a && r[1..] == Rewrite(h, rest, home, client, auth, salts);
      } else {
        assert Matching(SubsOf(a), id, vendorType) == [];
        if FromAttribute(h, a, home, auth).Failure? {
          RewriteFinds(h, rest, home, client, auth, salts, id, vendorType);
        } else {
          RewriteFinds(h, rest, home, client, auth, salts[1..], id, vendorType);
          var tail := Rewrite(h, rest, home, client, auth, salts[1..]);
          var rewritten := ToAttribute(h, FromAttribute(h, a, home, auth).value, client, auth, salts[0]);
          if rewritten.Success? {
            assert r[0] == rewritten.value && r[1..] == tail;
            assert Matching(SubsOf(rewritten.value), id, vendorType) == [];
          } else {
            assert r == tail;
          }
        }
      }
    }
  }

  // ----- the whole reply -----

  /** Both re-keying steps of the response handler. */
  function Relay(h: Hash, attributes: seq<Attribute>, home: seq<byte>, client: seq<byte>, auth: Block,
                 drawnKeys: nat, drawnTunnels: nat): seq<Attribute>
    requires drawnKeys < U16_RANGE && drawnTunnels < U16_RANGE && Fits(attributes)
  {
    var rekeyed := RekeyMppe(h, attributes, home, client, auth, drawnKeys);
    MppeRekeyed(h, attributes, home, client, auth, drawnKeys, home);
    CountFits(attributes);
    RekeyTunnels(h, rekeyed, home, client, auth, drawnTunnels)
  }

  /** The attributes of a packet of at most 4096 octets, 20 of them header. */
  predicate Fits(attributes: seq<Attribute>) { WireLength(attributes) + 20 <= 4096 }

  /** Keys decrypted from attributes are short enough to be sent on. */
  lemma ReceivedKeyFits(h: Hash, s: seq<byte>, secret: seq<byte>, auth: Block)
    requires |s| <= MAX_VALUE_LENGTH - 6 && DecryptedKey(h, s, secret, auth).Success?
    ensures |DecryptedKey(h, s, secret, auth).value| <= MAX_KEY_LENGTH
  {
    var blocks := (|s| - 2) / BLOCK;
    assert |s| - 2 == BLOCK * blocks;
  }

  lemma {:induction false} SubFits(id: u32, rest: seq<byte>)
    requires DecodeSubs(id, rest).Success?
    ensures forall sub :: sub in DecodeSubs(id, rest).value ==> |sub.value| <= |rest| - 2
    decreases |rest|
  {
    if rest != [] {
      SubFits(id, rest[rest[1]..]);
    }
  }

  lemma {:induction false} FoundFits(attributes: seq<Attribute>, id: u32, vendorType: byte)
    ensures forall sub :: sub in FindVendor(attributes, id, vendorType) ==> |sub.value| <= MAX_VALUE_LENGTH - 6
  {
    if attributes != [] {
      FoundFits(attributes[1..], id, vendorType);
      var a := attributes[0];
      MatchingAre(SubsOf(a), id, vendorType);
      if SubsOf(a) != [] {
        U32Canonical(a.value[..4]);
        SubFits(FromU32(a.value[..4]), a.value[4..]);
      }
    }
  }

  lemma ReceivedKeysSendable(h: Hash, attributes: seq<Attribute>, secret: seq<byte>, auth: Block)
    requires FromPacket(h, attributes, secret, auth).Success? && FromPacket(h, attributes, secret, auth).value.Some?
    ensures Sendable(FromPacket(h, attributes, secret, auth).value.value)
  {
    var send, recv := FindVendor(attributes, MICROSOFT, SEND_KEY), FindVendor(attributes, MICROSOFT, RECV_KEY);
    FoundFits(attributes, MICROSOFT, SEND_KEY);
    FoundFits(attributes, MICROSOFT, RECV_KEY);
    assert send[0] in send && recv[0] in recv;
    ReceivedKeyFits(h, send[0].value, secret, auth);
    ReceivedKeyFits(h, recv[0].value, secret, auth);
  }

  /** The keys under one secret, where failing to decrypt and carrying none look alike. */
  function KeysRead(h: Hash, attributes: seq<Attribute>, secret: seq<byte>, auth: Block): Option<MppeKeys> {
    match FromPacket(h, attributes, secret, auth)
    case Success(keys) => keys
    case Failure(_) => None
  }

  /** Nothing but MS-MPPE keys differs, whoever reads. */
  ghost predicate KeepsRest(h: Hash, before: seq<Attribute>, after: seq<Attribute>, secret: seq<byte>, auth: Block) {
    && Count(after) == Count(before)
    && Readings(h, after, secret, auth) == Readings(h, before, secret, auth)
    && forall id, t :: !IsKeyType(id, t) ==> FindVendor(after, id, t) == FindVendor(before, id, t)
  }

  lemma {:induction false} StripKeepsRest(h: Hash, attributes: seq<Attribute>, secret: seq<byte>, auth: Block)
    ensures KeepsRest(h, attributes, Strip(attributes), secret, auth)
    ensures FindVendor(Strip(attributes), MICROSOFT, SEND_KEY) == []
    ensures FindVendor(Strip(attributes), MICROSOFT, RECV_KEY) == []
  {
    StripReads(h, attributes, secret, auth);
    StripFinds(attributes, MICROSOFT, SEND_KEY);
    StripFinds(attributes, MICROSOFT, RECV_KEY);
    forall id, t | !IsKeyType(id, t) ensures FindVendor(Strip(attributes), id, t) == FindVendor(attributes, id, t) {
      StripFinds(attributes, id, t);
    }
  }

  /** After the first step the client decrypts the keys the home server encrypted, or finds none. */
  lemma {:induction false} MppeRekeyed(h: Hash, attributes: seq<Attribute>, home: seq<byte>, client: seq<byte>,
                                       auth: Block, drawn: nat, secret: seq<byte>)
    requires drawn < U16_RANGE
    ensures var r := RekeyMppe(h, attributes, home, client, auth, drawn);
            && FromPacket(h, r, client, auth) == Success(KeysRead(h, attributes, home, auth))
            && Distinct(KeySalts(r)) && |KeySalts(r)| <= 2
            && KeepsRest(h, attributes, r, secret, auth)
  {
    hide Readings, Count, FindVendor, KeyAttributes, DecryptedKey, Strip;
    var stripped := Strip(attributes);
    StripKeepsRest(h, attributes, secret, auth);
    var read := FromPacket(h, attributes, home, auth);
    if read.Success? && read.value.Some? {
      var keys, salts := read.value.value, GenerateSalts(drawn, 2);
      ReceivedKeysSendable(h, attributes, home, auth);
      SaltsDistinct(drawn, 2);
      KeysAdded(h, stripped, keys, client, auth, salts[0], salts[1]);
      KeysKeepRest(h, stripped, keys, client, auth, salts[0], salts[1], secret);
    }
  }

  lemma HeadsOne(sub: VendorSpecific)
    requires |sub.value| >= 2
    ensures Heads([sub]) == [sub.value[..2]]
  {
    assert [sub][1..] == [];
  }

  predicate Usable(keys: MppeKeys, sendSalt: Salt, recvSalt: Salt) {
    Sendable(keys) && TopBitSet(sendSalt) && TopBitSet(recvSalt) && sendSalt != recvSalt
  }

  /** Adding the pair of keys to a packet without any. */
  lemma {:induction false} KeysAdded(h: Hash, stripped: seq<Attribute>, keys: MppeKeys, client: seq<byte>, auth: Block,
                                     sendSalt: Salt, recvSalt: Salt)
    requires Usable(keys, sendSalt, recvSalt)
    requires FindVendor(stripped, MICROSOFT, SEND_KEY) == FindVendor(stripped, MICROSOFT, RECV_KEY) == []
    ensures KeyAttributes(h, keys, client, auth, sendSalt, recvSalt).Success?
    ensures var r := stripped + KeyAttributes(h, keys, client, auth, sendSalt, recvSalt).value;
            FromPacket(h, r, client, auth) == Success(Some(keys)) && KeySalts(r) == [sendSalt, recvSalt]
  {
    KeysRoundTrip(h, keys, client, auth, sendSalt, recvSalt, stripped, []);
    KeyAttributesFind(h, keys, client, auth, sendSalt, recvSalt);
    var added := KeyAttributes(h, keys, client, auth, sendSalt, recvSalt).value;
    assert stripped + added + [] == stripped + added;
    OpenSalted(h, keys.send, client, auth, sendSalt);
    OpenSalted(h, keys.recv, client, auth, recvSalt);
    AddedSalts(stripped, added, FindVendor(added, MICROSOFT, SEND_KEY)[0], FindVendor(added, MICROSOFT, RECV_KEY)[0]);
  }

  lemma {:induction false} KeyIsOnlyKey(h: Hash, vendorType: byte, key: seq<byte>, client: seq<byte>, auth: Block,
                                        salt: Salt)
    requires |key| <= MAX_KEY_LENGTH && TopBitSet(salt) && IsKeyType(MICROSOFT, vendorType)
    ensures var r := KeyAttribute(h, vendorType, key, client, auth, salt); r.Success? && OnlyKeys(r.value)
  {
    hide KeyAttribute, DecodeVendor, Salted;
    KeyAttributeFinds(h, vendorType, key, client, auth, salt);
    var subs := SubsOf(KeyAttribute(h, vendorType, key, client, auth, salt).value);
    assert WithoutKeys(subs) == [] by {
      assert subs[1..] == [];
    }
  }

  lemma {:induction false} KeysKeepRest(h: Hash, stripped: seq<Attribute>, keys: MppeKeys, client: seq<byte>,
                                        auth: Block, sendSalt: Salt, recvSalt: Salt, secret: seq<byte>)
    requires Usable(keys, sendSalt, recvSalt)
    ensures var r := KeyAttributes(h, keys, client, auth, sendSalt, recvSalt);
            r.Success? && KeepsRest(h, stripped, stripped + r.value, secret, auth)
  {
    hide KeyAttribute, OnlyKeys, Readings, Count, FindVendor, Salted;
    KeyAttributesFind(h, keys, client, auth, sendSalt, recvSalt);
    KeyIsOnlyKey(h, SEND_KEY, keys.send, client, auth, sendSalt);
    KeyIsOnlyKey(h, RECV_KEY, keys.recv, client, auth, recvSalt);
    var added := KeyAttributes(h, keys, client, auth, sendSalt, recvSalt).value;
    KeysUnread(h, added, secret, auth);
    ReadingsConcat(h, stripped, added, secret, auth);
    CountConcat(stripped, added);
    forall id, t | !IsKeyType(id, t) ensures FindVendor(stripped + added, id, t) == FindVendor(stripped, id, t) {
      FindVendorConcat(stripped, added, id, t);
    }
  }

  lemma {:induction false} AddedSalts(stripped: seq<Attribute>, added: seq<Attribute>, send: VendorSpecific,
                                      recv: VendorSpecific)
    requires FindVendor(stripped, MICROSOFT, SEND_KEY) == FindVendor(stripped, MICROSOFT, RECV_KEY) == []
    requires FindVendor(added, MICROSOFT, SEND_KEY) == [send] && |send.value| >= 2
    requires FindVendor(added, MICROSOFT, RECV_KEY) == [recv] && |recv.value| >= 2
    ensures KeySalts(stripped + added) == [send.value[..2], recv.value[..2]]
  {
    FindVendorConcat(stripped, added, MICROSOFT, SEND_KEY);
    FindVendorConcat(stripped, added, MICROSOFT, RECV_KEY);
    assert FindVendor(stripped + added, MICROSOFT, SEND_KEY) == [send];
    assert FindVendor(stripped + added, MICROSOFT, RECV_KEY) == [recv];
    HeadsOne(send);
    HeadsOne(recv);
  }

  /** The second step, on its own. */
  lemma TunnelsRekeyed(h: Hash, attributes: seq<Attribute>, home: seq<byte>, client: seq<byte>, auth: Block, drawn: nat)
    requires drawn < U16_RANGE && Count(attributes) + |KeySalts(attributes)| <= 0x8000
    requires Distinct(KeySalts(attributes))
    ensures var r := RekeyTunnels(h, attributes, home, client, auth, drawn);
            && Readings(h, r, client, auth) == Readings(h, attributes, home, auth)
            && AllDecrypt(h, r, client, auth)
            && (forall id, t :: FindVendor(r, id, t) == FindVendor(attributes, id, t))
            && Distinct(KeySalts(attributes) + TunnelSalts(r))
  {
    var used := KeySalts(attributes);
    if Count(attributes) == 0 {
      NoTunnels(h, attributes, home, client, auth);
      assert used + [] == used;
    } else {
      var salts := FreshSalts(Count(attributes), used, drawn);
      FreshSaltsMeaning(Count(attributes), used, drawn);
      RewriteReads(h, attributes, home, client, auth, salts);
      var r := Rewrite(h, attributes, home, client, auth, salts);
      forall id, t ensures FindVendor(r, id, t) == FindVendor(attributes, id, t) {
        RewriteFinds(h, attributes, home, client, auth, salts, id, t);
      }
      StillDistinct(used, salts, TunnelSalts(r));
    }
  }

  lemma StillDistinct(used: seq<Salt>, salts: seq<Salt>, taken: seq<Salt>)
    requires Distinct(used) && Distinct(salts) && taken <= salts && forall s :: s in salts ==> s !in used
    ensures Distinct(used + taken)
  {
    forall i, j | 0 <= i < j < |used + taken| ensures (used + taken)[i] != (used + taken)[j] {
      if j >= |used| {
        assert salts[j - |used|] in salts;
      }
    }
  }

  /** One MS-MPPE key of a type under one secret, and the first one of a packet, if there is any. */
  ghost predicate FirstKey(h: Hash, attributes: seq<Attribute>, vendorType: byte, secret: seq<byte>, auth: Block,
                           key: seq<byte>) {
    var subs := FindVendor(attributes, 311, vendorType);
    subs != [] && exists pad :: Carries(h, subs[0].value, secret, auth, key, pad)
  }

  /** If both keys are there and decrypt, the client finds one of each type, which carries the same key under its own
      secret; in every other case it finds none of either. */
  ghost predicate KeysRelayed(h: Hash, before: seq<Attribute>, after: seq<Attribute>, home: seq<byte>,
                              client: seq<byte>, auth: Block) {
    && (forall send, recv :: FirstKey(h, before, 16, home, auth, send) && FirstKey(h, before, 17, home, auth, recv) ==>
          && |FindVendor(after, 311, 16)| == 1 && FirstKey(h, after, 16, client, auth, send)
          && |FindVendor(after, 311, 17)| == 1 && FirstKey(h, after, 17, client, auth, recv))
    && ((forall key :: !FirstKey(h, before, 16, home, auth, key)) ||
        (forall key :: !FirstKey(h, before, 17, home, auth, key)) ==>
          FindVendor(after, 311, 16) == [] && FindVendor(after, 311, 17) == [])
  }

  lemma {:induction false} FirstKeyExactly(h: Hash, attributes: seq<Attribute>, vendorType: byte, secret: seq<byte>,
                                           auth: Block, key: seq<byte>)
    ensures FirstKey(h, attributes, vendorType, secret, auth, key) <==>
            && FindVendor(attributes, 311, vendorType) != []
            && DecryptedKey(h, FindVendor(attributes, 311, vendorType)[0].value, secret, auth) == Success(key)
  {
    hide Carries, DecryptedKey, FindVendor;
    if FindVendor(attributes, 311, vendorType) != [] {
      DecryptsExactly(h, FindVendor(attributes, 311, vendorType)[0].value, secret, auth, key);
    }
  }

  /** What becomes of the keys in the first step. */
  lemma {:induction false} RekeyedKeys(h: Hash, attributes: seq<Attribute>, home: seq<byte>, client: seq<byte>,
                                       auth: Block, drawn: nat)
    requires drawn < U16_RANGE
    ensures KeysRelayed(h, attributes, RekeyMppe(h, attributes, home, client, auth, drawn), home, client, auth)
  {
    hide DecryptedKey, FindVendor, Carries, Strip, KeyAttributes, Salted;
    var r := RekeyMppe(h, attributes, home, client, auth, drawn);
    forall t, secret, key ensures FirstKey(h, attributes, t, secret, auth, key) <==>
            && FindVendor(attributes, 311, t) != []
            && DecryptedKey(h, FindVendor(attributes, 311, t)[0].value, secret, auth) == Success(key)
    {
      FirstKeyExactly(h, attributes, t, secret, auth, key);
    }
    StripFinds(attributes, 311, 16);
    StripFinds(attributes, 311, 17);
    var read := FromPacket(h, attributes, home, auth);
    if read.Success? && read.value.Some? {
      var keys, salts := read.value.value, GenerateSalts(drawn, 2);
      ReceivedKeysSendable(h, attributes, home, auth);
      SaltsDistinct(drawn, 2);
      KeysFound(h, Strip(attributes), keys, client, auth, salts[0], salts[1]);
      FirstKeyExactly(h, r, 16, client, auth, keys.send);
      FirstKeyExactly(h, r, 17, client, auth, keys.recv);
    }
  }

  /** The pair added to a packet without any is found there, once each, and decrypts. */
  lemma {:induction false} KeysFound(h: Hash, stripped: seq<Attribute>, keys: MppeKeys, client: seq<byte>, auth: Block,
                                     sendSalt: Salt, recvSalt: Salt)
    requires Usable(keys, sendSalt, recvSalt)
    requires FindVendor(stripped, 311, 16) == FindVendor(stripped, 311, 17) == []
    ensures KeyAttributes(h, keys, client, auth, sendSalt, recvSalt).Success?
    ensures var r := stripped + KeyAttributes(h, keys, client, auth, sendSalt, recvSalt).value;
            && |FindVendor(r, 311, 16)| == 1 == |FindVendor(r, 311, 17)|
            && DecryptedKey(h, FindVendor(r, 311, 16)[0].value, client, auth) == Success(keys.send)
            && DecryptedKey(h, FindVendor(r, 311, 17)[0].value, client, auth) == Success(keys.recv)
  {
    hide DecryptedKey, FindVendor, KeyAttribute, Salted;
    KeyAttributesFind(h, keys, client, auth, sendSalt, recvSalt);
    var added := KeyAttributes(h, keys, client, auth, sendSalt, recvSalt).value;
    FindVendorConcat(stripped, added, 311, 16);
    FindVendorConcat(stripped, added, 311, 17);
    KeyRoundTrip(h, keys.send, client, auth, sendSalt);
    KeyRoundTrip(h, keys.recv, client, auth, recvSalt);
  }

  /** A relayed reply says to the client exactly what it said under the home server's secret: the same
      MS-MPPE keys, the same Tunnel-Passwords and other attributes in the same order, the same other vendor
      sub-attributes. Nothing undecryptable is passed on, and no two salts in it are equal. */
  lemma RelayPreserves(h: Hash, attributes: seq<Attribute>, home: seq<byte>, client: seq<byte>, auth: Block,
                       drawnKeys: nat, drawnTunnels: nat)
    requires drawnKeys < U16_RANGE && drawnTunnels < U16_RANGE && Fits(attributes)
    ensures var r := Relay(h, attributes, home, client, auth, drawnKeys, drawnTunnels);
            && FromPacket(h, r, client, auth) == Success(KeysRead(h, attributes, home, auth))
            && Readings(h, r, client, auth) == Readings(h, attributes, home, auth)
            && AllDecrypt(h, r, client, auth)
            && (forall id, t :: !(id == 311 && (t == 16 || t == 17)) ==>
                  FindVendor(r, id, t) == FindVendor(attributes, id, t))
            && Distinct(KeySalts(r) + TunnelSalts(r))
    ensures KeysRelayed(h, attributes, Relay(h, attributes, home, client, auth, drawnKeys, drawnTunnels), home, client,
                        auth)
  {
    hide RekeyMppe, RekeyTunnels, Readings, FindVendor, KeysRelayed, AllDecrypt, Count, WireLength;
    var rekeyed := RekeyMppe(h, attributes, home, client, auth, drawnKeys);
    MppeRekeyed(h, attributes, home, client, auth, drawnKeys, home);
    CountFits(attributes);
    TunnelsRekeyed(h, rekeyed, home, client, auth, drawnTunnels);
    var r := Relay(h, attributes, home, client, auth, drawnKeys, drawnTunnels);
    assert FindVendor(r, MICROSOFT, SEND_KEY) == FindVendor(rekeyed, MICROSOFT, SEND_KEY);
    assert FindVendor(r, MICROSOFT, RECV_KEY) == FindVendor(rekeyed, MICROSOFT, RECV_KEY);
    RekeyedKeys(h, attributes, home, client, auth, drawnKeys);
    SameKeys(h, attributes, rekeyed, r, home, client, auth);
  }

  lemma {:induction false} SameKeys(h: Hash, before: seq<Attribute>, after: seq<Attribute>, r: seq<Attribute>,
                                    home: seq<byte>, client: seq<byte>, auth: Block)
    requires KeysRelayed(h, before, after, home, client, auth)
    requires FindVendor(r, 311, 16) == FindVendor(after, 311, 16)
    requires FindVendor(r, 311, 17) == FindVendor(after, 311, 17)
    ensures KeysRelayed(h, before, r, home, client, auth)
  {
    hide FindVendor, Carries;
    assert forall key :: FirstKey(h, r, 16, client, auth, key) == FirstKey(h, after, 16, client, auth, key);
    assert forall key :: FirstKey(h, r, 17, client, auth, key) == FirstKey(h, after, 17, client, auth, key);
  }

  lemma {:induction false} NoTunnels(h: Hash, attributes: seq<Attribute>, home: seq<byte>, client: seq<byte>,
                                     auth: Block)
    requires Count(attributes) == 0
    ensures TunnelSalts(attributes) == [] && AllDecrypt(h, attributes, client, auth)
    ensures Readings(h, attributes, home, auth) == Readings(h, attributes, client, auth)
  {
    if attributes != [] {
      NoTunnels(h, attributes[1..], home, client, auth);
    }
  }
}
