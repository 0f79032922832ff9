/** MS-MPPE keys (section 2.4.2 of RFC 2548): salted encryption of the two halves of the EAP MSK. */
module Mppe {
  import opened Octets
  import opened EapCodec
  import opened Chain
  import opened Vendor

  const MICROSOFT: u32 := 311
  const SEND_KEY: byte := 16
  const RECV_KEY: byte := 17

  /** The longest payload that fits a Vendor-Specific attribute or a Tunnel-Password. */
  const MAX_KEY_LENGTH: nat := 239
  const MPPE_KEY_LENGTH: nat := 32

  type Salt = s: seq<byte> | |s| == 2 witness [0, 0]

  datatype MppeError =
    | KeyTooLong(octets: nat)
    | InvalidSalt(salt: nat)
    | InvalidLength(octets: nat)
    | InvalidKeyLength(declared: nat, available: nat)
    | MskTooShort(octets: nat)
    | Unpaired
    | BadAttribute

  predicate TopBitSet(salt: Salt) { salt[0] >= 0x80 }

  function DivCeil(n: nat): nat { (n + BLOCK - 1) / BLOCK }

  /** Length octet, payload, then zeros up to a whole number of blocks. */
  function Framed(payload: seq<byte>): (plain: seq<byte>)
    requires |payload| < 256
    ensures |plain| == BLOCK * DivCeil(1 + |payload|)
  {
    var framed := [|payload|] + payload;
    framed + Zeros(BLOCK * DivCeil(|framed|) - |framed|)
  }

  /** The salted string shared by MS-MPPE keys and Tunnel-Password. */
  function Salted(h: Hash, payload: seq<byte>, secret: seq<byte>, auth: Block, salt: Salt): (s: seq<byte>)
    requires |payload| < 256
  {
    salt + Encipher(h, secret, auth + salt, Framed(payload))
  }

  function Opened(h: Hash, s: seq<byte>, secret: seq<byte>, auth: Block): (plain: seq<byte>)
    requires |s| >= 2 && (|s| - 2) % BLOCK == 0
    ensures |plain| == |s| - 2
  {
    Decipher(h, secret, auth + s[..2], s[2..])
  }

  /** What `encrypt_key` computes. */
  function EncryptedKey(h: Hash, key: seq<byte>, secret: seq<byte>, auth: Block, salt: Salt)
    : (r: Result<seq<byte>, MppeError>)
  {
    if |key| > MAX_KEY_LENGTH then Failure(KeyTooLong(|key|))
    else if !TopBitSet(salt) then Failure(InvalidSalt(FromU16(salt)))
    else Success(Salted(h, key, secret, auth, salt))
  }

  /** What `decrypt_key` computes. */
  function DecryptedKey(h: Hash, s: seq<byte>, secret: seq<byte>, auth: Block): (r: Result<seq<byte>, MppeError>) {
    if |s| < 2 + BLOCK || (|s| - 2) % BLOCK != 0 then Failure(MppeError.InvalidLength(|s|))
    else if !TopBitSet(s[..2]) then Failure(InvalidSalt(FromU16(s[..2])))
    else
      var plain := Opened(h, s, secret, auth);
      if plain[0] as int > |plain| - 1 then Failure(InvalidKeyLength(plain[0], |plain| - 1))
      else Success(plain[1..1 + plain[0] as int])
  }

  lemma OpenSalted(h: Hash, payload: seq<byte>, secret: seq<byte>, auth: Block, salt: Salt)
    requires |payload| < 256
    ensures var s := Salted(h, payload, secret, auth, salt);
            |s| == 2 + BLOCK * DivCeil(1 + |payload|) && s[..2] == salt && Opened(h, s, secret, auth) == Framed(payload)
  {
    var s := Salted(h, payload, secret, auth, salt);
    assert s[..2] == salt && s[2..] == Encipher(h, secret, auth + salt, Framed(payload));
    Inverse(h, secret, auth + salt, Framed(payload));
  }

  /** Encryption succeeds exactly on keys of at most 239 octets under a salt with its top bit set; it
      then fits a Vendor-Specific sub-attribute and decrypts to the key. */
  lemma KeyRoundTrip(h: Hash, key: seq<byte>, secret: seq<byte>, auth: Block, salt: Salt)
    ensures var r := EncryptedKey(h, key, secret, auth, salt);
            && (r.Success? <==> |key| <= MAX_KEY_LENGTH && TopBitSet(salt))
            && (r.Success? ==>
                  && |r.value| == 2 + BLOCK * DivCeil(1 + |key|) <= 242 <= MAX_VALUE_LENGTH - 6
                  && r.value[..2] == salt
                  && DecryptedKey(h, r.value, secret, auth) == Success(key))
  {
    if |key| <= MAX_KEY_LENGTH && TopBitSet(salt) {
      OpenSalted(h, key, secret, auth, salt);
      assert Framed(key)[1..1 + |key|] == key;
    }
  }

  /** A salt with its top bit set, then the chain of section 2.4.2 of RFC 2548 over the length of the key, the key and
      padding. */
  ghost predicate Carries(h: Hash, s: seq<byte>, secret: seq<byte>, auth: Block, key: seq<byte>, pad: seq<byte>) {
    |s| >= 2 && s[0] >= 0x80 && |key| < 256 && Chained(h, secret, auth + s[..2], [|key|] + key + pad, s[2..])
  }

  /** Exactly which strings decrypt to a key: those that carry it, with any padding. */
  lemma DecryptsExactly(h: Hash, s: seq<byte>, secret: seq<byte>, auth: Block, key: seq<byte>)
    ensures DecryptedKey(h, s, secret, auth) == Success(key) <==> exists pad :: Carries(h, s, secret, auth, key, pad)
  {
    if DecryptedKey(h, s, secret, auth) == Success(key) {
      var plain := Opened(h, s, secret, auth);
      var pad := plain[1 + plain[0] as int..];
      assert plain == [|key|] + key + pad;
      DecipherExactly(h, secret, auth + s[..2], plain, s[2..]);
      assert Carries(h, s, secret, auth, key, pad);
    }
    if pad :| Carries(h, s, secret, auth, key, pad) {
      var plain := [|key|] + key + pad;
      DecipherExactly(h, secret, auth + s[..2], plain, s[2..]);
      assert plain[1..1 + |key|] == key;
    }
  }

  /** Exactly what a key is encrypted to: the string that carries it under the salt, padded with zeros to a whole
      number of blocks and no further. Keys longer than 239 octets and salts without their top bit are refused. */
  lemma EncryptsExactly(h: Hash, key: seq<byte>, secret: seq<byte>, auth: Block, salt: Salt, s: seq<byte>)
    ensures EncryptedKey(h, key, secret, auth, salt) == Success(s) <==>
            && |key| <= 239 && |s| >= 2 && s[..2] == salt
            && exists n: nat :: n < 16 && Carries(h, s, secret, auth, key, Zeros(n))
  {
    if |key| <= 239 {
      var framed, n := [|key|] + key, BLOCK * DivCeil(1 + |key|) - (1 + |key|);
      PaddingLeast(1 + |key|);
      assert Framed(key) == framed + Zeros(n);
      if |s| >= 2 && s[..2] == salt {
        EncipherExactly(h, secret, auth + salt, Framed(key), s[2..]);
        assert s == s[..2] + s[2..];
        assert salt + Encipher(h, secret, auth + salt, Framed(key)) == s <==>
               Encipher(h, secret, auth + salt, Framed(key)) == s[2..] by {
          Unconcat(salt, Encipher(h, secret, auth + salt, Framed(key)));
        }
        forall k: nat | k < 16 && Carries(h, s, secret, auth, key, Zeros(k)) ensures k == n {
          assert |framed + Zeros(k)| % BLOCK == 0;
          SamePadding(1 + |key|, k, n);
        }
      } else if EncryptedKey(h, key, secret, auth, salt) == Success(s) {
        Unconcat(salt, Encipher(h, secret, auth + salt, Framed(key)));
      }
    }
  }

  lemma PaddingLeast(n: nat)
    ensures 0 <= BLOCK * DivCeil(n) - n < BLOCK && (n + (BLOCK * DivCeil(n) - n)) % BLOCK == 0
  {
  }

  lemma SamePadding(n: nat, a: nat, b: nat)
    requires a < BLOCK && b < BLOCK && (n + a) % BLOCK == 0 && (n + b) % BLOCK == 0
    ensures a == b
  {
  }

  /** What is refused, and with which error: first the length, then the salt, then the length inside. */
  lemma KeyRefusals(h: Hash, s: seq<byte>, secret: seq<byte>, auth: Block, e: MppeError)
    ensures DecryptedKey(h, s, secret, auth) == Failure(e) <==>
            if |s| < 18 || (|s| - 2) % 16 != 0 then e == MppeError.InvalidLength(|s|)
            else if s[0] < 0x80 then e == InvalidSalt(256 * s[0] as int + s[1] as int)
            else
              exists n: byte, rest: seq<byte> ::
                && n as int > |s| - 3 && e == InvalidKeyLength(n, |s| - 3)
                && Chained(h, secret, auth + s[..2], [n] + rest, s[2..])
  {
    if |s| >= 18 && (|s| - 2) % 16 == 0 {
      assert s[..2][0] == s[0] && s[..2][1] == s[1];
      var plain := Opened(h, s, secret, auth);
      DecipherExactly(h, secret, auth + s[..2], plain, s[2..]);
      assert plain == [plain[0]] + plain[1..];
      forall n: byte, rest: seq<byte> | Chained(h, secret, auth + s[..2], [n] + rest, s[2..])
        ensures n == plain[0]
      {
        DecipherExactly(h, secret, auth + s[..2], [n] + rest, s[2..]);
      }
    }
  }

  /** `encrypt_key` */
  method EncryptKey(h: Hash, key: seq<byte>, secret: seq<byte>, auth: Block, salt: Salt)
    returns (r: Result<seq<byte>, MppeError>)
    ensures r == EncryptedKey(h, key, secret, auth, salt)
  {
    if |key| > MAX_KEY_LENGTH {
      return Failure(KeyTooLong(|key|));
    }
    if salt[0] < 0x80 {
      return Failure(InvalidSalt(FromU16(salt)));
    }
    var plain := [|key|] + key;
    plain := plain + Zeros(BLOCK * DivCeil(|plain|) - |plain|);
    var cipher := EncryptBlocks(h, secret, auth + salt, plain);
    return Success(salt + cipher);
  }

  /** `decrypt_key` */
  method DecryptKey(h: Hash, s: seq<byte>, secret: seq<byte>, auth: Block) returns (r: Result<seq<byte>, MppeError>)
    ensures r == DecryptedKey(h, s, secret, auth)
  {
    if |s| < 2 + BLOCK || (|s| - 2) % BLOCK != 0 {
      return Failure(MppeError.InvalidLength(|s|));
    }
    var salt := s[..2];
    if salt[0] < 0x80 {
      return Failure(InvalidSalt(FromU16(salt)));
    }
    var plain := DecryptBlocks(h, secret, auth + salt, s[2..]);
    var declared: nat, available := plain[0], |plain| - 1;
    if declared > available {
      return Failure(InvalidKeyLength(declared, available));
    }
    return Success(plain[1..1 + declared]);
  }

  // ----- salts -----

  /** Salt `i` drawn from a random 16-bit value: the low 15 bits count up and wrap, the top bit is set. */
  function SaltAt(drawn: nat, i: nat): (salt: Salt)
    requires drawn < U16_RANGE
  {
    U16(0x8000 + (drawn % 0x8000 + i % U16_RANGE) % U16_RANGE % 0x8000)
  }

  /** `generate_salts` */
  function GenerateSalts(drawn: nat, count: nat): (salts: seq<Salt>)
    requires drawn < U16_RANGE
    ensures |salts| == count
  {
    seq(count, i requires 0 <= i < count => SaltAt(drawn, i))
  }

  predicate Distinct(salts: seq<Salt>) {
    forall i, j :: 0 <= i < j < |salts| ==> salts[i] != salts[j]
  }

  lemma AddMultiple(n: nat, rest: nat)
    ensures (0x8000 * n + rest) % 0x8000 == rest % 0x8000
  {
  }

  lemma LowBits(drawn: nat, i: nat)
    ensures (drawn % 0x8000 + i % U16_RANGE) % U16_RANGE % 0x8000 == (drawn + i) % 0x8000
  {
    var sum := drawn % 0x8000 + i % U16_RANGE;
    var n := drawn / 0x8000 + 2 * (i / U16_RANGE) + 2 * (sum / U16_RANGE);
    assert drawn + i == 0x8000 * n + sum % U16_RANGE;
    AddMultiple(n, sum % U16_RANGE);
  }

  lemma SaltAtMeaning(drawn: nat, i: nat)
    requires drawn < U16_RANGE
    ensures TopBitSet(SaltAt(drawn, i)) && FromU16(SaltAt(drawn, i)) == 0x8000 + (drawn + i) % 0x8000
  {
    LowBits(drawn, i);
    U16RoundTrip(0x8000 + (drawn + i) % 0x8000);
  }

  lemma SameResidue(drawn: nat, i: nat, j: nat)
    requires i < j && (drawn + i) % 0x8000 == (drawn + j) % 0x8000
    ensures j - i >= 0x8000
  {
  }

  /** Salts have their top bit set; they are pairwise distinct exactly up to 32768 of them. */
  lemma SaltsDistinct(drawn: nat, count: nat)
    requires drawn < U16_RANGE
    ensures forall i :: 0 <= i < count ==> TopBitSet(GenerateSalts(drawn, count)[i])
    ensures Distinct(GenerateSalts(drawn, count)) <==> count <= 0x8000
  {
    var salts := GenerateSalts(drawn, count);
    forall i: nat | i < count ensures TopBitSet(salts[i]) && FromU16(salts[i]) == 0x8000 + (drawn + i) % 0x8000 {
      SaltAtMeaning(drawn, i);
    }
    if count <= 0x8000 {
      forall i: nat, j: nat | i < j < count ensures salts[i] != salts[j] {
        if salts[i] == salts[j] {
          SameResidue(drawn, i, j);
        }
      }
    } else {
      U16Canonical(salts[0]);
      U16Canonical(salts[0x8000]);
      assert salts[0] == salts[0x8000];
    }
  }

  // ----- the pair of keys -----

  datatype MppeKeys = MppeKeys(send: seq<byte>, recv: seq<byte>)

  /** `from_msk` */
  function FromMsk(msk: seq<byte>): (r: Result<MppeKeys, MppeError>) {
    if |msk| < 2 * MPPE_KEY_LENGTH then Failure(MskTooShort(|msk|))
    else Success(MppeKeys(msk[MPPE_KEY_LENGTH..2 * MPPE_KEY_LENGTH], msk[..MPPE_KEY_LENGTH]))
  }

  /** `encrypt_key_attribute` */
  function KeyAttribute(h: Hash, vendorType: byte, key: seq<byte>, secret: seq<byte>, auth: Block, salt: Salt)
    : (r: Result<Attribute, MppeError>)
  {
    match EncryptedKey(h, key, secret, auth, salt)
    case Failure(e) => Failure(e)
    case Success(s) =>
      match Combined([VendorSpecific(MICROSOFT, vendorType, s)])
      case Failure(_) => Failure(BadAttribute)
      case Success(a) => Success(a)
  }

  /** `to_attributes_with_salts` */
  function KeyAttributes(h: Hash, keys: MppeKeys, secret: seq<byte>, auth: Block, sendSalt: Salt, recvSalt: Salt)
    : (r: Result<seq<Attribute>, MppeError>)
  {
    if sendSalt == recvSalt then Failure(InvalidSalt(FromU16(recvSalt)))
    else match KeyAttribute(h, SEND_KEY, keys.send, secret, auth, sendSalt)
      case Failure(e) => Failure(e)
      case Success(send) =>
        match KeyAttribute(h, RECV_KEY, keys.recv, secret, auth, recvSalt)
        case Failure(e) => Failure(e)
        case Success(recv) => Success([send, recv])
  }

  /** `from_packet` */
  function FromPacket(h: Hash, attributes: seq<Attribute>, secret: seq<byte>, auth: Block)
    : (r: Result<Option<MppeKeys>, MppeError>)
  {
    var send, recv := FindVendor(attributes, MICROSOFT, SEND_KEY), FindVendor(attributes, MICROSOFT, RECV_KEY);
    if send == [] && recv == [] then Success(None)
    else if send == [] || recv == [] then Failure(Unpaired)
    else match DecryptedKey(h, send[0].value, secret, auth)
      case Failure(e) => Failure(e)
      case Success(s) =>
        match DecryptedKey(h, recv[0].value, secret, auth)
        case Failure(e) => Failure(e)
        case Success(r) => Success(Some(MppeKeys(s, r)))
  }

  predicate Sendable(keys: MppeKeys) { |keys.send| <= MAX_KEY_LENGTH && |keys.recv| <= MAX_KEY_LENGTH }

  lemma KeyAttributeFinds(h: Hash, vendorType: byte, key: seq<byte>, secret: seq<byte>, auth: Block, salt: Salt)
    requires |key| <= MAX_KEY_LENGTH && TopBitSet(salt)
    ensures var s := Salted(h, key, secret, auth, salt);
            var r := KeyAttribute(h, vendorType, key, secret, auth, salt);
            && r.Success? && r.value.kind == VENDOR_SPECIFIC
            && SubsOf(r.value) == [VendorSpecific(MICROSOFT, vendorType, s)]
  {
    KeyRoundTrip(h, key, secret, auth, salt);
    var subs := [VendorSpecific(MICROSOFT, vendorType, Salted(h, key, secret, auth, salt))];
    assert EncodeSubs(subs) == EncodeSub(subs[0]) + EncodeSubs([]);
    CombinedExactly(subs, Combined(subs).value);
  }

  /** The pair on the wire: two Vendor-Specific attributes of vendor 311, MS-MPPE-Send-Key (type 16) first, then
      MS-MPPE-Recv-Key (type 17), each carrying its own key under its own salt. */
  lemma {:induction false} KeysLayout(h: Hash, keys: MppeKeys, secret: seq<byte>, auth: Block, sendSalt: Salt,
                                      recvSalt: Salt, r: seq<Attribute>)
    requires KeyAttributes(h, keys, secret, auth, sendSalt, recvSalt) == Success(r)
    ensures exists s, t ::
              && EncryptedKey(h, keys.send, secret, auth, sendSalt) == Success(s)
              && EncryptedKey(h, keys.recv, secret, auth, recvSalt) == Success(t)
              && |s| <= 242 && |t| <= 242
              && r == [RawAttribute(26, [0, 0, 1, 0x37, 16, 2 + |s|] + s),
                       RawAttribute(26, [0, 0, 1, 0x37, 17, 2 + |t|] + t)]
  {
    hide EncryptedKey, KeyAttribute;
    KeyLayout(h, SEND_KEY, keys.send, secret, auth, sendSalt);
    KeyLayout(h, RECV_KEY, keys.recv, secret, auth, recvSalt);
    var s, t := EncryptedKey(h, keys.send, secret, auth, sendSalt).value,
        EncryptedKey(h, keys.recv, secret, auth, recvSalt).value;
    assert r[0] == RawAttribute(26, [0, 0, 1, 0x37, 16, 2 + |s|] + s);
    assert r[1] == RawAttribute(26, [0, 0, 1, 0x37, 17, 2 + |t|] + t);
  }

  lemma {:induction false} KeyLayout(h: Hash, vendorType: byte, key: seq<byte>, secret: seq<byte>, auth: Block,
                                     salt: Salt)
    requires KeyAttribute(h, vendorType, key, secret, auth, salt).Success?
    ensures var s := EncryptedKey(h, key, secret, auth, salt);
            && s.Success? && |s.value| <= 242
            && KeyAttribute(h, vendorType, key, secret, auth, salt).value ==
               RawAttribute(26, [0, 0, 1, 0x37, vendorType, 2 + |s.value|] + s.value)
  {
    KeyRoundTrip(h, key, secret, auth, salt);
    hide EncryptedKey, DecryptedKey, EncodeSubs;
    var s := EncryptedKey(h, key, secret, auth, salt).value;
    VendorLayout([VendorSpecific(MICROSOFT, vendorType, s)], []);
    assert U32(311) == [0, 0, 1, 0x37];
    assert U32(311) + ([vendorType, 2 + |s|] + s) == [0, 0, 1, 0x37, vendorType, 2 + |s|] + s;
  }

  lemma FindOne(a: Attribute, sub: VendorSpecific, id: u32, vendorType: byte)
    requires SubsOf(a) == [sub]
    ensures FindVendor([a], id, vendorType) == if Is(sub, id, vendorType) then [sub] else []
  {
    assert FindVendor([a][1..], id, vendorType) == [];
    assert Matching([sub], id, vendorType) == (if Is(sub, id, vendorType) then [sub] else []) +
           Matching([], id, vendorType);
  }

  /** The sub-attributes the pair is found as. */
  lemma KeyAttributesFind(h: Hash, keys: MppeKeys, secret: seq<byte>, auth: Block, sendSalt: Salt, recvSalt: Salt)
    requires Sendable(keys) && TopBitSet(sendSalt) && TopBitSet(recvSalt) && sendSalt != recvSalt
    ensures var r := KeyAttributes(h, keys, secret, auth, sendSalt, recvSalt);
            && r.Success? && |r.value| == 2 && r.value[0].kind == r.value[1].kind == VENDOR_SPECIFIC
            && forall id, t :: FindVendor(r.value, id, t) ==
                 if id == MICROSOFT && t == SEND_KEY
                   then [VendorSpecific(id, t, Salted(h, keys.send, secret, auth, sendSalt))]
                 else if id == MICROSOFT && t == RECV_KEY
                   then [VendorSpecific(id, t, Salted(h, keys.recv, secret, auth, recvSalt))]
                 else []
  {
    KeyAttributeFinds(h, SEND_KEY, keys.send, secret, auth, sendSalt);
    KeyAttributeFinds(h, RECV_KEY, keys.recv, secret, auth, recvSalt);
    var r := KeyAttributes(h, keys, secret, auth, sendSalt, recvSalt).value;
    var s0, s1 := SubsOf(r[0])[0], SubsOf(r[1])[0];
    forall id, t
      ensures FindVendor(r, id, t) == (if Is(s0, id, t) then [s0] else []) + (if Is(s1, id, t) then [s1] else [])
    {
      assert r == [r[0]] + [r[1]];
      FindVendorConcat([r[0]], [r[1]], id, t);
      FindOne(r[0], s0, id, t);
      FindOne(r[1], s1, id, t);
    }
  }

  /** A receiver of these sub-attributes followed by ours reads `key`: ours is the first, or the first decrypts
      to it. */
  predicate ReadsAs(h: Hash, before: seq<VendorSpecific>, key: seq<byte>, secret: seq<byte>, auth: Block) {
    before == [] || DecryptedKey(h, before[0].value, secret, auth) == Success(key)
  }

  /** The pair encodes exactly when both keys fit and the salts are valid and different. The receiver of a packet
      that carries it then decrypts the pair exactly when no earlier MS-MPPE key says otherwise; in particular when
      there is none. */
  lemma {:induction false} KeysRoundTrip(h: Hash, keys: MppeKeys, secret: seq<byte>, auth: Block, sendSalt: Salt,
                                         recvSalt: Salt, before: seq<Attribute>, after: seq<Attribute>)
    ensures var r := KeyAttributes(h, keys, secret, auth, sendSalt, recvSalt);
            && (r.Success? <==> Sendable(keys) && TopBitSet(sendSalt) && TopBitSet(recvSalt) && sendSalt != recvSalt)
            && (r.Success? ==>
                  (FromPacket(h, before + r.value + after, secret, auth) == Success(Some(keys)) <==>
                   && ReadsAs(h, FindVendor(before, MICROSOFT, SEND_KEY), keys.send, secret, auth)
                   && ReadsAs(h, FindVendor(before, MICROSOFT, RECV_KEY), keys.recv, secret, auth)))
  {
    hide DecryptedKey, KeyAttribute, FindVendor, Salted;
    var r := KeyAttributes(h, keys, secret, auth, sendSalt, recvSalt);
    KeyRoundTrip(h, keys.send, secret, auth, sendSalt);
    KeyRoundTrip(h, keys.recv, secret, auth, recvSalt);
    if Sendable(keys) && TopBitSet(sendSalt) && TopBitSet(recvSalt) && sendSalt != recvSalt {
      KeyAttributesFind(h, keys, secret, auth, sendSalt, recvSalt);
      FindVendorConcat(before + r.value, after, MICROSOFT, SEND_KEY);
      FindVendorConcat(before, r.value, MICROSOFT, SEND_KEY);
      FindVendorConcat(before + r.value, after, MICROSOFT, RECV_KEY);
      FindVendorConcat(before, r.value, MICROSOFT, RECV_KEY);
    } else {
      KeyAttributeFails(h, SEND_KEY, keys.send, secret, auth, sendSalt);
      KeyAttributeFails(h, RECV_KEY, keys.recv, secret, auth, recvSalt);
    }
  }

  lemma KeyAttributeFails(h: Hash, vendorType: byte, key: seq<byte>, secret: seq<byte>, auth: Block, salt: Salt)
    ensures KeyAttribute(h, vendorType, key, secret, auth, salt).Success? ==> |key| <= MAX_KEY_LENGTH && TopBitSet(salt)
  {
  }

  /** The halves of an MSK of at least 64 octets, under the salts drawn for an Access-Accept, always encode, and the
      NAS reads them exactly when no MS-MPPE key already among the attributes of the Accept says otherwise. */
  lemma {:induction false} MskDelivered(h: Hash, msk: seq<byte>, secret: seq<byte>, auth: Block, drawn: nat,
                                        accept: seq<Attribute>)
    requires drawn < U16_RANGE
    ensures FromMsk(msk).Success? <==> |msk| >= 64
    ensures |msk| >= 64 ==>
              var salts, keys := GenerateSalts(drawn, 2), FromMsk(msk).value;
              var r := KeyAttributes(h, keys, secret, auth, salts[0], salts[1]);
              && keys == MppeKeys(msk[32..64], msk[..32]) && r.Success?
              && (FromPacket(h, accept + r.value, secret, auth) == Success(Some(keys)) <==>
                  && ReadsAs(h, FindVendor(accept, MICROSOFT, SEND_KEY), msk[32..64], secret, auth)
                  && ReadsAs(h, FindVendor(accept, MICROSOFT, RECV_KEY), msk[..32], secret, auth))
  {
    hide KeyAttributes, FromPacket, FindVendor, DecryptedKey;
    if |msk| >= 64 {
      var salts, keys := GenerateSalts(drawn, 2), FromMsk(msk).value;
      SaltsDistinct(drawn, 2);
      KeysRoundTrip(h, keys, secret, auth, salts[0], salts[1], accept, []);
      var r := KeyAttributes(h, keys, secret, auth, salts[0], salts[1]);
      assert accept + r.value + [] == accept + r.value;
    }
  }
}
