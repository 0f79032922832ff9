/** Tunnel-Password (section 3.5 of RFC 2868): a tag octet, then the salted string MS-MPPE keys use. */
module TunnelPasswords {
  import opened Octets
  import opened EapCodec
  import opened Chain
  import opened Mppe

  const TUNNEL_PASSWORD: byte := 69
  const MAX_TAG: byte := 0x1F
  const MAX_PASSWORD_LENGTH: nat := 239
  const HEADER: nat := 3

  datatype TunnelPasswordError =
    | PasswordTooLong(octets: nat)
    | InvalidTag(tag: byte)
    | BadSalt(salt: nat)
    | BadLength(octets: nat)
    | InvalidDataLength(declared: nat, available: nat)
    | WrongAttributeType(kind: byte)
    | BadAttribute

  datatype TunnelPassword = TunnelPassword(tag: byte, password: seq<byte>)

  /** What `encrypt` computes. */
  function Encrypted(h: Hash, p: TunnelPassword, secret: seq<byte>, auth: Block, salt: Salt)
    : (r: Result<seq<byte>, TunnelPasswordError>)
  {
    if p.tag > MAX_TAG then Failure(InvalidTag(p.tag))
    else if |p.password| > MAX_PASSWORD_LENGTH then Failure(PasswordTooLong(|p.password|))
    else if !TopBitSet(salt) then Failure(BadSalt(FromU16(salt)))
    else Success([p.tag] + salt + Encipher(h, secret, auth + salt, Framed(p.password)))
  }

  /** What `decrypt` computes. */
  function Decrypted(h: Hash, value: seq<byte>, secret: seq<byte>, auth: Block)
    : (r: Result<TunnelPassword, TunnelPasswordError>)
  {
    if |value| < HEADER + BLOCK || (|value| - HEADER) % BLOCK != 0 then Failure(BadLength(|value|))
    else if value[0] > MAX_TAG then Failure(InvalidTag(value[0]))
    else if !TopBitSet(value[1..HEADER]) then Failure(BadSalt(FromU16(value[1..HEADER])))
    else
      var plain := Decipher(h, secret, auth + value[1..HEADER], value[HEADER..]);
      if plain[0] as int > |plain| - 1 then Failure(InvalidDataLength(plain[0], |plain| - 1))
      else Success(TunnelPassword(value[0], plain[1..1 + plain[0] as int]))
  }

  /** `encrypt` */
  method Encrypt(h: Hash, p: TunnelPassword, secret: seq<byte>, auth: Block, salt: Salt)
    returns (r: Result<seq<byte>, TunnelPasswordError>)
    ensures r == Encrypted(h, p, secret, auth, salt)
  {
    if p.tag > MAX_TAG {
      return Failure(InvalidTag(p.tag));
    }
    if |p.password| > MAX_PASSWORD_LENGTH {
      return Failure(PasswordTooLong(|p.password|));
    }
    if salt[0] < 0x80 {
      return Failure(BadSalt(FromU16(salt)));
    }
    var padded := BLOCK * DivCeil(1 + |p.password|);
    var plain := [|p.password|] + p.password;
    plain := plain + Zeros(padded - |plain|);
    var cipher := EncryptBlocks(h, secret, auth + salt, plain);
    return Success([p.tag] + salt + cipher);
  }

  /** `decrypt` */
  method Decrypt(h: Hash, value: seq<byte>, secret: seq<byte>, auth: Block)
    returns (r: Result<TunnelPassword, TunnelPasswordError>)
    ensures r == Decrypted(h, value, secret, auth)
  {
    if |value| < HEADER + BLOCK || (|value| - HEADER) % BLOCK != 0 {
      return Failure(BadLength(|value|));
    }
    var tag := value[0];
    if tag > MAX_TAG {
      return Failure(InvalidTag(tag));
    }
    var salt := value[1..HEADER];
    if salt[0] < 0x80 {
      return Failure(BadSalt(FromU16(salt)));
    }
    var plain := DecryptBlocks(h, secret, auth + salt, value[HEADER..]);
    var declared: nat, available := plain[0], |plain| - 1;
    if declared > available {
      return Failure(InvalidDataLength(declared, available));
    }
    return Success(TunnelPassword(tag, plain[1..1 + declared]));
  }

  /** The value is the tag followed by the MS-MPPE string for the password. */
  lemma TaggedKey(h: Hash, p: TunnelPassword, secret: seq<byte>, auth: Block, salt: Salt)
    requires p.tag <= MAX_TAG
    ensures var r, k := Encrypted(h, p, secret, auth, salt), EncryptedKey(h, p.password, secret, auth, salt);
            if k.Success? then r == Success([p.tag] + k.value) else r.Failure?
  {
    if EncryptedKey(h, p.password, secret, auth, salt).Success? {
      var cipher := Encipher(h, secret, auth + salt, Framed(p.password));
      assert [p.tag] + salt + cipher == [p.tag] + (salt + cipher);
    }
  }

  /** Decryption reads a tag, then what MS-MPPE decryption makes of the rest. */
  lemma TaggedDecryption(h: Hash, tag: byte, s: seq<byte>, secret: seq<byte>, auth: Block)
    requires tag <= MAX_TAG
    ensures var r, k := Decrypted(h, [tag] + s, secret, auth), DecryptedKey(h, s, secret, auth);
            if k.Success? then r == Success(TunnelPassword(tag, k.value)) else r.Failure?
  {
    var value := [tag] + s;
    if |s| >= 2 {
      assert value[1..HEADER] == s[..2] && value[HEADER..] == s[2..];
    }
  }

  predicate Sealable(p: TunnelPassword, salt: Salt) {
    p.tag <= MAX_TAG && |p.password| <= MAX_PASSWORD_LENGTH && TopBitSet(salt)
  }

  /** Encryption succeeds exactly on a tag up to 0x1F, a password up to 239 octets and a salt with its
      top bit set; the value then fits an attribute and decrypts to the same tag and password. */
  lemma PasswordRoundTrip(h: Hash, p: TunnelPassword, secret: seq<byte>, auth: Block, salt: Salt)
    ensures var r := Encrypted(h, p, secret, auth, salt);
            && (r.Success? <==> Sealable(p, salt))
            && (r.Success? ==>
                  && |r.value| == HEADER + BLOCK * DivCeil(1 + |p.password|) <= MAX_VALUE_LENGTH
                  && r.value[1..HEADER] == salt
                  && Decrypted(h, r.value, secret, auth) == Success(p))
  {
    if Sealable(p, salt) {
      var value := Encrypted(h, p, secret, auth, salt).value;
      TaggedKey(h, p, secret, auth, salt);
      KeyRoundTrip(h, p.password, secret, auth, salt);
      var s := EncryptedKey(h, p.password, secret, auth, salt).value;
      TaggedDecryption(h, p.tag, s, secret, auth);
      assert value[1..HEADER] == s[..2];
    }
  }

  /** A password read from a received attribute is short enough to be sent on. */
  lemma ReceivedFits(h: Hash, value: seq<byte>, secret: seq<byte>, auth: Block)
    requires |value| <= MAX_VALUE_LENGTH && Decrypted(h, value, secret, auth).Success?
    ensures Decrypted(h, value, secret, auth).value.tag <= MAX_TAG
    ensures |Decrypted(h, value, secret, auth).value.password| <= MAX_PASSWORD_LENGTH
  {
    var blocks := (|value| - HEADER) / BLOCK;
    assert |value| - HEADER == BLOCK * blocks;
  }

  /** `to_attribute_with_salt` */
  function ToAttribute(h: Hash, p: TunnelPassword, secret: seq<byte>, auth: Block, salt: Salt)
    : (r: Result<Attribute, TunnelPasswordError>)
  {
    match Encrypted(h, p, secret, auth, salt)
    case Failure(e) => Failure(e)
    case Success(value) =>
      if |value| > MAX_VALUE_LENGTH then Failure(TunnelPasswordError.BadAttribute)
      else Success(RawAttribute(TUNNEL_PASSWORD, value))
  }

  /** `from_attribute` */
  function FromAttribute(h: Hash, a: Attribute, secret: seq<byte>, auth: Block)
    : (r: Result<TunnelPassword, TunnelPasswordError>)
  {
    if a.kind != TUNNEL_PASSWORD then Failure(WrongAttributeType(a.kind)) else Decrypted(h, a.value, secret, auth)
  }

  /** Exactly which attributes are read as a Tunnel-Password: type 69, a tag up to 0x1F, then a string that carries the
      password as MS-MPPE keys are carried. */
  lemma ReadsExactly(h: Hash, a: Attribute, secret: seq<byte>, auth: Block, p: TunnelPassword)
    ensures FromAttribute(h, a, secret, auth) == Success(p) <==>
            && a.kind == 69 && a.value != [] && a.value[0] == p.tag <= 0x1F
            && exists pad :: Carries(h, a.value[1..], secret, auth, p.password, pad)
  {
    hide DecryptedKey, Carries;
    if a.value != [] {
      assert a.value == [a.value[0]] + a.value[1..];
      if a.value[0] <= MAX_TAG {
        TaggedDecryption(h, a.value[0], a.value[1..], secret, auth);
      }
      DecryptsExactly(h, a.value[1..], secret, auth, p.password);
    }
  }

  /** And exactly what one is written as: the same, under the given salt and with the least padding, of zeros. */
  lemma WritesExactly(h: Hash, p: TunnelPassword, secret: seq<byte>, auth: Block, salt: Salt, a: Attribute)
    ensures ToAttribute(h, p, secret, auth, salt) == Success(a) <==>
            && a.kind == 69 && |a.value| >= 3 && a.value[0] == p.tag <= 0x1F && a.value[1..3] == salt
            && |p.password| <= 239
            && exists n: nat :: n < 16 && Carries(h, a.value[1..], secret, auth, p.password, Zeros(n))
  {
    hide EncryptedKey, Carries, Encrypted;
    PasswordRoundTrip(h, p, secret, auth, salt);
    if p.tag <= MAX_TAG {
      TaggedKey(h, p, secret, auth, salt);
      if a.value != [] {
        var s := a.value[1..];
        EncryptsExactly(h, p.password, secret, auth, salt, s);
        assert a.value == [a.value[0]] + s;
        if |s| >= 2 {
          assert s[..2] == a.value[1..3];
        }
      }
      var k := EncryptedKey(h, p.password, secret, auth, salt);
      if k.Success? {
        assert ([p.tag] + k.value)[1..] == k.value;
      }
    }
  }

  /** Re-encryption for another hop: whatever decrypts under one secret encrypts under any other with
      any salt whose top bit is set, and decrypts there to the same tag and password. */
  lemma ReEncryption(h: Hash, a: Attribute, home: seq<byte>, client: seq<byte>, auth: Block, salt: Salt)
    requires FromAttribute(h, a, home, auth).Success? && TopBitSet(salt)
    ensures var p := FromAttribute(h, a, home, auth).value;
            var r := ToAttribute(h, p, client, auth, salt);
            && r.Success? && r.value.kind == TUNNEL_PASSWORD && |r.value.value| >= HEADER
            && r.value.value[1..HEADER] == salt
            && FromAttribute(h, r.value, client, auth) == Success(p)
  {
    var p := FromAttribute(h, a, home, auth).value;
    ReceivedFits(h, a.value, home, auth);
    PasswordRoundTrip(h, p, client, auth, salt);
  }
}
