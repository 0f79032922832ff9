/** User-Password hiding (section 5.2 of RFC 2865) and the constant-time comparison of digests. */
module UserPassword {
  import opened Octets
  import opened Chain

  datatype PasswordError = InvalidPasswordLength | InvalidUtf8

  /** Without the NULs at the end. */
  function Strip(s: seq<byte>): (r: seq<byte>)
    ensures |r| <= |s| && r == s[..|r|]
    ensures r == [] || r[|r| - 1] != 0
    ensures forall i :: |r| <= i < |s| ==> s[i] == 0
  {
    if s != [] && s[|s| - 1] == 0 then Strip(s[..|s| - 1]) else s
  }

  /** The least positive multiple of 16 that holds `n` octets. */
  function HoldingLength(n: nat): nat {
    if n == 0 then BLOCK else (n + BLOCK - 1) / BLOCK * BLOCK
  }

  lemma HoldingLengthLeast(n: nat)
    ensures HoldingLength(n) % BLOCK == 0 && HoldingLength(n) >= n && HoldingLength(n) > 0
    ensures forall k: nat :: k > 0 && k % BLOCK == 0 && k >= n ==> k >= HoldingLength(n)
  {
  }

  function Padded(password: seq<byte>): (s: seq<byte>)
    ensures |s| == HoldingLength(|password|)
  {
    HoldingLengthLeast(|password|);
    password + Zeros(HoldingLength(|password|) - |password|)
  }

  /** What `encrypt_user_password` computes. */
  function Hidden(h: Hash, password: seq<byte>, secret: seq<byte>, auth: Block): seq<byte> {
    HoldingLengthLeast(|password|);
    Encipher(h, secret, auth, Padded(password))
  }

  /** What `decrypt_user_password` computes; `utf8` decides whether octets are a string. */
  function Shown(h: Hash, utf8: seq<byte> -> bool, s: seq<byte>, secret: seq<byte>, auth: Block)
    : (r: Result<seq<byte>, PasswordError>)
  {
    if |s| % BLOCK != 0 || s == [] then Failure(InvalidPasswordLength)
    else
      var password := Strip(Decipher(h, secret, auth, s));
      if utf8(password) then Success(password) else Failure(InvalidUtf8)
  }

  lemma {:induction false} StripPadding(s: seq<byte>, n: nat)
    ensures Strip(s + Zeros(n)) == Strip(s)
    decreases n
  {
    if n == 0 {
      assert s + Zeros(n) == s;
    } else {
      var t := s + Zeros(n);
      assert t[..|t| - 1] == s + Zeros(n - 1) && t[|t| - 1] == 0;
      assert Strip(t) == Strip(t[..|t| - 1]);
      hide Strip;
      StripPadding(s, n - 1);
    }
  }

  predicate EndsInNul(s: seq<byte>) { s != [] && s[|s| - 1] == 0 }

  /** The hidden password is as long as the least positive multiple of 16 that holds it; showing it
      strips trailing NULs, so a password comes back exactly when it does not end in one. */
  lemma PasswordRoundTrip(h: Hash, utf8: seq<byte> -> bool, password: seq<byte>, secret: seq<byte>, auth: Block)
    requires utf8(password)
    ensures var s := Hidden(h, password, secret, auth);
            && |s| == HoldingLength(|password|)
            && Shown(h, utf8, s, secret, auth) ==
                 (if utf8(Strip(password)) then Success(Strip(password)) else Failure(InvalidUtf8))
            && (Shown(h, utf8, s, secret, auth) == Success(password) <==> !EndsInNul(password))
  {
    hide HoldingLength, Encipher, Decipher;
    HoldingLengthLeast(|password|);
    Inverse(h, secret, auth, Padded(password));
    StripPadding(password, HoldingLength(|password|) - |password|);
  }

  /** The hidden password is the chain of section 5.2 of RFC 2865 over the password, padded with NULs to a positive
      multiple of 16 octets and no further. */
  lemma HiddenLayout(h: Hash, password: seq<byte>, secret: seq<byte>, auth: Block)
    ensures var s := Hidden(h, password, secret, auth);
            && |password| <= |s| && |s| > 0 && (|s| == 16 || |s| < |password| + 16)
            && Chained(h, secret, auth, password + Zeros(|s| - |password|), s)
  {
    HoldingLengthLeast(|password|);
    EncipherExactly(h, secret, auth, Padded(password), Hidden(h, password, secret, auth));
  }

  /** Exactly which octets show a password: its chain, padded with any number of NULs to a positive multiple of 16
      octets. It is text that does not end in a NUL. */
  lemma ShownExactly(h: Hash, utf8: seq<byte> -> bool, s: seq<byte>, secret: seq<byte>, auth: Block,
                     password: seq<byte>)
    ensures Shown(h, utf8, s, secret, auth) == Success(password) <==>
            && s != [] && |password| <= |s| && utf8(password) && !EndsInNul(password)
            && Chained(h, secret, auth, password + Zeros(|s| - |password|), s)
  {
    if |s| % BLOCK == 0 && s != [] {
      var plain := Decipher(h, secret, auth, s);
      DecipherExactly(h, secret, auth, plain, s);
      if |password| <= |s| {
        var padded := password + Zeros(|s| - |password|);
        DecipherExactly(h, secret, auth, padded, s);
        StripPadding(password, |s| - |password|);
        if Strip(plain) == password {
          assert plain == padded;
        }
      }
    }
  }

  lemma NeededLength(n: nat)
    ensures HoldingLength(n) == if n == 0 then 16 else n + (16 - n % 16) % 16
  {
  }

  /** `encrypt_user_password` */
  method EncryptUserPassword(h: Hash, password: seq<byte>, secret: seq<byte>, auth: Block) returns (result: seq<byte>)
    ensures result == Hidden(h, password, secret, auth)
  {
    hide HoldingLength;
    var padded := password;
    var needed := (16 - |padded| % 16) % 16;
    NeededLength(|password|);
    if needed > 0 || padded == [] {
      padded := padded + Zeros(needed);
    }
    if padded == [] {
      padded := Zeros(16);
    }
    HoldingLengthLeast(|password|);
    assert padded == Padded(password);
    result := EncryptBlocks(h, secret, auth, padded);
  }

  method PopPadding(plain: seq<byte>) returns (result: seq<byte>)
    ensures result == Strip(plain)
  {
    result := plain;
    while result != [] && result[|result| - 1] == 0
      invariant Strip(plain) == Strip(result)
    {
      result := result[..|result| - 1];
    }
  }

  /** `decrypt_user_password` */
  method DecryptUserPassword(h: Hash, utf8: seq<byte> -> bool, s: seq<byte>, secret: seq<byte>, auth: Block)
    returns (r: Result<seq<byte>, PasswordError>)
    ensures r == Shown(h, utf8, s, secret, auth)
  {
    if |s| % BLOCK != 0 || s == [] {
      return Failure(InvalidPasswordLength);
    }
    var plain := DecryptBlocks(h, secret, auth, s);
    var result := PopPadding(plain);
    if !utf8(result) {
      return Failure(InvalidUtf8);
    }
    return Success(result);
  }

  /** Inclusive or of the low `n` bits. */
  function OrBits(n: nat, a: nat, b: nat): (r: nat)
    ensures r < Pow2(n)
  {
    if n == 0 then 0 else 2 * OrBits(n - 1, a / 2, b / 2) + (if a % 2 == 1 || b % 2 == 1 then 1 else 0)
  }

  lemma {:induction false} OrZero(n: nat, a: nat, b: nat)
    requires a < Pow2(n) && b < Pow2(n)
    ensures OrBits(n, a, b) == 0 <==> a == 0 && b == 0
  {
    if n > 0 {
      OrZero(n - 1, a / 2, b / 2);
    }
  }

  /** `constant_time_eq`: the accumulated difference is zero exactly when the strings are equal. */
  method ConstantTimeEq(a: seq<byte>, b: seq<byte>) returns (equal: bool)
    ensures equal <==> a == b
  {
    if |a| != |b| {
      return false;
    }
    assert Pow2(8) == 256;
    var diff: nat := 0;
    for i := 0 to |a|
      invariant diff < Pow2(8) && (diff == 0 <==> a[..i] == b[..i])
    {
      XorZero(a[i], b[i]);
      OrZero(8, diff, Xor(a[i], b[i]));
      assert a[..i + 1] == a[..i] + [a[i]] && b[..i + 1] == b[..i] + [b[i]];
      diff := OrBits(8, diff, Xor(a[i], b[i]));
    }
    assert a[..|a|] == a && b[..|b|] == b;
    return diff == 0;
  }
}
