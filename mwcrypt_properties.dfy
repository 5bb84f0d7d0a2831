/** What the salt, hash and verification functions promise together:
    the accessors read back what `genSaltSync` wrote, `compareSync` accepts
    what `hashSync` produced from a four-field salt, and rejects a tampered
    key, a salt with more than four fields and (for a key derivation that
    separates passwords) a wrong password. */
module MwCryptProperties {
  import opened Wrappers
  import opened JsStrings
  import opened JsNumbers
  import opened Encodings
  import opened MwCrypt

  /** The key derivation returns keys of the length asked for, as
      `crypto.pbkdf2Sync` does. */
  ghost predicate KeepsLength(kdf: Pbkdf2)
  {
    forall p, s, n, len, digest :: kdf(p, s, n, len, digest).Some? ==>
      |kdf(p, s, n, len, digest).value| == len
  }

  /** Two passwords never derive the same key for the same salt and
      parameters. A 64-byte PBKDF2 cannot have this property over all
      passwords; it stands for its collision resistance. */
  ghost predicate SeparatesPasswords(kdf: Pbkdf2)
  {
    forall p1, p2, s, n, len, digest ::
      kdf(p1, s, n, len, digest).Some? && kdf(p1, s, n, len, digest) == kdf(p2, s, n, len, digest)
      ==> p1 == p2
  }

  // ---------------------------------------------------------------------
  // Salt strings and the accessors

  /** `getRounds(genSaltSync(rounds))` is the cost written into the salt,
      for every safe-integer cost, negative ones included, and the
      default 10 when the cost is absent. */
  lemma {:induction false} GetRoundsOfGenSaltSync(rounds: JsValue, entropy: seq<byte>)
    requires |entropy| == SALT_LENGTH
    requires rounds.Undefined? || rounds.Num?
    ensures GetRounds(GenSaltSync(rounds, entropy).value) == Ok(Int(CostOf(rounds)))
  {
    ParseIntOfIntToString(CostOf(rounds));
  }

  /** `getHashVersion(genSaltSync(rounds))` is the version tag. */
  lemma GetHashVersionOfGenSaltSync(rounds: JsValue, entropy: seq<byte>)
    requires |entropy| == SALT_LENGTH
    requires rounds.Undefined? || rounds.Num?
    ensures GetHashVersion(GenSaltSync(rounds, entropy).value) == Some(VERSION_TAG)
  {
  }

  /** `getHashVersion` reads back field 1 of any string built by joining
      separator-free fields, when that field is not empty. */
  lemma {:induction false} GetHashVersionOfJoin(parts: seq<string>)
    requires |parts| >= 2 && NoSeparator(parts, SEP)
    ensures GetHashVersion(Join(parts, SEP)) == if parts[1] == "" then None else Some(parts[1])
  {
    SplitJoin(parts, SEP);
  }

  /** `getRounds` of any string built by joining at least four
      separator-free fields is `parseInt` of field 2. */
  lemma {:induction false} GetRoundsOfJoin(parts: seq<string>)
    requires |parts| >= 4 && NoSeparator(parts, SEP)
    ensures GetRounds(Join(parts, SEP)) == Ok(ParseInt(parts[2]))
  {
    SplitJoin(parts, SEP);
    SplitLength(Join(parts, SEP), SEP);
  }

  /** `getRounds` reads the same cost from a hash as from the salt it was
      made with. */
  lemma {:induction false} GetRoundsOfHash(password: string, salt: string, kdf: Pbkdf2)
    requires HashSync(password, salt, kdf).Ok?
    ensures GetRounds(HashSync(password, salt, kdf).value) == GetRounds(salt)
  {
    var h := HashSync(password, salt, kdf).value;
    SplitLength(salt, SEP);
    SplitLength(h, SEP);
    assert Split(h, SEP)[2] == Split(salt, SEP)[2];
  }

  /** The error cases of the accessors: a string without separators has no
      version and no cost. */
  lemma AccessorsOnPlainString(s: string)
    requires SEP !in s
    ensures GetHashVersion(s) == None
    ensures GetRounds(s) == Err(InvalidHashFormat)
  {
    SplitWithoutSeparator(s, SEP);
  }

  // ---------------------------------------------------------------------
  // Hash strings

  /** A hash of a `genSaltSync` salt has five fields: the salt's four and
      the 128-digit lower-case hex of the 64-byte key. */
  lemma {:induction false} HashOfGeneratedSalt(
    password: string, rounds: JsValue, entropy: seq<byte>, kdf: Pbkdf2)
    requires |entropy| == SALT_LENGTH
    requires rounds.Undefined? || rounds.Num?
    requires KeepsLength(kdf)
    requires HashSync(password, GenSaltSync(rounds, entropy).value, kdf).Ok?
    ensures
      var fields := Split(HashSync(password, GenSaltSync(rounds, entropy).value, kdf).value, SEP);
      && |fields| == 5
      && fields[..4] == ["", VERSION_TAG, IntToString(CostOf(rounds)), Hex(entropy)]
      && |fields[4]| == 2 * KEY_LENGTH
      && IsLowerHexString(fields[4])
  {
    var salt := GenSaltSync(rounds, entropy).value;
    HashKeyField(password, salt, kdf);
    var h := HashSync(password, salt, kdf).value;
    AppendedField(Split(salt, SEP), h[|salt| + 1..],
      ["", VERSION_TAG, IntToString(CostOf(rounds)), Hex(entropy)]);
  }

  /** The fields of a salt followed by one more field: four, then the
      extra one. */
  lemma AppendedField(saltFields: seq<string>, key: string, expected: seq<string>)
    requires saltFields == expected && |expected| == 4
    ensures |saltFields + [key]| == 5
    ensures (saltFields + [key])[..4] == expected && (saltFields + [key])[4] == key
  {
  }

  /** The field `hashSync` appends is 128 lower-case hex digits, for a key
      derivation that returns keys of the requested 64 bytes. */
  lemma {:induction false} HashKeyField(password: string, salt: string, kdf: Pbkdf2)
    requires KeepsLength(kdf)
    requires HashSync(password, salt, kdf).Ok?
    ensures
      var h := HashSync(password, salt, kdf).value;
      && Split(h, SEP) == Split(salt, SEP) + [h[|salt| + 1..]]
      && |h[|salt| + 1..]| == 2 * KEY_LENGTH
      && IsLowerHexString(h[|salt| + 1..])
  {
    var h := HashSync(password, salt, kdf).value;
    var rounds := GetRounds(salt).value;
    var key := kdf(password, Split(salt, SEP)[3], Times(ITERATIONS, rounds), KEY_LENGTH, DIGEST);
    assert FromHex(h[|salt| + 1..]) == key;
    assert |key.value| == KEY_LENGTH;
  }

  /** `hashSync` succeeds on a `genSaltSync` salt and a non-empty password
      exactly when the key derivation does, called with the salt's hex,
      `ITERATIONS` times the cost, 64 bytes and SHA-512. */
  lemma HashSyncOfGeneratedSalt(
    password: string, rounds: JsValue, entropy: seq<byte>, kdf: Pbkdf2)
    requires |entropy| == SALT_LENGTH
    requires rounds.Undefined? || rounds.Num?
    requires password != ""
    ensures HashSync(password, GenSaltSync(rounds, entropy).value, kdf).Ok?
      <==> kdf(password, Hex(entropy), Int(ITERATIONS * CostOf(rounds)), KEY_LENGTH, DIGEST).Some?
  {
    var salt := GenSaltSync(rounds, entropy).value;
    GetRoundsOfGenSaltSync(rounds, entropy);
    assert salt != "" && Split(salt, SEP)[3] == Hex(entropy);
    assert Times(ITERATIONS, GetRounds(salt).value) == Int(ITERATIONS * CostOf(rounds));
  }

  /** The salt `compareSync` rebuilds from a hash of a four-field salt is
      that salt. */
  lemma {:induction false} EmbeddedSaltOfHash(password: string, salt: string, kdf: Pbkdf2)
    requires |Split(salt, SEP)| == 4
    requires HashSync(password, salt, kdf).Ok?
    ensures EmbeddedSalt(HashSync(password, salt, kdf).value) == salt
  {
    var h := HashSync(password, salt, kdf).value;
    var e := EmbeddedSalt(h);
    assert Split(h, SEP)[..4] == Split(salt, SEP);
    JoinSplit(e, SEP);
    JoinSplit(salt, SEP);
  }

  /** For a stored string made of a four-field salt and a separator-free
      key field, `compareSync` answers whether `hashSync` reproduces the
      stored string from that salt, and fails where `hashSync` fails. */
  lemma {:induction false} CompareSyncDecides(
    password: string, salt: string, key: string, kdf: Pbkdf2)
    requires |Split(salt, SEP)| == 4
    requires SEP !in key
    ensures CompareSync(password, salt + "$" + key, kdf) ==
      match HashSync(password, salt, kdf)
      case Ok(h) => Ok(h == salt + "$" + key)
      case Err(e) => Err(e)
  {
    var stored := salt + "$" + key;
    SplitAppendField(salt, SEP, key);
    assert Split(stored, SEP)[..4] == Split(salt, SEP);
    var e := EmbeddedSalt(stored);
    JoinSplit(e, SEP);
    JoinSplit(salt, SEP);
    assert e == salt;
  }

  /** For every stored string, `compareSync` accepts exactly when
      `hashSync` reproduces that string from the salt rebuilt out of it. */
  lemma {:induction false} CompareSyncAcceptsExactly(password: string, hash: string, kdf: Pbkdf2)
    ensures CompareSync(password, hash, kdf) == Ok(true)
      <==> HashSync(password, EmbeddedSalt(hash), kdf) == Ok(hash)
  {
    var salt := EmbeddedSalt(hash);
    if HashSync(password, salt, kdf) == Ok(hash) {
      assert TimingSafeEqual(hash, hash);
    }
  }

  /** `compareSync(password, hashSync(password, salt))` is true for every
      four-field salt that `hashSync` accepts. */
  lemma {:induction false} CompareSyncAcceptsHash(password: string, salt: string, kdf: Pbkdf2)
    requires |Split(salt, SEP)| == 4
    requires HashSync(password, salt, kdf).Ok?
    ensures CompareSync(password, HashSync(password, salt, kdf).value, kdf) == Ok(true)
  {
    var h := HashSync(password, salt, kdf).value;
    var key := h[|salt| + 1..];
    assert h == salt + "$" + key;
    assert SEP !in key;
    CompareSyncDecides(password, salt, key, kdf);
  }

  /** The whole life cycle: generate a salt, hash a password with it, and
      `compareSync` accepts that password against the stored hash. */
  lemma {:induction false} GenerateHashCompare(
    password: string, rounds: JsValue, entropy: seq<byte>, kdf: Pbkdf2)
    requires |entropy| == SALT_LENGTH
    requires rounds.Undefined? || rounds.Num?
    requires HashSync(password, GenSaltSync(rounds, entropy).value, kdf).Ok?
    ensures
      var h := HashSync(password, GenSaltSync(rounds, entropy).value, kdf).value;
      CompareSync(password, h, kdf) == Ok(true)
  {
    CompareSyncAcceptsHash(password, GenSaltSync(rounds, entropy).value, kdf);
  }

  /** Replacing the key field of a hash by any other separator-free text
      makes `compareSync` return false for the right password. */
  lemma {:induction false} CompareSyncRejectsTamperedKey(
    password: string, salt: string, forged: string, kdf: Pbkdf2)
    requires |Split(salt, SEP)| == 4
    requires HashSync(password, salt, kdf).Ok?
    requires SEP !in forged
    requires salt + "$" + forged != HashSync(password, salt, kdf).value
    ensures CompareSync(password, salt + "$" + forged, kdf) == Ok(false)
  {
    CompareSyncDecides(password, salt, forged, kdf);
  }

  /** A salt with more than four fields is hashed whole, but `compareSync`
      keeps only four of them, so it never accepts such a hash, not even
      for the right password. */
  lemma {:induction false} CompareSyncRejectsLongSalt(password: string, salt: string, kdf: Pbkdf2)
    requires |Split(salt, SEP)| > 4
    requires HashSync(password, salt, kdf).Ok?
    ensures CompareSync(password, HashSync(password, salt, kdf).value, kdf) == Ok(false)
  {
    var h := HashSync(password, salt, kdf).value;
    var parts := Split(salt, SEP);
    var e := EmbeddedSalt(h);
    // The rebuilt salt is the first four fields of `salt`, a proper prefix.
    assert Split(h, SEP)[..4] == parts[..4];
    JoinSplit(e, SEP);
    JoinSplit(salt, SEP);
    assert e == Join(parts[..4], SEP);
    JoinAppend(parts[..4], parts[4..], SEP);
    assert parts[..4] + parts[4..] == parts;
    assert |e| < |salt|;
    // The rebuilt salt reads the same cost and random field, so hashSync
    // derives the same key from it and only the lengths differ.
    SplitJoin(parts[..4], SEP);
    assert Split(e, SEP) == parts[..4];
    var rounds := GetRounds(salt).value;
    assert GetRounds(e) == Ok(rounds);
    var key := kdf(password, parts[3], Times(ITERATIONS, rounds), KEY_LENGTH, DIGEST);
    assert key.Some?;
    assert HashSync(password, e, kdf) == Ok(e + "$" + Hex(key.value));
    assert |e + "$" + Hex(key.value)| < |h|;
  }

  /** With a key derivation that separates passwords, `compareSync`
      accepts a hash only for the password it was made from. */
  lemma {:induction false} CompareSyncAcceptsOnlyHashedPassword(
    password: string, other: string, salt: string, kdf: Pbkdf2)
    requires SeparatesPasswords(kdf)
    requires HashSync(password, salt, kdf).Ok?
    ensures CompareSync(other, HashSync(password, salt, kdf).value, kdf) == Ok(true)
      ==> other == password
  {
    // CompareSync accepts only a five-field hash that HashSync reproduces
    // from the rebuilt salt; HashSync's contract then ties both keys to the
    // same decoded key field, and SeparatesPasswords to the same password.
  }

  /** A hash with fewer than four fields cannot be verified: `compareSync`
      fails, as `getRounds` does. */
  lemma CompareSyncRejectsShortHash(password: string, hash: string, kdf: Pbkdf2)
    requires |Split(hash, SEP)| < 4
    ensures CompareSync(password, hash, kdf).Err?
    ensures GetRounds(hash) == Err(InvalidHashFormat)
  {
  }

  // ---------------------------------------------------------------------
  // Equality and strength

  /** `timingSafeEqual` is reflexive and symmetric, and false whenever the
      UTF-8 byte lengths differ. */
  lemma TimingSafeEqualProperties(a: string, b: string)
    ensures TimingSafeEqual(a, a)
    ensures TimingSafeEqual(a, b) == TimingSafeEqual(b, a)
    ensures |Utf8(a)| != |Utf8(b)| ==> !TimingSafeEqual(a, b)
  {
  }

  /** The classifier on four sample inputs: too short, no upper-case
      letter, every class present, and a Number. */
  lemma CheckPasswordStrengthExamples()
    ensures !CheckPasswordStrength(Str("short1!"))
    ensures !CheckPasswordStrength(Str("alllowercase1!"))
    ensures CheckPasswordStrength(Str("Aa1!aaaa"))
    ensures !CheckPasswordStrength(Num(12345678))
  {
    var strong := "Aa1!aaaa";
    assert IsUpperAscii(strong[0]) && IsLowerAscii(strong[1]);
    assert IsDigit(strong[2]) && IsSpecial(strong[3]);
    var noUpper := "alllowercase1!";
    assert forall i :: 0 <= i < |noUpper| ==> !IsUpperAscii(noUpper[i]);
  }
}
