/** The password-hash library: salt strings `$2b$<rounds>$<hex>`, hash
    strings `<salt>$<hex key>` derived with PBKDF2 (HMAC-SHA-512), their
    verification, the two field accessors and the strength heuristic.

    Two things the library takes from its environment are parameters here:
    the 16 random bytes of a salt (`entropy`) and the key-derivation call
    `crypto.pbkdf2Sync` (`kdf`). */
module MwCrypt {
  import opened Wrappers
  import opened JsStrings
  import opened JsNumbers
  import opened Encodings

  const SALT_LENGTH: nat := 16
  const DEFAULT_ROUNDS: int := 10
  const ITERATIONS: int := 100000
  const KEY_LENGTH: nat := 64
  const DIGEST: string := "sha512"

  /** The version tag written into every salt. */
  const VERSION_TAG: string := "2b"

  /** The field separator of salt and hash strings. */
  const SEP: char := '$'

  /** An argument as the `typeof` and default-parameter checks see it:
      absent, a safe-integer Number, a string, or anything else
      (`null`, a boolean, an object, a function). */
  datatype JsValue = Undefined | Num(n: SafeInteger) | Str(s: string) | OtherValue

  /** The errors the library throws. */
  datatype Error =
    | RoundsNotNumber      // genSaltSync: 'Rounds must be a number'
    | MissingArgument      // hashSync: 'Password and salt required'
    | InvalidHashFormat    // getRounds: 'Invalid hash format'
    | DerivationFailed     // whatever crypto.pbkdf2Sync throws

  /** `crypto.pbkdf2Sync(password, salt, iterations, keylen, digest)`:
      the derived key, or `None` when the call throws (Node.js rejects, for
      one, an iteration count that is `NaN` or not a positive 32-bit
      integer). It is PBKDF2 of section 5.2 of RFC 8018 with HMAC-SHA-512;
      the model only relies on it being a function of its arguments. */
  type Pbkdf2 = (string, string, Number, nat, string) -> Option<seq<byte>>

  /** `k * n` on Numbers: a multiple of an integer is an integer, and a
      multiple of NaN is NaN. */
  function Times(k: int, n: Number): (r: Number)
    ensures r.NaN? <==> n.NaN?
    ensures n.Int? ==> r.value == k * n.value
  {
    match n
    case NaN => NaN
    case Int(v) => Int(k * v)
  }

  /** The cost a successful `genSaltSync(rounds)` writes into the salt:
      the default when the argument is absent, the Number itself
      otherwise. */
  function CostOf(rounds: JsValue): (cost: SafeInteger)
    ensures rounds.Undefined? ==> cost == DEFAULT_ROUNDS
    ensures rounds.Num? ==> cost == rounds.n
  {
    if rounds.Num? then rounds.n else DEFAULT_ROUNDS
  }

  /** `genSaltSync(rounds)`, with `entropy` standing for the 16 bytes of
      `crypto.randomBytes(SALT_LENGTH)`. A missing `rounds` takes the
      default; any other non-Number is refused. The result splits into
      exactly four fields: empty, the version tag, the cost and the hex of
      the random bytes. */
  function GenSaltSync(rounds: JsValue, entropy: seq<byte>): (r: Result<string, Error>)
    requires |entropy| == SALT_LENGTH
    ensures r.Ok? <==> rounds.Undefined? || rounds.Num?
    ensures r.Err? ==> r.error == RoundsNotNumber
    ensures r.Ok? ==>
      Split(r.value, SEP) == ["", VERSION_TAG, IntToString(CostOf(rounds)), Hex(entropy)]
    ensures r.Ok? ==>
      && |Split(r.value, SEP)[3]| == 2 * SALT_LENGTH
      && IsLowerHexString(Split(r.value, SEP)[3])
  {
    if rounds.Undefined? || rounds.Num? then
      var cost := IntToString(CostOf(rounds));
      var salt := "$" + VERSION_TAG + "$" + cost + "$" + Hex(entropy);
      SaltFields(cost, Hex(entropy));
      Ok(salt)
    else
      Err(RoundsNotNumber)
  }

  /** The field layout of a salt string whose cost and random part contain
      no separator. */
  lemma SaltFields(cost: string, random: string)
    requires SEP !in cost && SEP !in random
    ensures Split("$" + VERSION_TAG + "$" + cost + "$" + random, SEP)
      == ["", VERSION_TAG, cost, random]
  {
    assert "$" + VERSION_TAG + "$" + cost + "$" + random
      == "" + [SEP] + VERSION_TAG + [SEP] + cost + [SEP] + random;
    SplitFour("", VERSION_TAG, cost, random, SEP);
  }

  /** `getRounds(hash)`: the cost field (field 2) read with
      `parseInt(_, 10)`; refused when the string has fewer than four fields,
      that is fewer than three separators. */
  function GetRounds(hash: string): (r: Result<Number, Error>)
    ensures r.Err? <==> Occurrences(hash, SEP) < 3
    ensures r.Err? ==> r.error == InvalidHashFormat
  {
    var parts := Split(hash, SEP);
    SplitLength(hash, SEP);
    if |parts| < 4 then Err(InvalidHashFormat) else Ok(ParseInt(parts[2]))
  }

  /** `getHashVersion(hash)`: field 1, or `null` when there is no such field
      or it is empty. Never fails. */
  function GetHashVersion(hash: string): (r: Option<string>)
    ensures r.Some? ==> r.value != "" && SEP !in r.value
    ensures Occurrences(hash, SEP) == 0 ==> r.None?
  {
    var parts := Split(hash, SEP);
    SplitLength(hash, SEP);
    if |parts| < 2 || parts[1] == "" then None else Some(parts[1])
  }

  /** `hashSync(password, salt)`: derive a 64-byte key from the password,
      the salt's random field (field 3) and `ITERATIONS` times the salt's
      cost, and append its hex form to the salt after a separator.
      The salt is a proper prefix of the result, and the result has the
      salt's fields followed by one more, the lower-case hex key, which
      decodes to the key derived from the password, the salt's random field
      and `ITERATIONS` times its cost. */
  function HashSync(password: string, salt: string, kdf: Pbkdf2): (r: Result<string, Error>)
    ensures password == "" || salt == "" ==> r == Err(MissingArgument)
    ensures password != "" && salt != "" && Occurrences(salt, SEP) < 3 ==>
      r == Err(InvalidHashFormat)
    ensures password != "" && salt != "" && GetRounds(salt).Ok? ==>
      && (r.Ok? || r == Err(DerivationFailed))
      && (r.Ok? <==>
          kdf(password, Split(salt, SEP)[3], Times(ITERATIONS, GetRounds(salt).value), KEY_LENGTH, DIGEST).Some?)
    ensures r.Ok? ==>
      && |salt| < |r.value|
      && r.value[..|salt|] == salt
      && r.value[|salt|] == SEP
    ensures r.Ok? ==>
      && Split(r.value, SEP) == Split(salt, SEP) + [r.value[|salt| + 1..]]
      && IsLowerHexString(r.value[|salt| + 1..])
    ensures r.Ok? ==>
      && GetRounds(salt).Ok?
      && FromHex(r.value[|salt| + 1..]) ==
         kdf(password, Split(salt, SEP)[3], Times(ITERATIONS, GetRounds(salt).value), KEY_LENGTH, DIGEST)
  {
    if password == "" || salt == "" then Err(MissingArgument)
    else
      match GetRounds(salt)
      case Err(e) => Err(e)
      case Ok(rounds) =>
        var saltVal := Split(salt, SEP)[3];
        match kdf(password, saltVal, Times(ITERATIONS, rounds), KEY_LENGTH, DIGEST)
        case None => Err(DerivationFailed)
        case Some(key) =>
          var hashed := salt + "$" + Hex(key);
          assert hashed[|salt| + 1..] == Hex(key);
          SplitAppendField(salt, SEP, Hex(key));
          FromHexOfHex(key);
          Ok(hashed)
  }

  /** The salt `compareSync` rebuilds from a stored hash:
      `hash.split('$').slice(0, 4).join('$')`. */
  function EmbeddedSalt(hash: string): (salt: string)
    ensures |Split(hash, SEP)| <= 4 ==> salt == hash
    ensures |Split(hash, SEP)| >= 4 ==> Split(salt, SEP) == Split(hash, SEP)[..4]
  {
    var parts := Split(hash, SEP);
    var kept := parts[..if |parts| < 4 then |parts| else 4];
    JoinSplit(hash, SEP);
    assert |parts| <= 4 ==> kept == parts;
    SplitJoin(kept, SEP);
    Join(kept, SEP)
  }

  /** `compareSync(password, hash)`: re-hash the password with the salt
      rebuilt from the stored hash and compare the two hash strings.
      It accepts only a five-field hash that `hashSync` reproduces from its
      own first four fields, and fails like `hashSync` on a hash with fewer
      than four fields. */
  function CompareSync(password: string, hash: string, kdf: Pbkdf2): (r: Result<bool, Error>)
    ensures Occurrences(hash, SEP) < 3 ==> r.Err?
    ensures r == Ok(true) ==> HashSync(password, EmbeddedSalt(hash), kdf) == Ok(hash)
    ensures r == Ok(true) ==> |Split(hash, SEP)| == 5
  {
    var salt := EmbeddedSalt(hash);
    SplitLength(hash, SEP);
    match HashSync(password, salt, kdf)
    case Err(e) => Err(e)
    case Ok(hashed) =>
      var equal := TimingSafeEqual(hashed, hash);
      assert equal ==> |Split(salt, SEP)| == 4;
      Ok(equal)
  }

  /** `timingSafeEqual(a, b)`: compare the UTF-8 bytes of the two strings,
      refusing at once when their byte lengths differ. It holds exactly when
      the strings are equal. */
  function TimingSafeEqual(a: string, b: string): (r: bool)
    ensures r <==> a == b
  {
    var bufA := Utf8(a);
    var bufB := Utf8(b);
    if |bufA| != |bufB| then false
    else
      (if bufA == bufB then Utf8Injective(a, b); true else false)
  }

  predicate IsUpperAscii(c: char) { 'A' <= c <= 'Z' }
  predicate IsLowerAscii(c: char) { 'a' <= c <= 'z' }

  /** Outside `[A-Za-z0-9]`. A character outside the Basic Multilingual
      Plane is two surrogate code units for a non-unicode regular
      expression, and both of them are outside the class too. */
  predicate IsSpecial(c: char) { !IsUpperAscii(c) && !IsLowerAscii(c) && !IsDigit(c) }

  /** `/[C]/.test(s)` for a one-character class `C`: some character of the
      string is in the class. */
  function TestClass(s: string, inClass: char -> bool): (r: bool)
    ensures r <==> exists i :: 0 <= i < |s| && inClass(s[i])
  {
    if s == [] then false
    else if inClass(s[0]) then true
    else
      var r := TestClass(s[1..], inClass);
      assert r ==> exists i :: 0 < i < |s| && inClass(s[i]) by {
        if r {
          var j :| 0 <= j < |s[1..]| && inClass(s[1..][j]);
          assert inClass(s[j + 1]);
        }
      }
      r
  }

  /** `checkPasswordStrength(password)`: false for a non-string; for a
      string, true exactly when it is at least 8 UTF-16 code units long and
      has an upper-case letter, a lower-case letter, a digit and a character
      outside `[A-Za-z0-9]`. */
  function CheckPasswordStrength(password: JsValue): (r: bool)
    ensures !password.Str? ==> !r
    ensures password.Str? ==> (r <==>
      var s := password.s;
      && Utf16Length(s) >= 8
      && (exists i :: 0 <= i < |s| && IsUpperAscii(s[i]))
      && (exists i :: 0 <= i < |s| && IsLowerAscii(s[i]))
      && (exists i :: 0 <= i < |s| && IsDigit(s[i]))
      && (exists i :: 0 <= i < |s| && IsSpecial(s[i])))
  {
    match password
    case Str(s) =>
      var length := Utf16Length(s) >= 8;
      var upper := TestClass(s, IsUpperAscii);
      var lower := TestClass(s, IsLowerAscii);
      var number := TestClass(s, IsDigit);
      var special := TestClass(s, IsSpecial);
      length && upper && lower && number && special
    case _ => false
  }
}
