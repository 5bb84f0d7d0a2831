# mwcrypt, modelled in Dafny

mwcrypt is a small Node.js password-hashing library (`src/index.js`). A
password hash is one string of '$'-separated fields:

```
$2b$<rounds>$<32 hex digits of random salt>$<128 hex digits of derived key>
```

`genSaltSync` builds the first four fields. `hashSync` derives a 64-byte key
with PBKDF2 over HMAC-SHA-512 (section 5.2 of RFC 8018). It runs
`100000 × rounds` iterations, with the salt's random field as the PBKDF2
salt, and appends the key in hex. `compareSync` rebuilds the salt from the
first four fields of a stored hash, re-hashes the candidate password and
compares the two strings with `timingSafeEqual`. `getRounds` and
`getHashVersion` read fields 2 and 1 back. `checkPasswordStrength` is a
separate character-class heuristic.

The model is pure Dafny functions and lemmas, like the source: every
function there is a single expression over strings.

- `Wrappers`: `Option` (JavaScript `null`) and `Result` (a thrown error).
- `JsStrings`: `split` and `join` with a one-character separator, with
  JavaScript's semantics (`"".split('$')` is `[""]`, and a leading '$' gives
  an empty first field). Their round trips are proved here.
- `JsNumbers`: the rendering of an integer in a template literal and
  `parseInt(s, 10)` (leading white space, sign, longest digit run, `NaN`).
- `Encodings`: `Buffer.toString('hex')` with its decoder, `Buffer.from(s)`
  (UTF-8) and `String.length` (UTF-16 code units).
- `MwCrypt`: the library's constants and functions.
- `MwCryptProperties`: the properties that relate several of them.

Two inputs from the environment are parameters. The 16 bytes of
`crypto.randomBytes` are `entropy`. `crypto.pbkdf2Sync` is `kdf`, an
arbitrary function that returns `None` where the call would throw. Nothing
is assumed about `kdf` except where a lemma says so in its `requires`:
`KeepsLength` (keys have the requested length) and `SeparatesPasswords`
(no two passwords give the same key; this stands in for collision
resistance). Every function is deterministic by construction, so
`hashSync` returns the same string for the same password and salt.

Two behaviours of the code are easy to miss:

- A cost field that is not a number does not make `getRounds` fail. It
  returns `NaN`, and `hashSync` passes `NaN` iterations on to `pbkdf2Sync`.
- A cost of zero or below is not refused by the library either. Only the
  key derivation may refuse it.

## Model

| member | source | states |
|---|---|---|
| `JsStrings.Split` | src/index.js:65 | `split('$')` gives at least one field, and no field contains the separator |
| `JsStrings.SplitLength` | src/index.js:65-66 | `split('$')` gives exactly one more field than there are separators, the count `getRounds` tests |
| `JsStrings.SplitAround` | src/index.js:32 | splitting `s + '$' + t` gives the fields of `s` followed by the fields of `t` |
| `JsStrings.SplitAppendField` | src/index.js:32 | appending '$' and a separator-free tail adds exactly one field and keeps the others |
| `JsStrings.SplitWithoutSeparator` | src/index.js:65 | a string without '$' is a single field |
| `JsStrings.Join` | src/index.js:50 | `join('$')` of `n` fields is at least `n - 1` characters long; where the separators go is stated by `JoinAppend` and `JoinOccurrences` |
| `JsStrings.JoinOccurrences` | src/index.js:50 | `join('$')` of `n` separator-free fields holds exactly `n - 1` separators |
| `JsStrings.JoinSplit` | src/index.js:50 | `s.split('$').join('$')` is `s` |
| `JsStrings.SplitFour` | src/index.js:13 | four fields without '$' joined by '$' split back into exactly those four fields |
| `JsStrings.SplitJoin` | src/index.js:50 | splitting a join of separator-free fields gives back the fields |
| `JsStrings.JoinAppend` | src/index.js:50 | joining two non-empty field lists puts one '$' between their joins |
| `JsNumbers.NatToDecimal` | src/index.js:13 | the numeral of a natural number is a non-empty digit string without a leading zero |
| `JsNumbers.IntToString` | src/index.js:13 | `${rounds}` of a safe integer: a minus sign exactly for a negative value, then decimal digits |
| `JsNumbers.TrimStart` | src/index.js:67 | `parseInt` skips exactly the leading JavaScript white space |
| `JsNumbers.DigitPrefix` | src/index.js:67 | `parseInt` reads the longest run of decimal digits |
| `JsNumbers.ParseInt` | src/index.js:67 | `parseInt(_, 10)` is `NaN` on a string without a decimal digit, and a non-negative integer on a string that starts with a digit |
| `JsNumbers.ParseSigned` | src/index.js:67 | after the white space: `NaN` without a digit, non-negative when a digit comes first, negative only after a leading '-' |
| `JsNumbers.DecimalValueOfNatToDecimal` | src/index.js:67 | reading back a numeral gives its number |
| `JsNumbers.ParseIntOfDigits` | src/index.js:67 | `parseInt` of a decimal digit string reads all of it |
| `JsNumbers.ParseIntOfIntToString` | src/index.js:67 | `parseInt` of a rendered integer (negative ones included) is that integer |
| `Encodings.Hex` | src/index.js:12 | hex output has two lower-case hex digits per byte |
| `Encodings.FromHex` | src/index.js:31 | reference inverse of `.toString('hex')` (the source never decodes; `HashSync`'s contract uses it to name the key in the appended field): succeeds exactly on even-length lower-case hex strings and halves the length |
| `Encodings.FromHexOfHex` | src/index.js:31 | decoding the hex of a key gives back the key |
| `Encodings.HexInjective` | src/index.js:31 | distinct keys have distinct hex forms |
| `Encodings.Utf8` | src/index.js:71-72 | `Buffer.from(s)` has at least one byte per character, and is empty exactly for the empty string |
| `Encodings.Utf8CharDecodes` | src/index.js:71-72 | the lead byte of a character's UTF-8 form gives its length, and the character can be read back from those bytes |
| `Encodings.Utf8Injective` | src/index.js:71-72 | distinct strings have distinct `Buffer.from` bytes |
| `Encodings.Utf16Length` | src/index.js:79 | `length` counts UTF-16 code units: between `|s|` and `2|s|`, and `|s|` when every character is in the Basic Multilingual Plane |
| `MwCrypt.CostOf` | src/index.js:10 | the definition of the default parameter, one clause per case: an absent `rounds` is 10, a Number is kept |
| `MwCrypt.GenSaltSync` | src/index.js:10-14 | fails exactly when `rounds` is neither absent nor a Number; otherwise splits into exactly `["", "2b", rounds (default 10), hex]`, the hex part 32 lower-case digits |
| `MwCrypt.SaltFields` | src/index.js:13 | the template `$2b$<cost>$<hex>` has exactly the four fields empty, tag, cost and hex |
| `MwCrypt.GetRounds` | src/index.js:64-68 | fails with 'Invalid hash format' exactly when the string has fewer than three '$' |
| `MwCrypt.GetHashVersion` | src/index.js:87-90 | never fails; a result is a non-empty field without '$'; a string without '$' gives `null` |
| `MwCrypt.Times` | src/index.js:31 | the definition of `ITERATIONS * rounds` on the model's Numbers, one clause per case: a multiple of an integer is that integer times `ITERATIONS`, a multiple of `NaN` is `NaN` |
| `MwCrypt.HashSync` | src/index.js:27-33 | empty password or salt: 'Password and salt required'; fewer than four fields: 'Invalid hash format'; otherwise it succeeds exactly when `pbkdf2Sync` does, and the salt is a proper prefix of the result, the result has the salt's fields plus one lower-case hex field, and that field decodes to `pbkdf2Sync(password, field 3, 100000 × rounds, 64, 'sha512')` |
| `MwCrypt.EmbeddedSalt` | src/index.js:49-50 | the rebuilt salt is the hash itself when it has at most four fields, and otherwise has exactly its first four fields |
| `MwCrypt.CompareSync` | src/index.js:48-53 | fails on fewer than four fields; true only for a five-field hash that `hashSync` reproduces from its rebuilt salt |
| `MwCrypt.TimingSafeEqual` | src/index.js:70-75 | true exactly when the two strings are equal (so false when byte lengths differ, reflexive and symmetric) |
| `MwCrypt.TestClass` | src/index.js:80-83 | a one-class regular expression test holds exactly when some character is in the class |
| `MwCrypt.CheckPasswordStrength` | src/index.js:77-85 | false for a non-string; for a string, true exactly when it has at least 8 UTF-16 code units, an upper-case letter, a lower-case letter, a digit and a character outside `[A-Za-z0-9]` |
| `MwCryptProperties.GetRoundsOfGenSaltSync` | src/index.js:64-67 | `getRounds(genSaltSync(r))` is `r` for every safe integer `r` (magnitude at most 2^53 - 1), negative ones included, and 10 for the default |
| `MwCryptProperties.GetRoundsOfJoin` | src/index.js:64-68 | `getRounds` of any join of at least four separator-free fields is `parseInt` of field 2 |
| `MwCryptProperties.GetRoundsOfHash` | src/index.js:27-33 | `getRounds` of a hash is `getRounds` of the salt it was made with |
| `MwCryptProperties.GetHashVersionOfGenSaltSync` | src/index.js:87-90 | `getHashVersion(genSaltSync(r))` is "2b" |
| `MwCryptProperties.GetHashVersionOfJoin` | src/index.js:87-90 | `getHashVersion` of joined separator-free fields is field 1, or `null` when that field is empty |
| `MwCryptProperties.AccessorsOnPlainString` | src/index.js:64-68 | a string without '$' (e.g. "notahash" or "") has no version and makes `getRounds` fail |
| `MwCryptProperties.HashOfGeneratedSalt` | src/index.js:27-33 | a hash of a generated salt has five fields: the salt's four and 128 lower-case hex digits |
| `MwCryptProperties.HashKeyField` | src/index.js:31-32 | when the key derivation returns 64-byte keys, `hashSync` appends exactly one field, 128 lower-case hex digits |
| `MwCryptProperties.HashSyncOfGeneratedSalt` | src/index.js:29-31 | on a generated salt and non-empty password, `hashSync` succeeds exactly when `pbkdf2Sync(password, hex, 100000 × rounds, 64, 'sha512')` does |
| `MwCryptProperties.EmbeddedSaltOfHash` | src/index.js:49-50 | the salt rebuilt from a hash of a four-field salt is that salt |
| `MwCryptProperties.CompareSyncDecides` | src/index.js:48-53 | for a four-field salt and a key field without '$', `compareSync` is true exactly when `hashSync` reproduces the stored string, and fails when `hashSync` fails |
| `MwCryptProperties.CompareSyncAcceptsExactly` | src/index.js:48-53 | for every stored string, `compareSync` is true exactly when `hashSync` reproduces it from its rebuilt salt |
| `MwCryptProperties.CompareSyncAcceptsHash` | src/index.js:48-53 | `compareSync(p, hashSync(p, s))` is true for every four-field salt that `hashSync` accepts |
| `MwCryptProperties.GenerateHashCompare` | test/mwcrypt.test.js:3-8 | generate a salt, hash a password with it, and `compareSync` accepts the password |
| `MwCryptProperties.CompareSyncRejectsTamperedKey` | src/index.js:48-53 | any other key field without '$' makes `compareSync` false for the right password |
| `MwCryptProperties.CompareSyncRejectsLongSalt` | src/index.js:32 | a salt with more than four fields is appended whole, so `compareSync` never accepts its hash, even for the right password |
| `MwCryptProperties.CompareSyncAcceptsOnlyHashedPassword` | test/mwcrypt.test.js:9 | if the key derivation separates passwords, `compareSync` accepts a hash only for the password it was made from |
| `MwCryptProperties.CompareSyncRejectsShortHash` | src/index.js:48-53 | a stored string with fewer than four fields makes `compareSync` fail |
| `MwCryptProperties.TimingSafeEqualProperties` | src/index.js:70-75 | `timingSafeEqual` is reflexive and symmetric, and false when byte lengths differ |
| `MwCryptProperties.CheckPasswordStrengthExamples` | src/index.js:77-85 | "short1!" and "alllowercase1!" are weak, "Aa1!aaaa" is strong, the number 12345678 is not a password |

## Left out

- The callback forms `genSalt`, `hash` and `compare` (src/index.js:16-25, 35-46, 55-62) are not modelled. They hand the same work to the thread pool. `compare` also calls its string parameter `hash` as a function (src/index.js:58), so it would throw a TypeError rather than behave like `compareSync`.
- `crypto.randomBytes` is the `entropy` parameter. That two salts differ is a property of the random source and cannot be stated here.
- `crypto.pbkdf2Sync` is the `kdf` parameter. SHA-512, HMAC and PBKDF2 are not modelled, and neither are Node.js's own argument checks. Rejecting a wrong password is proved only for a `kdf` that `SeparatesPasswords`.
- The timing behaviour of `crypto.timingSafeEqual` cannot be expressed; only its boolean result is modelled.
- GetRounds: returns the exact integer. JavaScript's `parseInt` rounds digit strings above 2^53 to the nearest double and returns -0 for "-0".
- GenSaltSync: a Number argument is a safe integer, of magnitude at most 2^53 - 1, where `${rounds}` gives its exact digits. Other Numbers are not modelled. They render differently in the template literal: "1.5", "NaN", "Infinity", the shortest round-trip digits padded with zeros above 2^53 (`${2**64}` is "18446744073709552000"), and "1e+21" from 10^21 on.
- Strings are sequences of Unicode scalar values. A JavaScript string with a lone surrogate cannot be represented. `Buffer.from` would turn it into U+FFFD, so two such strings could compare equal under `timingSafeEqual`.
- HashSync, CompareSync, GetRounds, GetHashVersion: password, salt and hash are strings. Non-string arguments are not modelled: `null` or `0` are falsy, and a value without a `split` method makes `getRounds`, `getHashVersion` and `compareSync` throw a TypeError.
