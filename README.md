# GlobaLeaks browser crypto helpers and backend utilities, modelled in Dafny

This project models two parts of GlobaLeaks, a whistleblowing platform.

The first part is the browser-side crypto module
(`client/app/js/crypto/main.js`), which covers:

- the proof of work a client solves before it submits (`glbcProofOfWork`);
- key-code generation and the two armored-key validators (`gbcKeyLib`);
- batch loading of public keys (`gbcCipherLib.loadPublicKeys`);
- fingerprint formatting, user-id extraction and the form validator of the
  `pgpPubkeyDisplay` and `pgpPubkeyValidator` directives.

The second part is three utilities of the Python backend
(`globaleaks/utils.py`):

- `random_string` with its character-set parser `parse`;
- the receiver mail-address validator `acquire_mail_address`;
- the onion and http URL validator `acquire_url_address`.

## How the model is built

- **Outside effects are parameters.**
  - SHA-256 is any function from bytes to 32-byte digests.
  - The openpgp.js armor readers are functions from text to a completion.
    They either return `err` and `keys`, or they throw.
  - Random draws are an input sequence of the chosen indices.
- **JavaScript strings** are Dafny strings. A Dafny `char` is a Unicode
  scalar value, so a `char` equals one UTF-16 code unit only up to U+FFFF.
  The model describes only text without characters above U+FFFF.
- **Storing into a `Uint8Array`** keeps the char code modulo 256.
- **`String.prototype.trim`** removes the WhiteSpace and LineTerminator code
  points listed in the ECMAScript language specification (ECMA-262).
- **Number-to-string conversion** of a counter is its decimal digits.
- **Python 2 behaviour** is modelled for:
  - `str.split` with a one-character separator;
  - `str.lower` on ASCII;
  - `\w` without the UNICODE flag, meaning `[A-Za-z0-9_]`;
  - `$` at the end of a pattern, which also matches before one final newline.
- **The three regular expressions** are predicates over the text. The mail
  pattern also has a generative definition, and a lemma proves that the two
  descriptions agree. For the http pattern, a lemma shows that backtracking
  cannot change what `(\w+)\.` matches.
- **Loops become loops.** Where the source changes state step by step, the
  model does too:
  - `str2Uint8Array` fills an array;
  - `generate_keycode`, `niceFingerPrint`, `extractAllUids` and
    `loadPublicKeys` accumulate in loops;
  - the recursive `work(i + 1)` of `proofOfWork` is a counter loop;
  - `parse` has its nested loops.

  Each of these methods is proved against a specification function or
  states its result directly.

Where the code does not do what its own comments say, the model follows the
code:

- **`validPrivateKey` can throw.** Its comment at main.js:175 gives it the
  type `{ string -> bool }`. But it calls `openpgp.readArmored` without a
  `try`, so a throwing reader makes the validator throw as well
  (`KeyLib.ValidPrivateKey` returns a completion).
- **`validPrivateKey` does not check encryption.** Its comment at
  main.js:173-174 says it asserts that the key is passphrase protected. It
  never checks that the secret-key packets are encrypted
  (`KeyLib.UnencryptedPrivateKeyAccepted`).
- **`loadPublicKeys` reads a different text.** It validates each entry on its
  trimmed text but reads it again untrimmed. A reader that is sensitive to
  surrounding white space can therefore make a valid entry load `undefined`
  (`CipherLib.UntrimmedReadGap`). When the reader ignores the surrounding
  space, validation and loading agree
  (`CipherLib.LoadEntryWhenReaderIgnoresSpace`).
- **`loadPublicKeys` can throw `undefined`.** `throw res.err[0]` on an empty
  error array throws `undefined`.
- **Range items exclude their upper bound.** The docstring at
  utils.py:55-56 offers `"a-z,A-Z,0-9"` as an example description. But a
  range item `x-y` of `random_string` runs from `x` up to but excluding `y`.
  So `"a-z,A-Z,0-9"` gives 59 characters, without `z`, `Z` and `9`
  (`RandomFacilities.AlphanumericChoiceSet`).

## Model

| member | source | states |
|---|---|---|
| `ProofOfWork.Str2Uint8Array` | client/app/js/crypto/main.js:5-11 | a fresh array as long as the string whose k-th byte is the k-th char code modulo 256 |
| `ProofOfWork.Solve` | client/app/js/crypto/main.js:25-43 | the answer solves the challenge (byte 31 of SHA-256 of challenge + decimal counter is 0) and every smaller counter does not: the least solution |
| `ProofOfWork.SolutionUnique` | client/app/js/crypto/main.js:28-40 | the least solution is unique, so the search's answer is determined by the challenge and the hash |
| `ProofOfWork.CandidatesDistinct` | client/app/js/crypto/main.js:29 | distinct counters hash distinct byte strings, so no candidate is tried twice |
| `ProofOfWork.CharCodesAppend` | client/app/js/crypto/main.js:29 | the bytes of a concatenation are the concatenation of the bytes |
| `JsRuntime.Decimal` | client/app/js/crypto/main.js:29 | the string form of a counter is a non-empty run of decimal digits with no leading zero |
| `JsRuntime.DecimalRoundTrip` | client/app/js/crypto/main.js:29 | reading back the decimal form of n gives n |
| `JsRuntime.DecimalInjective` | client/app/js/crypto/main.js:29 | distinct counters have distinct string forms |
| `JsRuntime.DigitChar` | client/app/js/crypto/main.js:167 | a digit value converts to a character between '0' and '9' |
| `JsRuntime.ToUint8` | client/app/js/crypto/main.js:8 | storing a char code into a Uint8Array keeps it modulo 256 |
| `JsRuntime.Trim` | client/app/js/crypto/main.js:202 | trim drops the leading and then the trailing WhiteSpace and LineTerminator characters of ECMA-262 |
| `JsRuntime.TrimStartShape` | client/app/js/crypto/main.js:202 | the leading part removed by trim is all white space and what is left does not start with it |
| `JsRuntime.TrimEndShape` | client/app/js/crypto/main.js:202 | the trailing part removed by trim is all white space and what is left does not end with it |
| `JsRuntime.TrimShape` | client/app/js/crypto/main.js:202 | trim yields a slice of the text with only white space outside it, neither starting nor ending with white space |
| `JsRuntime.TrimStartFixed` | client/app/js/crypto/main.js:202 | text not starting with white space is left alone at the front |
| `JsRuntime.TrimEndFixed` | client/app/js/crypto/main.js:202 | text not ending with white space is left alone at the back |
| `JsRuntime.TrimIdempotent` | client/app/js/crypto/main.js:202 | trimming twice is trimming once |
| `JsRuntime.ToUpperCase` | client/app/js/crypto/main.js:349 | upper-casing keeps the length |
| `KeyLib.GenerateKeycode` | client/app/js/crypto/main.js:164-170 | exactly 16 characters, each a decimal digit, the k-th being the k-th random draw |
| `KeyLib.ValidPrivateKey` | client/app/js/crypto/main.js:176-192 | throws exactly when the input is a string and the reader throws, with the reader's exception; true exactly when the read gives no error and one key that is private and not public |
| `KeyLib.UnencryptedPrivateKeyAccepted` | client/app/js/crypto/main.js:185-191 | a single private key with unencrypted secret packets is accepted |
| `KeyLib.ValidPublicKey` | client/app/js/crypto/main.js:197-239 | true exactly when the input is a string whose trimmed text starts with "-----" and reads without throwing as no error and one key that is public and not private; false in every other case |
| `KeyLib.BlankTextNotPublicKey` | client/app/js/crypto/main.js:202-205 | white-space-only text, the empty string included, is never a public key |
| `KeyLib.ValidatorsExclusive` | client/app/js/crypto/main.js:176-239 | given the same read result, no text passes both the private-key and the public-key validator |
| `CipherLib.LoadEntry` | client/app/js/crypto/main.js:252-265 | one forEach step: an entry that fails validation throws "Attempted to load invalid public key"; the step pushes exactly when the entry validates and the untrimmed re-read neither throws nor reports an error, and then it pushes the first key (undefined when there is none); otherwise it throws the reader's exception or the first reported error |
| `CipherLib.LoadPublicKeys` | client/app/js/crypto/main.js:249-268 | returns normally exactly when every entry loads, then with one result per entry in order; otherwise throws what the first failing entry throws, all earlier entries having loaded |
| `CipherLib.LoadEntryWhenReaderIgnoresSpace` | client/app/js/crypto/main.js:252-265 | with a reader that ignores surrounding space, an entry loads exactly when it validates and yields the single public, non-private key |
| `CipherLib.UntrimmedReadGap` | client/app/js/crypto/main.js:254-263 | a text with leading space can validate and still load undefined, because loading reads the untrimmed text |
| `PgpDirectives.GroupedSnoc` | client/app/js/crypto/main.js:352-361 | appending a character to a grouping extends the last block, or opens a new one after every fourth character |
| `PgpDirectives.GroupedLength` | client/app/js/crypto/main.js:352-361 | grouping n characters adds one space per block boundary |
| `PgpDirectives.GroupedCharAt` | client/app/js/crypto/main.js:352-361 | the k-th character lands at position k + k/4 |
| `PgpDirectives.GroupedSpaceAt` | client/app/js/crypto/main.js:354-356 | every fifth position of a grouping is a space |
| `PgpDirectives.RemoveSpacesAppend` | client/app/js/crypto/main.js:352-361 | deleting spaces distributes over concatenation |
| `PgpDirectives.RemoveSpacesGrouped` | client/app/js/crypto/main.js:352-361 | grouping adds nothing but spaces |
| `PgpDirectives.RemoveSpacesNone` | client/app/js/crypto/main.js:352-361 | deleting spaces from space-free text changes nothing |
| `PgpDirectives.LayoutLength` | client/app/js/crypto/main.js:351-363 | the display form of a 40-character fingerprint has 50 characters |
| `PgpDirectives.LayoutCharAt` | client/app/js/crypto/main.js:351-363 | the k-th input character sits at its display position k + k/4, plus one from the twentieth on |
| `PgpDirectives.LayoutSpaceAt` | client/app/js/crypto/main.js:354-359 | every separator position of the display form holds a space |
| `PgpDirectives.LayoutRemoveSpaces` | client/app/js/crypto/main.js:351-363 | deleting the spaces of a space-free input's display form gives the input back |
| `PgpDirectives.LayoutFacts` | client/app/js/crypto/main.js:351-363 | the display form has 50 characters, every input character at its display position and a space at every separator position |
| `PgpDirectives.PartialLayoutStep` | client/app/js/crypto/main.js:352-361 | one loop turn appends a space when i is a multiple of 4, another when it is a multiple of 20, then the i-th character |
| `PgpDirectives.NiceFingerPrint` | client/app/js/crypto/main.js:343-364 | on a 40-character fingerprint: the upper-cased characters in order, one space before positions 4, 8, 12, 16, 24, 28, 32 and 36 and two before 20, length 50 |
| `PgpDirectives.ExtractAllUids` | client/app/js/crypto/main.js:367-373 | one user-id string per user of the key, in order |
| `PgpDirectives.PubKeyFormValidator` | client/app/js/crypto/main.js:403-423 | a non-string or empty value passes exactly when the attribute is "canBeEmpty"; a non-empty string passes exactly when it is a valid public key |
| `Text.CountAppend` | globaleaks/utils.py:232 | occurrences of a character add up over a concatenation |
| `Text.CountAbsent` | globaleaks/utils.py:232 | a character not in the text occurs zero times |
| `PyRuntime.Split` | globaleaks/utils.py:60-62 | str.split on one character: never an empty list |
| `PyRuntime.SplitPieces` | globaleaks/utils.py:60-62 | no piece holds the separator, and every piece's characters come from the text |
| `PyRuntime.SplitCons` | globaleaks/utils.py:60-62 | a leading separator opens a new empty piece; any other leading character opens the first piece |
| `PyRuntime.SplitJoin` | globaleaks/utils.py:60-62 | joining the pieces with the separator gives the text back |
| `PyRuntime.SplitCount` | globaleaks/utils.py:60-62 | there is one more piece than there are separators |
| `PyRuntime.SplitAbsent` | globaleaks/utils.py:62-67 | a text without the separator splits into itself |
| `PyRuntime.SplitAppend` | globaleaks/utils.py:60-61 | a separator between two texts separates their pieces |
| `PyRuntime.JoinChars` | globaleaks/utils.py:232 | every character of a join is the separator or a character of a part |
| `PyRuntime.JoinSplit` | globaleaks/utils.py:232 | splitting a join of separator-free parts gives the parts back |
| `PyRuntime.Lower` | globaleaks/utils.py:231 | str.lower of a byte string: every character lowered on its own, the length kept |
| `PyRuntime.LowerChar` | globaleaks/utils.py:231 | lower-casing leaves no upper-case letter, shifts A-Z by 32 and keeps every other character |
| `PyRuntime.LowerIdempotent` | globaleaks/utils.py:231 | lowering twice is lowering once and no upper-case letter survives |
| `RandomFacilities.CodeRange` | globaleaks/utils.py:64-65 | range(lo, hi) mapped through chr: max(0, hi - lo) characters, the k-th with code lo + k |
| `RandomFacilities.ItemChars` | globaleaks/utils.py:62-67 | one item split at '-': with more than one part, TypeError unless both endpoints are one character, else the codes from ord(x) up to but excluding ord(y); with one part, the item itself |
| `RandomFacilities.ChoiceSet` | globaleaks/utils.py:58-68 | parse: the items between commas, their characters concatenated in order, the first TypeError failing the whole |
| `RandomFacilities.SplitKeepsBytes` | globaleaks/utils.py:60 | the pieces of a byte string are byte strings |
| `RandomFacilities.ConcatItemsAppend` | globaleaks/utils.py:61-67 | the items' contributions concatenate, failing fast |
| `RandomFacilities.ConcatItemsFailurePersists` | globaleaks/utils.py:61-64 | once an item raises, the whole parse raises the same error |
| `RandomFacilities.Parse` | globaleaks/utils.py:58-68 | the nested loops build the item-by-item choice set, and an endpoint that is not one character raises TypeError |
| `RandomFacilities.ChoiceSetAppend` | globaleaks/utils.py:60-68 | the choice set of "a,b" is the choice set of a followed by that of b |
| `RandomFacilities.ChoiceSetSingleItem` | globaleaks/utils.py:60-68 | a description without a comma is a single item |
| `RandomFacilities.PlainRangeItem` | globaleaks/utils.py:62-65 | x-y with byte ends contributes the codes from ord(x) up to but excluding ord(y) |
| `RandomFacilities.ThreeRanges` | globaleaks/utils.py:58-68 | three comma-separated range items expand to their three ranges, in order |
| `RandomFacilities.ChoiceSetThreeItems` | globaleaks/utils.py:60-68 | a three-item description combines its items in order |
| `RandomFacilities.PlainItem` | globaleaks/utils.py:66-67 | an item without '-' contributes itself verbatim |
| `RandomFacilities.RangeItem` | globaleaks/utils.py:62-65 | an item x-y contributes max(0, ord(y) - ord(x)) characters from x up to but excluding y, whatever follows a second '-' |
| `RandomFacilities.LowerCaseRangeExcludesZ` | globaleaks/utils.py:64-65 | "a-z" yields 25 characters ending in 'y' and no 'z' |
| `RandomFacilities.ReversedRangeEmpty` | globaleaks/utils.py:64-65 | a reversed range such as "z-a" contributes nothing |
| `RandomFacilities.CodeRangeMember` | globaleaks/utils.py:64-65 | every character of a range has a code in [lo, hi) |
| `RandomFacilities.AlphanumericRanges` | globaleaks/utils.py:55-68 | "a-z,A-Z,0-9" expands to the three ranges in order |
| `RandomFacilities.AlphanumericChoiceSet` | globaleaks/utils.py:55-68 | "a-z,A-Z,0-9" yields 59 word characters, none of them 'z', 'Z' or '9' |
| `RandomFacilities.RandomString` | globaleaks/utils.py:70-73 | succeeds exactly when the parse succeeds and the set is non-empty or nothing is drawn; fails with the parse's error or IndexError; otherwise exactly max(0, length) characters, each the drawn member of the choice set |
| `AddressValidation.MailShape` | globaleaks/utils.py:232 | the mail pattern against the whole text: exactly one '@'; before it, dot-separated non-empty labels of [A-Za-z0-9_-]; after it, at least two such labels, the last being two to four letters a-z |
| `AddressValidation.MailMatches` | globaleaks/utils.py:232 | the mail pattern with Python's `$`: the whole text, or the text without one final newline, has the mail shape |
| `AddressValidation.LabelsJoinChars` | globaleaks/utils.py:232 | dot-joined labels hold only label characters and dots |
| `AddressValidation.LabelsJoinSplit` | globaleaks/utils.py:232 | splitting dot-joined labels at the dots gives the labels back |
| `AddressValidation.MailShapeBuilt` | globaleaks/utils.py:232 | every text of the mail shape is generated by the pattern |
| `AddressValidation.LabelHalvesSplit` | globaleaks/utils.py:232 | dot-joined labels on either side of one '@' split back into the two halves |
| `AddressValidation.BuiltMailShape` | globaleaks/utils.py:232 | every text the pattern generates has the mail shape |
| `AddressValidation.MailShapeIffBuilt` | globaleaks/utils.py:232 | the split-based reading of the mail pattern accepts exactly the texts the pattern generates |
| `AddressValidation.AcquireMailAddress` | globaleaks/utils.py:217-236 | rejected without notification_fields or mail_address; otherwise accepted exactly when the lower-cased address matches the pattern, with that lower-cased address |
| `AddressValidation.AcceptedAddressShape` | globaleaks/utils.py:231-236 | an accepted address holds exactly one '@' and no upper-case letter |
| `AddressValidation.AcquireMailAddressIdempotent` | globaleaks/utils.py:231-236 | feeding an accepted address back in accepts it unchanged |
| `AddressValidation.MailTrailingNewline` | globaleaks/utils.py:232 | a matching address followed by one newline is accepted, newline kept |
| `AddressValidation.SimpleAddressMatches` | globaleaks/utils.py:232 | label@label.tld matches the pattern |
| `AddressValidation.MailFolded` | globaleaks/utils.py:231-236 | "Jo@Ex.org" is accepted as "jo@ex.org" |
| `AddressValidation.MailShortTopLevelRejected` | globaleaks/utils.py:232-234 | an address whose top-level part has one letter is rejected |
| `AddressValidation.OnionShape` | globaleaks/utils.py:243 | exactly 22 characters: 16 of [0-9a-z], then ".onion" |
| `AddressValidation.OnionMatches` | globaleaks/utils.py:243 | the onion pattern with Python's `$`: the text, or the text without one final newline, has the onion shape |
| `AddressValidation.HostRest` | globaleaks/utils.py:246 | after the scheme: a non-empty greedy run of [A-Za-z0-9_], a dot, then no newline except possibly a final one |
| `AddressValidation.HttpMatches` | globaleaks/utils.py:246 | the text starts with "http://" or "https://" and the host part after that scheme is accepted |
| `AddressValidation.WordRunShape` | globaleaks/utils.py:246 | the greedy word run is a prefix of word characters followed by a non-word character or the end |
| `AddressValidation.WordRunExact` | globaleaks/utils.py:246 | a word run ended by a non-word character is the greedy run |
| `AddressValidation.HostRestIffSomeRun` | globaleaks/utils.py:246 | the greedy reading of `(\w+)\.(.*)$` agrees with the backtracking one: some word run, a dot, and the rest of the line |
| `AddressValidation.AcquireUrlAddress` | globaleaks/utils.py:239-249 | false with both flags off; accepted exactly when hidden services are allowed and the text is an onion name, or http is allowed and it is an http(s) URL |
| `AddressValidation.OnionAndHttpDisjoint` | globaleaks/utils.py:243-246 | no text is both an onion name and an http URL |
| `AddressValidation.OnionTrailingNewline` | globaleaks/utils.py:243 | an onion name followed by one newline is accepted |
| `AddressValidation.OnionExample` | globaleaks/utils.py:239-249 | a 16-character onion name passes with hidden services allowed and fails with only http allowed |
| `AddressValidation.HttpsExample` | globaleaks/utils.py:239-249 | an https URL passes with http allowed and fails with only hidden services allowed |
| `AddressValidation.EmptyHostRejected` | globaleaks/utils.py:246 | "http://.org" is rejected whatever the flags |

## Left out

- The scrypt wrappers `scrypt`, `derive_authentication`, `derive_passphrase`
  and `derive_user_password` are not modelled
  (client/app/js/crypto/main.js:66-140). They are Web Worker plumbing and
  promise joins around an external key-derivation function. Only the cost
  constants 13 and 14 are kept, as `KeyLib.PassphraseCost` and
  `KeyLib.AuthenticationCost`.
- `generate_e2e_key`, `encryptArray` and `decryptArray` are not modelled.
  They are thin wrappers over openpgp.js key generation and encryption, which
  is not part of this model.
- `getWebCrypto` is not modelled, because it probes the browser environment.
  The SHA-256 algorithm is a parameter of the model.
- The openpgp.js parsers are parameters. Only the shape of their results is
  modelled: `err`, the keys, `isPrivate()`, `isPublic()` and the users.
- `pgpKeyDetails`, the directive definition objects, `$watch` and
  `templateUrl` are not modelled, because they are user-interface code and
  date handling.
- PgpDirectives.NiceFingerPrint: requires a 40-character fingerprint. The
  guard at main.js:344 joins its two tests with `&&`, so other inputs are not
  cleanly defined.
- Case mapping, and therefore `toUpperCase` and `str.lower`, is modelled for
  ASCII only.
- ProofOfWork.Str2Uint8Array: models only text without characters above
  U+FFFF. JavaScript stores such a character as two surrogate code units,
  which give two bytes. A Dafny `char` is one scalar value, so the model
  gives one byte. Surrogate code units on their own cannot be written as
  Dafny characters at all.
- ProofOfWork.CharCodes: the same restriction to text up to U+FFFF.
- JsRuntime.Trim: the same restriction to text up to U+FFFF.
- JsRuntime.ToUpperCase: the same restriction to text up to U+FFFF.
- JavaScript's number-to-string conversion is modelled as plain decimal
  digits. The exponent form used from 10^21 up, and the loss of precision
  above 2^53, are not modelled.
- The `console.log(err)` of `validPublicKey` on a throwing read
  (main.js:212) is not modelled. It logs the error and changes no result.
- `loadPublicKeys` assigns its read result to an undeclared global `res`
  (main.js:258). The model treats it as a local. The global leak is not
  modelled, and the result is the same.
- The `digest` promise of `proofOfWork` has no rejection handler
  (main.js:30). A rejected digest therefore leaves the returned promise
  pending for ever. The model's hash is a total function, so this case is
  not modelled.
- ProofOfWork.Solve: the source searches forever when no counter solves the
  challenge. The model requires a ghost witness that some counter works, and
  it runs the asynchronous hash callback as a synchronous step.
- In `globaleaks/utils.py` the following are not modelled: `Publisher`
  logging, `sendmail` and `MailException` (SMTP and network), and
  `get_file_checksum` (file I/O). The clock-based date helpers are left out
  too.
- RandomFacilities.RandomString: the character-set description must be a
  byte string, and unicode descriptions are not modelled. The PyCrypto random
  source is the input sequence of drawn indices.
- AddressValidation.AcquireMailAddress: `notification_fields` is modelled as
  a dictionary of strings. A non-dictionary value, a non-string address and
  `str()`'s encoding errors are not modelled. The debug log line is left out.
