/**
 * `gbcKeyLib`: key-code generation and the two armored-key validators.
 * The OpenPGP armor readers are parameters; the model sees only the shape
 * of what they return (or that they throw).
 */
module KeyLib {
  import opened JsRuntime
  import opened Text

  /** scrypt cost exponents: `N` for the passphrase, `M = N + 1` for the authentication secret. */
  const PassphraseCost: nat := 13
  const AuthenticationCost: nat := PassphraseCost + 1

  /** Number of digits in a whistleblower key code. */
  const KeycodeLength: nat := 16

  /** The armor header marker a public key text must start with. */
  const ArmorMarker: string := "-----"

  datatype UserId = UserId(userid: string)
  datatype User = User(userId: UserId)

  /**
   * A parsed openpgp.js key: its `isPrivate()` and `isPublic()` answers, whether its
   * secret-key packets are encrypted, and its users.
   */
  datatype Key = Key(isPrivate: bool, isPublic: bool, secretEncrypted: bool, users: seq<User>)

  /** What `readArmored` returns: `err` (absent is `None`) and `keys`. */
  datatype ReadResult = ReadResult(err: Option<seq<Exception>>, keys: seq<Key>)

  /** An armor reader: `openpgp.readArmored` or `openpgp.key.readArmored`. */
  type Reader = string -> Completion<ReadResult>

  /**
   * The validity invariant of an armored key text of a given role: the read
   * reported no error, found exactly one key, and that key's private and public
   * flags are those of the role.
   */
  predicate HasRole(res: ReadResult, isPrivateRole: bool) {
    && res.err.None?
    && |res.keys| == 1
    && res.keys[0].isPrivate == isPrivateRole
    && res.keys[0].isPublic == !isPrivateRole
  }

  /**
   * `generate_keycode`: sixteen calls of `getSecureRandom(0, 9)`, each number
   * appended to the string. `draws` are those calls' results in order.
   */
  method GenerateKeycode(draws: seq<int>) returns (keycode: string)
    requires |draws| == KeycodeLength
    requires forall k :: 0 <= k < |draws| ==> 0 <= draws[k] <= 9
    ensures |keycode| == KeycodeLength
    ensures forall k :: 0 <= k < |keycode| ==> '0' <= keycode[k] <= '9'
    ensures forall k :: 0 <= k < |keycode| ==> keycode[k] as int - '0' as int == draws[k]
  {
    keycode := "";
    for i := 0 to KeycodeLength
      invariant |keycode| == i
      invariant forall k :: 0 <= k < i ==> '0' <= keycode[k] <= '9'
      invariant forall k :: 0 <= k < i ==> keycode[k] as int - '0' as int == draws[k]
    {
      keycode := keycode + Decimal(draws[i]);
    }
  }

  /**
   * `validPrivateKey`. `openpgp.readArmored` is called without a try, so a
   * throwing read makes the validator throw too. No check that the secret
   * packets are encrypted is made.
   */
  function ValidPrivateKey(textInput: Value, readArmored: Reader): (r: Completion<bool>)
    ensures r.Abrupt? <==> textInput.Str? && readArmored(textInput.s).Abrupt?
    ensures r.Abrupt? ==> r.thrown == readArmored(textInput.s).thrown
    ensures r == Normal(true) <==>
              textInput.Str? && readArmored(textInput.s).Normal? && HasRole(readArmored(textInput.s).value, true)
  {
    if !textInput.Str? then Normal(false)
    else
      match readArmored(textInput.s)
      case Abrupt(e) => Abrupt(e)
      case Normal(result) =>
        if result.err.Some? || |result.keys| != 1 then Normal(false)
        else
          var key := result.keys[0];
          if !key.isPrivate || key.isPublic then Normal(false)
          else Normal(true)
  }

  /**
   * `validPublicKey`: the input must be a string whose trimmed text starts with
   * the armor marker and reads, without throwing, as exactly one public key.
   * A throwing read is caught and counts as invalid.
   */
  function ValidPublicKey(textInput: Value, keyReadArmored: Reader): (r: bool)
    ensures r <==>
              && textInput.Str?
              && StartsWith(Trim(textInput.s), ArmorMarker)
              && keyReadArmored(Trim(textInput.s)).Normal?
              && HasRole(keyReadArmored(Trim(textInput.s)).value, false)
  {
    if !textInput.Str? then false
    else
      var s := Trim(textInput.s);
      if !StartsWith(s, ArmorMarker) then false
      else
        match keyReadArmored(s)
        case Abrupt(_) => false
        case Normal(result) =>
          if result.err.Some? then false
          else if |result.keys| != 1 then false
          else
            var key := result.keys[0];
            if key.isPrivate || !key.isPublic then false
            else true
  }

  /** Text made only of white space (the empty string included) is never a public key. */
  lemma {:induction false} BlankTextNotPublicKey(s: string, keyReadArmored: Reader)
    requires forall k :: 0 <= k < |s| ==> IsTrimmable(s[k])
    ensures !ValidPublicKey(Str(s), keyReadArmored)
  {
    TrimStartShape(s);
    assert TrimStart(s) == [];
  }

  /**
   * When both validators see the same read result, no text passes both: a
   * private key is never accepted as public and vice versa.
   */
  lemma ValidatorsExclusive(s: string, readArmored: Reader, keyReadArmored: Reader)
    requires readArmored(s) == keyReadArmored(Trim(s))
    ensures !(ValidPublicKey(Str(s), keyReadArmored) && ValidPrivateKey(Str(s), readArmored) == Normal(true))
  {
  }

  /** The private-key validator accepts a single private key whose secret packets are not encrypted. */
  lemma UnencryptedPrivateKeyAccepted(s: string, readArmored: Reader, users: seq<User>)
    requires readArmored(s) == Normal(ReadResult(None, [Key(true, false, false, users)]))
    ensures ValidPrivateKey(Str(s), readArmored) == Normal(true)
  {
  }
}
