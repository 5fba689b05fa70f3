/**
 * `gbcCipherLib.loadPublicKeys`: validate and load a batch of armored public
 * keys, failing on the first bad entry.
 */
module CipherLib {
  import opened JsRuntime
  import opened KeyLib

  const InvalidKeyMessage: string := "Attempted to load invalid public key"

  /** `throw res.err[0]`: the first error, or `undefined` when the array is empty. */
  function FirstError(errs: seq<Exception>): Exception {
    if errs == [] then Undefined else errs[0]
  }

  /** `res.keys[0]`: the first key, or `undefined` when there is none. */
  function FirstKey(keys: seq<Key>): Option<Key> {
    if keys == [] then None else Some(keys[0])
  }

  /**
   * One turn of the `forEach` callback of `loadPublicKeys`: validate the
   * entry, then read the (untrimmed) entry again and push its first key, or
   * throw. A `throw` is an `Abrupt` completion, a `push` a `Normal` one
   * carrying the pushed key.
   */
  function LoadEntry(keyStr: Value, keyReadArmored: Reader): (step: Completion<Option<Key>>)
    ensures !ValidPublicKey(keyStr, keyReadArmored) ==> step == Abrupt(Error(InvalidKeyMessage))
    ensures step.Normal? <==>
              && ValidPublicKey(keyStr, keyReadArmored)
              && keyReadArmored(keyStr.s).Normal?
              && keyReadArmored(keyStr.s).value.err.None?
    ensures step.Normal? ==> step.value == FirstKey(keyReadArmored(keyStr.s).value.keys)
    ensures step.Abrupt? && ValidPublicKey(keyStr, keyReadArmored) ==>
              if keyReadArmored(keyStr.s).Abrupt? then step.thrown == keyReadArmored(keyStr.s).thrown
              else step.thrown == FirstError(keyReadArmored(keyStr.s).value.err.value)
  {
    if !ValidPublicKey(keyStr, keyReadArmored) then Abrupt(Error(InvalidKeyMessage))
    else
      match keyReadArmored(keyStr.s)
      case Abrupt(e) => Abrupt(e)
      case Normal(res) =>
        if res.err.Some? then Abrupt(FirstError(res.err.value)) else Normal(FirstKey(res.keys))
  }

  /**
   * `loadPublicKeys`: either every entry loads, and the result holds the
   * entries' keys one to one and in order, or the call throws what the first
   * failing entry throws and returns nothing.
   */
  method LoadPublicKeys(armoredKeys: seq<Value>, keyReadArmored: Reader) returns (r: Completion<seq<Option<Key>>>)
    ensures r.Normal? <==> forall k :: 0 <= k < |armoredKeys| ==> LoadEntry(armoredKeys[k], keyReadArmored).Normal?
    ensures r.Normal? ==> |r.value| == |armoredKeys|
    ensures r.Normal? ==> forall k :: 0 <= k < |armoredKeys| ==> r.value[k] == LoadEntry(armoredKeys[k], keyReadArmored).value
    ensures r.Abrupt? ==> exists f :: 0 <= f < |armoredKeys|
                                   && (forall k :: 0 <= k < f ==> LoadEntry(armoredKeys[k], keyReadArmored).Normal?)
                                   && LoadEntry(armoredKeys[f], keyReadArmored) == Abrupt(r.thrown)
  {
    var pgpPubKeys: seq<Option<Key>> := [];
    for i := 0 to |armoredKeys|
      invariant |pgpPubKeys| == i
      invariant forall k :: 0 <= k < i ==> LoadEntry(armoredKeys[k], keyReadArmored).Normal?
      invariant forall k :: 0 <= k < i ==> pgpPubKeys[k] == LoadEntry(armoredKeys[k], keyReadArmored).value
    {
      var keyStr := armoredKeys[i];
      if !ValidPublicKey(keyStr, keyReadArmored) {
        return Abrupt(Error(InvalidKeyMessage));
      }
      var res := keyReadArmored(keyStr.s);
      if res.Abrupt? {
        return Abrupt(res.thrown);
      }
      if res.value.err.Some? {
        return Abrupt(FirstError(res.value.err.value));
      }
      pgpPubKeys := pgpPubKeys + [FirstKey(res.value.keys)];
    }
    return Normal(pgpPubKeys);
  }

  /**
   * When the reader gives the same answer for the text and its trim, an entry
   * loads exactly when it validates, and what it loads is the one public,
   * non-private key the validator saw.
   */
  lemma LoadEntryWhenReaderIgnoresSpace(s: string, keyReadArmored: Reader)
    requires keyReadArmored(s) == keyReadArmored(Trim(s))
    ensures LoadEntry(Str(s), keyReadArmored).Normal? <==> ValidPublicKey(Str(s), keyReadArmored)
    ensures LoadEntry(Str(s), keyReadArmored).Normal? ==>
              && LoadEntry(Str(s), keyReadArmored).value.Some?
              && LoadEntry(Str(s), keyReadArmored).value.value == keyReadArmored(Trim(s)).value.keys[0]
              && LoadEntry(Str(s), keyReadArmored).value.value.isPublic
              && !LoadEntry(Str(s), keyReadArmored).value.value.isPrivate
  {
  }

  /**
   * Validation reads the trimmed text but loading reads the untrimmed text:
   * with a reader that is sensitive to surrounding space, an entry can pass
   * validation and still load `undefined`.
   */
  lemma UntrimmedReadGap()
    ensures var text := " -----";
            var reader: Reader := s => if s == ArmorMarker then Normal(ReadResult(None, [Key(false, true, false, [])]))
                                       else Normal(ReadResult(None, []));
            ValidPublicKey(Str(text), reader) && LoadEntry(Str(text), reader) == Normal(None)
  {
    var text := " -----";
    assert TrimStart(text) == TrimStart(text[1..]);
    assert text[1..] == ArmorMarker;
    assert Trim(text) == ArmorMarker;
  }
}
