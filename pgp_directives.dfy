/**
 * The pure helpers behind the `pgpPubkeyDisplay` and `pgpPubkeyValidator`
 * directives: fingerprint formatting, user-id extraction and the form
 * validator closure.
 */
module PgpDirectives {
  import opened JsRuntime
  import opened KeyLib

  /** Characters of a V4 fingerprint in hexadecimal (160 bits, section 12.2 of RFC 4880). */
  const FingerprintLength: nat := 40

  /** Blocks of four characters separated by one space. */
  function Grouped(h: string): string
    decreases |h|
  {
    if |h| <= 4 then h else h[..4] + " " + Grouped(h[4..])
  }

  /** The display form: two halves of five blocks each, separated by two spaces. */
  function Layout(u: string): string
    requires |u| == FingerprintLength
  {
    Grouped(u[..20]) + "  " + Grouped(u[20..])
  }

  /** Where the `k`-th fingerprint character lands in the display form. */
  function DisplayPos(k: nat): nat {
    k + k / 4 + (if k >= 20 then 1 else 0)
  }

  /** The positions of the display form that hold a separating space. */
  predicate IsSeparatorPos(p: nat) {
    p == 25 || (p < 25 && p % 5 == 4) || (p > 25 && (p - 26) % 5 == 4)
  }

  /** All spaces of `s` deleted. */
  function RemoveSpaces(s: string): string
    decreases |s|
  {
    if s == [] then [] else (if s[0] == ' ' then [] else [s[0]]) + RemoveSpaces(s[1..])
  }

  /** Appending one character either extends the last block or opens a new one. */
  lemma {:induction false} GroupedSnoc(h: string, c: char)
    ensures Grouped(h + [c]) == if |h| > 0 && |h| % 4 == 0 then Grouped(h) + " " + [c] else Grouped(h) + [c]
    decreases |h|
  {
    if |h| > 4 {
      assert (h + [c])[..4] == h[..4];
      assert (h + [c])[4..] == h[4..] + [c];
      GroupedSnoc(h[4..], c);
    }
  }

  lemma {:induction false} GroupedLength(h: string)
    requires |h| > 0
    ensures |Grouped(h)| == |h| + (|h| - 1) / 4
    decreases |h|
  {
    if |h| > 4 {
      GroupedLength(h[4..]);
    }
  }

  /** The `k`-th character of `h` lands at position `k + k / 4` of its grouping. */
  lemma {:induction false} GroupedCharAt(h: string, k: nat)
    requires k < |h|
    ensures k + k / 4 < |Grouped(h)| && Grouped(h)[k + k / 4] == h[k]
    decreases |h|
  {
    if |h| > 4 && k >= 4 {
      var t := h[4..];
      GroupedCharAt(t, k - 4);
      assert (k - 4) + (k - 4) / 4 + 5 == k + k / 4;
      assert Grouped(h)[k + k / 4] == Grouped(t)[(k - 4) + (k - 4) / 4];
    }
  }

  /** Every fifth position of a grouping holds a space. */
  lemma {:induction false} GroupedSpaceAt(h: string, p: nat)
    requires p < |Grouped(h)| && p % 5 == 4
    ensures Grouped(h)[p] == ' '
    decreases |h|
  {
    if p > 4 {
      GroupedSpaceAt(h[4..], p - 5);
    }
  }

  lemma {:induction false} RemoveSpacesAppend(a: string, b: string)
    ensures RemoveSpaces(a + b) == RemoveSpaces(a) + RemoveSpaces(b)
    decreases |a|
  {
    if a == [] {
      assert a + b == b;
    } else {
      assert (a + b)[1..] == a[1..] + b;
      RemoveSpacesAppend(a[1..], b);
    }
  }

  /** Grouping adds nothing but spaces. */
  lemma {:induction false} RemoveSpacesGrouped(h: string)
    ensures RemoveSpaces(Grouped(h)) == RemoveSpaces(h)
    decreases |h|
  {
    if |h| > 4 {
      RemoveSpacesAppend(h[..4] + " ", Grouped(h[4..]));
      RemoveSpacesAppend(h[..4], " ");
      RemoveSpacesGrouped(h[4..]);
      RemoveSpacesAppend(h[..4], h[4..]);
      assert h[..4] + h[4..] == h;
    }
  }

  lemma {:induction false} RemoveSpacesNone(s: string)
    requires ' ' !in s
    ensures RemoveSpaces(s) == s
    decreases |s|
  {
    if s != [] {
      assert ' ' !in s[1..];
      RemoveSpacesNone(s[1..]);
    }
  }

  /** The display form has 50 characters. */
  lemma LayoutLength(u: string)
    requires |u| == FingerprintLength
    ensures |Layout(u)| == 50
  {
    GroupedLength(u[..20]);
    GroupedLength(u[20..]);
  }

  /** The `k`-th input character sits at `DisplayPos(k)` of the display form. */
  lemma LayoutCharAt(u: string, k: nat)
    requires |u| == FingerprintLength && k < FingerprintLength
    ensures DisplayPos(k) < |Layout(u)| && Layout(u)[DisplayPos(k)] == u[k]
  {
    var a, b := u[..20], u[20..];
    LayoutLength(u);
    GroupedLength(a);
    if k >= 20 {
      GroupedCharAt(b, k - 20);
      assert DisplayPos(k) == 26 + (k - 20) + (k - 20) / 4;
      assert Layout(u)[DisplayPos(k)] == Grouped(b)[(k - 20) + (k - 20) / 4];
    } else {
      GroupedCharAt(a, k);
    }
  }

  /** Every separator position of the display form holds a space. */
  lemma LayoutSpaceAt(u: string, p: nat)
    requires |u| == FingerprintLength && p < 50 && IsSeparatorPos(p)
    ensures p < |Layout(u)| && Layout(u)[p] == ' '
  {
    var a, b := u[..20], u[20..];
    LayoutLength(u);
    GroupedLength(a);
    if p > 25 {
      GroupedSpaceAt(b, p - 26);
      assert Layout(u)[p] == Grouped(b)[p - 26];
    } else if p < 24 {
      GroupedSpaceAt(a, p);
    }
  }

  /** Deleting the spaces of a space-free input's display form gives the input back. */
  lemma LayoutRemoveSpaces(u: string)
    requires |u| == FingerprintLength && ' ' !in u
    ensures RemoveSpaces(Layout(u)) == u
  {
    var a, b := u[..20], u[20..];
    var ga, gb := Grouped(a), Grouped(b);
    RemoveSpacesAppend(ga + "  ", gb);
    RemoveSpacesAppend(ga, "  ");
    assert RemoveSpaces("  ") == [] by {
      assert "  "[1..] == " " && " "[1..] == [];
    }
    RemoveSpacesGrouped(a);
    RemoveSpacesGrouped(b);
    assert ' ' !in a && ' ' !in b;
    RemoveSpacesNone(a);
    RemoveSpacesNone(b);
    assert RemoveSpaces(ga + "  ") == a;
    assert a + b == u;
  }

  /** The display form of the first `i` characters, as the loop of `niceFingerPrint` has built it. */
  function PartialLayout(u: string, i: nat): string
    requires |u| == FingerprintLength && i <= |u|
  {
    if i <= 20 then Grouped(u[..i]) else Grouped(u[..20]) + "  " + Grouped(u[20..i])
  }

  /**
   * One turn of the loop: a space when `i` is a multiple of 4, another when it
   * is a multiple of 20, then the `i`-th character.
   */
  lemma PartialLayoutStep(u: string, i: nat)
    requires |u| == FingerprintLength && 1 <= i < FingerprintLength
    ensures PartialLayout(u, i + 1) ==
              PartialLayout(u, i) + (if i % 4 == 0 then " " else "") + (if i % 20 == 0 then " " else "") + [u[i]]
  {
    var c := u[i];
    var quad: string := if i % 4 == 0 then " " else "";
    var twenty: string := if i % 20 == 0 then " " else "";
    if i < 20 {
      assert i % 20 != 0;
      var h := u[..i];
      assert u[..i + 1] == h + [c];
      GroupedSnoc(h, c);
      assert PartialLayout(u, i + 1) == Grouped(h) + quad + [c];
    } else if i == 20 {
      assert u[20..21] == [c];
      assert PartialLayout(u, i + 1) == Grouped(u[..20]) + "  " + [c];
      assert quad + twenty == "  ";
    } else {
      assert i % 20 != 0 && (i - 20) % 4 == i % 4;
      var h := u[20..i];
      assert u[20..i + 1] == h + [c];
      GroupedSnoc(h, c);
      assert Grouped(h + [c]) == Grouped(h) + quad + [c];
    }
  }

  /**
   * `niceFingerPrint` on a 40-character fingerprint: uppercase it, then copy
   * the characters in order, with a space before every fourth one and an
   * extra space before the twentieth.
   */
  method NiceFingerPrint(fingerprint: string) returns (nice: string)
    requires |fingerprint| == FingerprintLength
    ensures nice == Layout(ToUpperCase(fingerprint))
    ensures |nice| == 50
    ensures forall k :: 0 <= k < FingerprintLength ==> nice[DisplayPos(k)] == UpperChar(fingerprint[k])
    ensures forall p :: 0 <= p < 50 && IsSeparatorPos(p) ==> nice[p] == ' '
  {
    var upper := ToUpperCase(fingerprint);
    nice := [upper[0]];
    assert upper[..1] == [upper[0]];
    var i := 1;
    while i < FingerprintLength
      invariant 1 <= i <= FingerprintLength
      invariant nice == PartialLayout(upper, i)
    {
      PartialLayoutStep(upper, i);
      if i % 4 == 0 {
        nice := nice + " ";
      }
      if i % 20 == 0 {
        nice := nice + " ";
      }
      nice := nice + [upper[i]];
      i := i + 1;
    }
    assert upper[20..FingerprintLength] == upper[20..];
    LayoutFacts(upper);
  }

  /** The position facts `NiceFingerPrint` promises, for any input's display form. */
  lemma LayoutFacts(u: string)
    requires |u| == FingerprintLength
    ensures |Layout(u)| == 50
    ensures forall k :: 0 <= k < FingerprintLength ==> Layout(u)[DisplayPos(k)] == u[k]
    ensures forall p :: 0 <= p < 50 && IsSeparatorPos(p) ==> Layout(u)[p] == ' '
  {
    LayoutLength(u);
    forall k | 0 <= k < FingerprintLength ensures Layout(u)[DisplayPos(k)] == u[k] {
      LayoutCharAt(u, k);
    }
    forall p | 0 <= p < 50 && IsSeparatorPos(p) ensures Layout(u)[p] == ' ' {
      LayoutSpaceAt(u, p);
    }
  }

  /** `extractAllUids`: the user-id string of every user of the key, in order. */
  method ExtractAllUids(key: Key) returns (uids: seq<string>)
    ensures |uids| == |key.users|
    ensures forall k :: 0 <= k < |uids| ==> uids[k] == key.users[k].userId.userid
  {
    uids := [];
    for i := 0 to |key.users|
      invariant |uids| == i
      invariant forall k :: 0 <= k < i ==> uids[k] == key.users[k].userId.userid
    {
      uids := uids + [key.users[i].userId.userid];
    }
  }

  /** The directive's keyword that lets an empty text area pass. */
  const CanBeEmptyKeyword: string := "canBeEmpty"

  /**
   * The `pgpPubKeyValidator` closure for a directive whose attribute is
   * `attribute`: a non-string model value counts as the empty string; the
   * empty string passes when the attribute is the `canBeEmpty` keyword;
   * everything else must be a valid public key.
   */
  function PubKeyFormValidator(attribute: Value, modelVal: Value, keyReadArmored: Reader): (valid: bool)
    ensures attribute == Str(CanBeEmptyKeyword) && (modelVal.NonStr? || modelVal == Str("")) ==> valid
    ensures attribute != Str(CanBeEmptyKeyword) && (modelVal.NonStr? || modelVal == Str("")) ==> !valid
    ensures modelVal.Str? && modelVal.s != "" ==> valid == ValidPublicKey(modelVal, keyReadArmored)
  {
    var canBeEmpty := attribute == Str(CanBeEmptyKeyword);
    var text := if modelVal.Str? then modelVal.s else "";
    if canBeEmpty && text == "" then true
    else
      BlankTextNotPublicKey("", keyReadArmored);
      ValidPublicKey(Str(text), keyReadArmored)
  }
}
