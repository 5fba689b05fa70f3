/**
 * The client-side proof of work (`glbcProofOfWork`): find the smallest
 * counter whose SHA-256 digest of `challenge + counter` ends in a zero byte.
 * SHA-256 itself is a parameter: any function from bytes to 32-byte digests.
 */
module ProofOfWork {
  import opened JsRuntime

  /** A SHA-256 digest: 32 bytes. */
  type Digest = d: seq<byte> | |d| == 32 witness seq(32, k => 0)

  /** The bytes `str2Uint8Array` produces: each char code truncated to 8 bits. */
  function CharCodes(s: string): seq<byte> {
    seq(|s|, k requires 0 <= k < |s| => ToUint8(s[k]))
  }

  /** `str2Uint8Array`: a fresh `Uint8Array` filled one char code at a time. */
  method Str2Uint8Array(str: string) returns (result: array<byte>)
    ensures fresh(result)
    ensures result.Length == |str|
    ensures forall k :: 0 <= k < |str| ==> result[k] == ToUint8(str[k])
    ensures result[..] == CharCodes(str)
  {
    result := new byte[|str|];
    for i := 0 to |str|
      invariant forall k :: 0 <= k < i ==> result[k] == ToUint8(str[k])
    {
      result[i] := ToUint8(str[i]);
    }
  }

  /** The bytes hashed for counter `i`. */
  function Candidate(challenge: string, i: nat): seq<byte> {
    CharCodes(challenge + Decimal(i))
  }

  /** Counter `i` answers the challenge: byte 31 of its digest is 0. */
  predicate Solves(challenge: string, sha256: seq<byte> -> Digest, i: nat) {
    sha256(Candidate(challenge, i))[31] == 0
  }

  /**
   * `proofOfWork`: tries 0, 1, 2, ... in order and answers with the first
   * counter that solves the challenge. The source's search never stops when
   * no counter works; `bound` is a ghost witness that one does.
   */
  method Solve(challenge: string, sha256: seq<byte> -> Digest, ghost bound: nat) returns (i: nat)
    requires Solves(challenge, sha256, bound)
    ensures Solves(challenge, sha256, i)
    ensures forall j :: 0 <= j < i ==> !Solves(challenge, sha256, j)
  {
    i := 0;
    while true
      invariant i <= bound
      invariant forall j :: 0 <= j < i ==> !Solves(challenge, sha256, j)
      decreases bound - i
    {
      var hashme := Str2Uint8Array(challenge + Decimal(i));
      var hash := sha256(hashme[..]);
      if hash[31] == 0 {
        return;
      }
      i := i + 1;
    }
  }

  /** The answer the search must produce does not depend on anything but the challenge and the hash. */
  lemma SolutionUnique(challenge: string, sha256: seq<byte> -> Digest, i: nat, i': nat)
    requires Solves(challenge, sha256, i) && forall j :: 0 <= j < i ==> !Solves(challenge, sha256, j)
    requires Solves(challenge, sha256, i') && forall j :: 0 <= j < i' ==> !Solves(challenge, sha256, j)
    ensures i == i'
  {
  }

  lemma CharCodesAppend(a: string, b: string)
    ensures CharCodes(a + b) == CharCodes(a) + CharCodes(b)
  {
  }

  /** Each counter hashes a different byte string, so no candidate is tried twice. */
  lemma CandidatesDistinct(challenge: string, i: nat, j: nat)
    requires i != j
    ensures Candidate(challenge, i) != Candidate(challenge, j)
  {
    var di, dj := Decimal(i), Decimal(j);
    CharCodesAppend(challenge, di);
    CharCodesAppend(challenge, dj);
    if Candidate(challenge, i) == Candidate(challenge, j) {
      var ci, cj := CharCodes(di), CharCodes(dj);
      assert ci == Candidate(challenge, i)[|challenge|..];
      assert cj == Candidate(challenge, j)[|challenge|..];
      assert |di| == |dj|;
      forall k | 0 <= k < |di| ensures di[k] == dj[k] {
        assert ci[k] == ToUint8(di[k]) && cj[k] == ToUint8(dj[k]);
      }
      assert di == dj;
      DecimalInjective(i, j);
    }
  }
}
