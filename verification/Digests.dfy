/** SHA-256 seen from outside: some function whose hex output has the right shape. */
module Digests {
  predicate IsHexChar(c: char) {
    '0' <= c <= '9' || 'a' <= c <= 'f'
  }

  predicate IsHex64(s: string) {
    |s| == 64 && forall c :: c in s ==> IsHexChar(c)
  }

  function Zeros(n: nat): (s: string)
    ensures |s| == n && forall c :: c in s ==> c == '0'
  {
    if n == 0 then "" else "0" + Zeros(n - 1)
  }

  /** The 64 zeros a fresh lease names as its previous receipt. */
  const GENESIS: string := Zeros(64)

  /** hex.EncodeToString(sha256.Sum256(text)), as an unknown function. */
  type Sha = string -> string

  /** Its output is 64 hex characters. Results that need this, or need SHA-256 not to collide on
      the texts they hash, ask for it. */
  ghost predicate HexOutput(sha: Sha) {
    forall s: string :: IsHex64(sha(s))
  }

  /** No two of the given texts share a hash. */
  ghost predicate CollisionFree(sha: Sha, texts: set<string>) {
    forall x, y :: x in texts && y in texts && sha(x) == sha(y) ==> x == y
  }

  lemma CollisionFreeSubset(sha: Sha, few: set<string>, many: set<string>)
    requires CollisionFree(sha, many) && few <= many
    ensures CollisionFree(sha, few)
  {
  }

  /** ComputeDigest and ComputeStringDigest. */
  function ComputeDigest(sha: Sha, text: string): string {
    "sha256:" + sha(text)
  }

  predicate IsDigest(s: string) {
    |s| == 71 && s[..7] == "sha256:" && IsHex64(s[7..])
  }

  lemma DigestShape(sha: Sha, text: string)
    ensures ComputeDigest(sha, text)[..7] == "sha256:" && ComputeDigest(sha, text)[7..] == sha(text)
    ensures HexOutput(sha) ==> IsDigest(ComputeDigest(sha, text))
  {
    assert ComputeDigest(sha, text)[..7] == "sha256:";
    assert ComputeDigest(sha, text)[7..] == sha(text);
  }

  /** Equal digests of texts among which SHA-256 does not collide come from the same text. */
  lemma DigestInjective(sha: Sha, texts: set<string>, x: string, y: string)
    requires CollisionFree(sha, texts) && x in texts && y in texts
    requires ComputeDigest(sha, x) == ComputeDigest(sha, y)
    ensures x == y
  {
    DigestShape(sha, x);
    DigestShape(sha, y);
  }
}
