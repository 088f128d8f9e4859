/**
 * PKCS #7 padding as defined in section 6.3 of RFC 5652: a message of length
 * `l` is extended by `k - (l mod k)` octets, each holding that same count.
 * The crate's `pkcs7_pad` (which pads its vector in place) is not part of this
 * model; this module gives it exactly that contract.
 */
module Pkcs7 {

  function Pkcs7Pad(s: seq<bv8>, k: nat): (r: seq<bv8>)
    requires 0 < k < 256
    ensures |s| < |r| <= |s| + k && |r| % k == 0
    ensures r[..|s|] == s
    ensures forall i | |s| <= i < |r| :: r[i] == (|r| - |s|) as bv8
  {
    var n := k - |s| % k;
    PadLengthAligned(|s|, k);
    s + seq(n, _ => n as bv8)
  }

  /** The padded length is the smallest multiple of `k` strictly above `|s|`. */
  lemma PadIsNextMultiple(s: seq<bv8>, k: nat, m: nat)
    requires 0 < k < 256
    requires m % k == 0 && m > |s|
    ensures |Pkcs7Pad(s, k)| <= m
  {
    var q := |s| / k;
    var p := m / k;
    assert |s| == q * k + |s| % k;
    assert m == p * k;
    assert (q + 1) * k == q * k + k;
    assert p <= q ==> p * k <= q * k;
    assert p >= q + 1 ==> p * k >= (q + 1) * k;
  }

  lemma PadLengthAligned(l: nat, k: nat)
    requires 0 < k
    ensures (l + (k - l % k)) % k == 0
  {
    var q := l / k;
    assert l == q * k + l % k;
    assert (q + 1) * k == q * k + k;
    DivModUnique(l + (k - l % k), k, q + 1, 0);
  }

  /** Division with remainder is unique: the quotient and remainder of `a` by `k` are `q` and `r`. */
  lemma DivModUnique(a: int, k: int, q: int, r: int)
    requires k > 0 && 0 <= r < k && a == q * k + r
    ensures a / k == q && a % k == r
  {
    var d := q - a / k;
    assert a == a / k * k + a % k;
    assert d * k == a % k - r;
    assert d >= 1 ==> d * k >= k;
    assert d <= -1 ==> d * k <= -k;
  }
}
