/**
 * Python `bytes` values as sequences of octets, and the `bytes.strip()` call
 * that both request handlers apply to what they receive.
 */
module Bytes {

  newtype byte = b: int | 0 <= b < 256

  /** The ASCII whitespace octets that `bytes.strip()` removes: tab, LF, VT, FF, CR and space. */
  predicate IsSpace(b: byte) {
    b == 32 || 9 <= b <= 13
  }

  /** Every octet of `s` from index lo up to (not including) hi is whitespace. */
  predicate AllSpace(s: seq<byte>, lo: int, hi: int) {
    forall k :: lo <= k < hi && 0 <= k < |s| ==> IsSpace(s[k])
  }

  /** `bytes.lstrip()`: drops the leading whitespace octets. */
  function StripLeft(s: seq<byte>): (r: seq<byte>)
    ensures |r| <= |s| && r == s[|s| - |r|..]
    ensures forall k :: 0 <= k < |s| - |r| ==> IsSpace(s[k])
    ensures r == [] || !IsSpace(r[0])
  {
    if |s| > 0 && IsSpace(s[0]) then StripLeft(s[1..]) else s
  }

  /** `bytes.rstrip()`: drops the trailing whitespace octets. */
  function StripRight(s: seq<byte>): (r: seq<byte>)
    ensures |r| <= |s| && r == s[..|r|]
    ensures forall k :: |r| <= k < |s| ==> IsSpace(s[k])
    ensures r == [] || !IsSpace(r[|r| - 1])
  {
    if |s| > 0 && IsSpace(s[|s| - 1]) then StripRight(s[..|s| - 1]) else s
  }

  /** `bytes.strip()`: drops whitespace octets at both ends. */
  function Strip(s: seq<byte>): (r: seq<byte>)
    ensures |r| <= |s|
    ensures r == [] || (!IsSpace(r[0]) && !IsSpace(r[|r| - 1]))
  {
    StripRight(StripLeft(s))
  }

  /**
   * What `strip` keeps is one contiguous slice of its input, and everything
   * it drops on either side is whitespace.
   */
  lemma StripSlice(s: seq<byte>)
    ensures exists i, j :: 0 <= i <= j <= |s| && Strip(s) == s[i..j]
                           && AllSpace(s, 0, i) && AllSpace(s, j, |s|)
  {
    var l := StripLeft(s);
    var r := StripRight(l);
    var i := |s| - |l|;
    assert r == s[i..i + |r|];
    assert forall k :: i + |r| <= k < |s| ==> s[k] == l[k - i];
  }

  /** Stripping leaves a buffer alone exactly when neither end is whitespace. */
  lemma {:induction false} StripUnchangedIff(s: seq<byte>)
    ensures Strip(s) == s <==> (s == [] || (!IsSpace(s[0]) && !IsSpace(s[|s| - 1])))
  {
    if s == [] {
      assert Strip(s) == s;
    } else if !IsSpace(s[0]) && !IsSpace(s[|s| - 1]) {
      assert StripLeft(s) == s;
      assert Strip(s) == s;
    } else {
      StripShortens(s);
      assert Strip(s) != s;
    }
  }

  /** A leading or trailing whitespace octet is always removed. */
  lemma {:induction false} StripShortens(s: seq<byte>)
    requires s != [] && (IsSpace(s[0]) || IsSpace(s[|s| - 1]))
    ensures |Strip(s)| < |s|
  {
    var l := StripLeft(s);
    if IsSpace(s[0]) {
      assert |l| < |s|;
    } else {
      assert l == s;
      assert |StripRight(l)| < |l|;
    }
  }
}
