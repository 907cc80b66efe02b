/**
  Trimming of task text, as `String.prototype.trim` does it: leading and
  trailing white space and line terminators are removed, nothing else.
 */
module Text {

  /** The characters `trim` strips: ECMAScript's WhiteSpace (TAB, VT, FF, SP,
      NBSP, ZWNBSP and the Unicode Zs category) and LineTerminator (LF, CR,
      LS, PS) productions. */
  function IsWs(c: char): (b: bool)
    // within ASCII: exactly TAB, LF, VT, FF, CR and space
    ensures c < '\U{80}' ==> (b <==> c == ' ' || '\U{9}' <= c <= '\U{D}')
    // nothing beyond the Basic Multilingual Plane
    ensures b ==> c <= '\U{FFFF}'
  {
    || c == '\U{9}' || c == '\U{B}' || c == '\U{C}' || c == ' '
    || c == '\U{A0}' || c == '\U{FEFF}' || c == '\U{1680}'
    || ('\U{2000}' <= c <= '\U{200A}')
    || c == '\U{202F}' || c == '\U{205F}' || c == '\U{3000}'
    || c == '\U{A}' || c == '\U{D}' || c == '\U{2028}' || c == '\U{2029}'
  }

  /** Every character of `s` is white space (vacuously true of ""). */
  predicate AllWs(s: string) {
    WsBetween(s, 0, |s|)
  }

  /** Every character of `s` at a position in `[lo, hi)` is white space. */
  predicate WsBetween(s: string, lo: int, hi: int)
    requires 0 <= lo && hi <= |s|
  {
    forall k :: lo <= k < hi ==> IsWs(s[k])
  }

  /** `s` is already trimmed: it neither starts nor ends with white space. */
  predicate Trimmed(s: string) {
    s == [] || (!IsWs(s[0]) && !IsWs(s[|s| - 1]))
  }

  /** `s.trim()`: strip white space from the front, then from the back. */
  function Trim(s: string): (r: string)
    ensures Trimmed(r)
    ensures r == [] <==> AllWs(s)
    decreases |s|
  {
    if |s| > 0 && IsWs(s[0]) then
      var r := Trim(s[1..]);
      assert AllWs(s[1..]) ==> AllWs(s) by {
        if AllWs(s[1..]) {
          forall k | 0 < k < |s| ensures IsWs(s[k]) {
            assert s[k] == s[1..][k - 1];
          }
        }
      }
      r
    else if |s| > 0 && IsWs(s[|s| - 1]) then
      // here s[0] is not white space, so neither `s` nor `s[..|s| - 1]` is all white space
      assert s[0] == s[..|s| - 1][0] || |s| == 1;
      Trim(s[..|s| - 1])
    else
      s
  }

  /** Independent characterisation of `Trim`: any slice `s[i..j]` that is
      itself trimmed and is surrounded only by white space is the trim of `s`. */
  lemma {:induction false} TrimIsCore(s: string, i: nat, j: nat)
    requires i <= j <= |s|
    requires WsBetween(s, 0, i) && WsBetween(s, j, |s|)
    requires Trimmed(s[i..j])
    ensures Trim(s) == s[i..j]
    decreases |s|
  {
    if i == j {
      assert AllWs(s);
    } else if i > 0 {
      var t := s[1..];
      assert t[i - 1..j - 1] == s[i..j];
      assert WsBetween(t, 0, i - 1) by {
        forall k | 0 <= k < i - 1 ensures IsWs(t[k]) {
          assert t[k] == s[k + 1];
        }
      }
      assert WsBetween(t, j - 1, |t|) by {
        forall k | j - 1 <= k < |t| ensures IsWs(t[k]) {
          assert t[k] == s[k + 1];
        }
      }
      TrimIsCore(t, i - 1, j - 1);
    } else {
      assert s[0] == s[i..j][0];
      if j < |s| {
        var t := s[..|s| - 1];
        assert t[i..j] == s[i..j];
        assert WsBetween(t, j, |t|) by {
          forall k | j <= k < |t| ensures IsWs(t[k]) {
            assert t[k] == s[k];
          }
        }
        TrimIsCore(t, i, j);
      } else {
        assert s[|s| - 1] == s[i..j][j - i - 1];
        assert s[i..j] == s;
      }
    }
  }

  /** Trimming twice is trimming once. */
  lemma TrimIdempotent(s: string)
    ensures Trim(Trim(s)) == Trim(s)
  {
    TrimmedIsFixed(Trim(s));
  }

  /** A trimmed string is its own trim. */
  lemma TrimmedIsFixed(s: string)
    requires Trimmed(s)
    ensures Trim(s) == s
  {
    assert s[0..|s|] == s;
    TrimIsCore(s, 0, |s|);
  }
}
