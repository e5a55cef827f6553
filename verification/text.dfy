/**
 The whitespace trimming that both OTP handlers apply to their form fields
 before doing anything else: Python's `str.strip()` with no argument, which
 removes every leading and trailing character for which `str.isspace()` holds.
 */
module Text {

  /** The characters Python's `str.isspace()` accepts: the ASCII controls
      TAB, LF, VT, FF, CR, the four information separators U+001C..U+001F,
      SPACE, NEL, NO-BREAK SPACE, and the Unicode space separators and
      line/paragraph separators. */
  predicate IsSpace(c: char) {
    || ('\t' <= c <= '\r')
    || ('\U{1C}' <= c <= '\U{1F}')
    || c == ' '
    || c == '\U{85}'
    || c == '\U{A0}'
    || c == '\U{1680}'
    || ('\U{2000}' <= c <= '\U{200A}')
    || c == '\U{2028}'
    || c == '\U{2029}'
    || c == '\U{202F}'
    || c == '\U{205F}'
    || c == '\U{3000}'
  }

  /** Every character of `s` is whitespace (vacuously so for the empty string). */
  predicate AllSpace(s: string) {
    forall i :: 0 <= i < |s| ==> IsSpace(s[i])
  }

  /** `s` has no whitespace at either end: it is what `strip()` may return. */
  predicate IsStripped(s: string) {
    s == [] || (!IsSpace(s[0]) && !IsSpace(s[|s| - 1]))
  }

  /** Removes leading whitespace (`str.lstrip()`): the result is the longest
      suffix of `s` that does not start with whitespace. */
  function TrimStart(s: string): (r: string)
    ensures |r| <= |s| && r == s[|s| - |r|..]
    ensures AllSpace(s[..|s| - |r|])
    ensures r == [] || !IsSpace(r[0])
  {
    if s != [] && IsSpace(s[0]) then TrimStart(s[1..]) else s
  }

  /** Removes trailing whitespace (`str.rstrip()`): the result is the longest
      prefix of `s` that does not end with whitespace. */
  function TrimEnd(s: string): (r: string)
    ensures |r| <= |s| && r == s[..|r|]
    ensures AllSpace(s[|r|..])
    ensures r == [] || !IsSpace(r[|r| - 1])
  {
    if s != [] && IsSpace(s[|s| - 1]) then
      var r := TrimEnd(s[..|s| - 1]);
      assert s[|r|..] == s[..|s| - 1][|r|..] + [s[|s| - 1]];
      r
    else
      s
  }

  /** `str.strip()`: both ends trimmed. */
  function Strip(s: string): (r: string)
    ensures IsStripped(r)
    ensures |r| <= |s|
  {
    TrimEnd(TrimStart(s))
  }

  /** The characterisation of `strip()`: cutting `s` into whitespace, a
      stripped middle and whitespace, the middle is what `strip()` returns.
      Together with `StripSplits` this pins `Strip` down completely. */
  lemma {:induction false} StripOfPadded(a: string, t: string, b: string)
    requires AllSpace(a) && AllSpace(b) && IsStripped(t)
    ensures Strip(a + t + b) == t
  {
    var s := a + t + b;
    if t == [] {
      AllSpaceConcat(a, b);
      assert s == a + b;
      AllSpaceStripsToEmpty(s);
    } else {
      assert s == a + (t + b);
      TrimStartOfPadded(a, t + b);
      assert TrimStart(s) == t + b;
      TrimEndOfPadded(t, b);
      assert Strip(s) == TrimEnd(t + b);
    }
  }

  /** How many leading characters `strip()` drops from `s`. */
  function StripOffset(s: string): (lo: nat)
    ensures lo <= |s|
  {
    |s| - |TrimStart(s)|
  }

  /** `strip()` removes whitespace only: `s` is its result padded on each
      side by whitespace, the left padding being `StripOffset(s)` long. */
  lemma StripSplits(s: string)
    ensures StripOffset(s) + |Strip(s)| <= |s|
    ensures s[StripOffset(s)..StripOffset(s) + |Strip(s)|] == Strip(s)
    ensures AllSpace(s[..StripOffset(s)])
    ensures AllSpace(s[StripOffset(s) + |Strip(s)|..])
  {
    var u := TrimStart(s);
    var lo := |s| - |u|;
    var r := TrimEnd(u);
    assert s[lo..] == u;
    assert s[lo..lo + |r|] == u[..|r|];
    assert s[lo + |r|..] == u[|r|..];
  }

  /** The field counts as empty after trimming exactly when it held nothing
      but whitespace. */
  lemma StripEmptyIff(s: string)
    ensures Strip(s) == [] <==> AllSpace(s)
  {
    if AllSpace(s) {
      AllSpaceStripsToEmpty(s);
    }
  }

  /** Stripping twice is stripping once. */
  lemma StripIdempotent(s: string)
    ensures Strip(Strip(s)) == Strip(s)
  {
    StrippedIsFixed(Strip(s));
  }

  /** A string without whitespace at its ends is left alone. */
  lemma StrippedIsFixed(s: string)
    requires IsStripped(s)
    ensures Strip(s) == s
  {
    StripOfPadded([], s, []);
    assert [] + s + [] == s;
  }

  lemma {:induction false} AllSpaceStripsToEmpty(s: string)
    requires AllSpace(s)
    ensures TrimStart(s) == [] && Strip(s) == []
  {
    if s != [] {
      assert AllSpace(s[1..]) by {
        forall i | 0 <= i < |s[1..]| ensures IsSpace(s[1..][i]) {
          assert s[1..][i] == s[i + 1];
        }
      }
      AllSpaceStripsToEmpty(s[1..]);
    }
  }

  lemma AllSpaceConcat(a: string, b: string)
    requires AllSpace(a) && AllSpace(b)
    ensures AllSpace(a + b)
  {
    forall i | 0 <= i < |a + b| ensures IsSpace((a + b)[i]) {
      if i < |a| {
        assert (a + b)[i] == a[i];
      } else {
        assert (a + b)[i] == b[i - |a|];
      }
    }
  }

  lemma {:induction false} TrimStartOfPadded(a: string, u: string)
    requires AllSpace(a) && u != [] && !IsSpace(u[0])
    ensures TrimStart(a + u) == u
  {
    if a == [] {
      assert a + u == u;
    } else {
      assert (a + u)[1..] == a[1..] + u;
      assert AllSpace(a[1..]) by {
        forall i | 0 <= i < |a[1..]| ensures IsSpace(a[1..][i]) {
          assert a[1..][i] == a[i + 1];
        }
      }
      TrimStartOfPadded(a[1..], u);
    }
  }

  lemma {:induction false} TrimEndOfPadded(t: string, b: string)
    requires AllSpace(b) && t != [] && !IsSpace(t[|t| - 1])
    ensures TrimEnd(t + b) == t
  {
    if b == [] {
      assert t + b == t;
    } else {
      var s := t + b;
      assert s[|s| - 1] == b[|b| - 1];
      assert s[..|s| - 1] == t + b[..|b| - 1];
      assert AllSpace(b[..|b| - 1]) by {
        var b' := b[..|b| - 1];
        forall i | 0 <= i < |b'| ensures IsSpace(b'[i]) {
          assert b'[i] == b[i];
        }
      }
      TrimEndOfPadded(t, b[..|b| - 1]);
    }
  }
}
