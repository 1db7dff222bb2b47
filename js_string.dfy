/** `String.prototype.trim` on strings as sequences of Unicode scalar values. */
module JsString {

  /** The characters `trim` strips: ECMAScript's WhiteSpace (TAB, VT, FF, ZWNBSP and
      every Unicode space separator, category Zs) and LineTerminator (LF, CR, LS, PS). */
  function IsWhitespace(c: char): (b: bool)
    ensures c < '\U{0080}' ==> (b <==> c == ' ' || '\t' <= c <= '\r')
    ensures b ==> c != '\U{200B}'
  {
    || c == '\t' || c == '\n' || c == '\U{000B}' || c == '\U{000C}' || c == '\r'
    || c == ' ' || c == '\U{00A0}' || c == '\U{1680}'
    || ('\U{2000}' <= c <= '\U{200A}')
    || c == '\U{2028}' || c == '\U{2029}' || c == '\U{202F}' || c == '\U{205F}'
    || c == '\U{3000}' || c == '\U{FEFF}'
  }

  /** No whitespace at either end. */
  predicate IsTrimmed(s: string)
  {
    s != [] ==> !IsWhitespace(s[0]) && !IsWhitespace(s[|s| - 1])
  }

  /** `s` with its leading whitespace removed: the longest suffix starting with a
      non-whitespace character, or the empty string. */
  function TrimStart(s: string): (r: string)
    ensures |r| <= |s| && r == s[|s| - |r|..]
    ensures forall k :: 0 <= k < |s| - |r| ==> IsWhitespace(s[k])
    ensures r != [] ==> !IsWhitespace(r[0])
  {
    if s != [] && IsWhitespace(s[0]) then TrimStart(s[1..]) else s
  }

  /** `s` with its trailing whitespace removed. */
  function TrimEnd(s: string): (r: string)
    ensures |r| <= |s| && r == s[..|r|]
    ensures forall k :: |r| <= k < |s| ==> IsWhitespace(s[k])
    ensures r != [] ==> !IsWhitespace(r[|r| - 1])
  {
    if s != [] && IsWhitespace(s[|s| - 1]) then TrimEnd(s[..|s| - 1]) else s
  }

  /** `s.trim()`: a contiguous piece of `s` with no whitespace at either end, and
      everything cut off on either side is whitespace. It is empty exactly when
      `s` is all whitespace, which is when JavaScript treats `s.trim()` as false. */
  function Trim(s: string): (r: string)
    ensures IsTrimmed(r)
    ensures r == [] <==> forall k :: 0 <= k < |s| ==> IsWhitespace(s[k])
    ensures exists i, j :: 0 <= i <= j <= |s| && r == s[i..j]
                           && AllWhitespace(s[..i]) && AllWhitespace(s[j..])
  {
    var t := TrimStart(s);
    var r := TrimEnd(t);
    assert r != [] ==> r[0] == t[0];
    var i := |s| - |t|;
    assert r == s[i..i + |r|] && AllWhitespace(s[..i]) && AllWhitespace(s[i + |r|..]) by {
      assert t == s[i..];
    }
    r
  }

  /** Every character of `s` is whitespace. */
  predicate AllWhitespace(s: string)
  {
    forall k :: 0 <= k < |s| ==> IsWhitespace(s[k])
  }

  /** `TrimStart` removes exactly a whitespace prefix in front of a non-whitespace start. */
  lemma TrimStartExact(w: string, s: string)
    requires AllWhitespace(w)
    requires s != [] ==> !IsWhitespace(s[0])
    ensures TrimStart(w + s) == s
  {
    var x, r := w + s, TrimStart(w + s);
    assert forall k :: 0 <= k < |w| ==> IsWhitespace(x[k]);
    assert r != [] ==> r[0] == x[|x| - |r|];
    assert s != [] ==> x[|w|] == s[0];
  }

  /** `TrimEnd` removes exactly a whitespace suffix behind a non-whitespace end. */
  lemma TrimEndExact(s: string, w: string)
    requires AllWhitespace(w)
    requires s != [] ==> !IsWhitespace(s[|s| - 1])
    ensures TrimEnd(s + w) == s
  {
    var x, r := s + w, TrimEnd(s + w);
    assert forall k :: |s| <= k < |x| ==> IsWhitespace(x[k]);
    assert r != [] ==> r[|r| - 1] == x[|r| - 1];
    assert s != [] ==> x[|s| - 1] == s[|s| - 1];
  }

  /** `trim` undoes padding: whitespace put around a trimmed string comes off again,
      and nothing more does. */
  lemma TrimPadded(front: string, s: string, back: string)
    requires AllWhitespace(front) && AllWhitespace(back) && IsTrimmed(s)
    ensures Trim(front + s + back) == s
  {
    assert front + s + back == front + (s + back);
    if s == [] {
      assert AllWhitespace(back) && back == s + back;
      TrimStartExact(front + back, []);
      assert front + back + [] == front + s + back;
    } else {
      assert (s + back)[0] == s[0];
      TrimStartExact(front, s + back);
      TrimEndExact(s, back);
    }
  }

  /** A string already free of surrounding whitespace is its own trim. */
  lemma TrimTrimmed(s: string)
    requires IsTrimmed(s)
    ensures Trim(s) == s
  {
  }

  /** Trimming is idempotent. */
  lemma TrimIdempotent(s: string)
    ensures Trim(Trim(s)) == Trim(s)
  {
    TrimTrimmed(Trim(s));
  }
}
