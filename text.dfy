/**
 * Text handling of the equipment-table extraction: the whitespace that
 * Python's `str.strip()` removes and the strip itself, which BeautifulSoup
 * applies to a cell's text when asked for `get_text(strip=True)`.
 */
module Text {

  /** The characters Python's `str.isspace()` accepts, the ones `str.strip()` removes. */
  predicate IsSpace(c: char)
  {
    || ('\t' <= c <= '\r')            // tab, line feed, vertical tab, form feed, carriage return
    || ('\U{1C}' <= c <= ' ')         // the four information separators and the space
    || c == '\U{85}' || c == '\U{A0}' || c == '\U{1680}'
    || ('\U{2000}' <= c <= '\U{200A}')
    || c == '\U{2028}' || c == '\U{2029}' || c == '\U{202F}' || c == '\U{205F}' || c == '\U{3000}'
  }

  predicate AllSpace(s: string)
  {
    forall i :: 0 <= i < |s| ==> IsSpace(s[i])
  }

  /** Neither end of `s` is whitespace: `s` is what a strip leaves. */
  predicate Trimmed(s: string)
  {
    s == [] || (!IsSpace(s[0]) && !IsSpace(s[|s| - 1]))
  }

  /**
   * Python's `s.strip()`: whitespace is removed from both ends, one character
   * at a time, until neither end is whitespace.
   */
  function Strip(s: string): (r: string)
    ensures Trimmed(r)
    ensures |r| <= |s|
    decreases |s|
  {
    if s != [] && IsSpace(s[0]) then Strip(s[1..])
    else if s != [] && IsSpace(s[|s| - 1]) then Strip(s[..|s| - 1])
    else s
  }

  /** `s` is whitespace, then `r` starting at offset `i`, then whitespace again. */
  predicate Framed(s: string, i: nat, r: string)
  {
    i + |r| <= |s| && s[i..i + |r|] == r && AllSpace(s[..i]) && AllSpace(s[i + |r|..])
  }

  lemma FramedAfterSpace(s: string, i: nat, r: string)
    requires s != [] && IsSpace(s[0]) && Framed(s[1..], i, r)
    ensures Framed(s, i + 1, r)
  {
    assert s[i + 1..i + 1 + |r|] == s[1..][i..i + |r|];
    assert s[i + 1 + |r|..] == s[1..][i + |r|..];
    var head := s[..i + 1];
    forall k | 0 <= k < |head| ensures IsSpace(head[k]) {
      if 0 < k { assert head[k] == s[1..][..i][k - 1]; }
    }
  }

  lemma FramedBeforeSpace(s: string, i: nat, r: string)
    requires s != [] && IsSpace(s[|s| - 1]) && Framed(s[..|s| - 1], i, r)
    ensures Framed(s, i, r)
  {
    var t := s[..|s| - 1];
    assert s[i..i + |r|] == t[i..i + |r|];
    assert s[..i] == t[..i];
    var tail := s[i + |r|..];
    forall k | 0 <= k < |tail| ensures IsSpace(tail[k]) {
      if k < |tail| - 1 { assert tail[k] == t[i + |r|..][k]; }
    }
  }

  /**
   * What the strip removes is whitespace and only whitespace: the result is
   * a slice of `s`, and everything before and after that slice is whitespace.
   */
  lemma {:induction false} StripCutsWhitespace(s: string)
    ensures exists i: nat :: Framed(s, i, Strip(s))
    decreases |s|
  {
    if s != [] && IsSpace(s[0]) {
      StripCutsWhitespace(s[1..]);
      var i: nat :| Framed(s[1..], i, Strip(s[1..]));
      FramedAfterSpace(s, i, Strip(s));
    } else if s != [] && IsSpace(s[|s| - 1]) {
      StripCutsWhitespace(s[..|s| - 1]);
      var i: nat :| Framed(s[..|s| - 1], i, Strip(s[..|s| - 1]));
      FramedBeforeSpace(s, i, Strip(s));
    } else {
      assert Strip(s) == s;
      assert s[0..|s|] == s && s[..0] == [] && s[|s|..] == [];
      assert Framed(s, 0, s);
    }
  }

  /**
   * The strip is determined by what it keeps: whatever whitespace surrounds a
   * trimmed text `t`, stripping gives back exactly `t`.
   */
  lemma {:induction false} StripRecovers(pre: string, t: string, post: string)
    requires AllSpace(pre) && AllSpace(post) && Trimmed(t)
    ensures Strip(pre + t + post) == t
    decreases |pre| + |post|
  {
    var s := pre + t + post;
    if pre != [] {
      assert s[0] == pre[0];
      assert s[1..] == pre[1..] + t + post;
      StripRecovers(pre[1..], t, post);
    } else if post != [] {
      assert s == t + post;
      if t == [] {
        assert s[1..] == [] + [] + post[1..];
        StripRecovers([], [], post[1..]);
      } else {
        assert s[0] == t[0] && s[|s| - 1] == post[|post| - 1];
        assert s[..|s| - 1] == [] + t + post[..|post| - 1];
        StripRecovers([], t, post[..|post| - 1]);
      }
    } else {
      assert s == t;
    }
  }

  /** Stripping twice is stripping once. */
  lemma StripIdempotent(s: string)
    ensures Strip(Strip(s)) == Strip(s)
  {
    var t := Strip(s);
    assert [] + t + [] == t;
    StripRecovers([], t, []);
  }

  /** Text without whitespace at either end is left as it is. */
  lemma StripKeepsTrimmed(s: string)
    requires Trimmed(s)
    ensures Strip(s) == s
  {
    assert [] + s + [] == s;
    StripRecovers([], s, []);
  }
}
