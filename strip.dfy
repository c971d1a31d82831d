/**
  Python's `str.strip()` with no argument: it removes, from both ends of a
  string, every character for which `str.isspace()` holds.
 */
module Strip {

  /** The characters Python's `str.isspace()` accepts: the Unicode characters
      of category Zs and those of bidirectional class WS, B or S. */
  const SPACES: set<char> := {
      '\U{9}', '\U{A}', '\U{B}', '\U{C}', '\U{D}', '\U{1C}', '\U{1D}', '\U{1E}',
      '\U{1F}', '\U{20}', '\U{85}', '\U{A0}', '\U{1680}', '\U{2000}', '\U{2001}', '\U{2002}',
      '\U{2003}', '\U{2004}', '\U{2005}', '\U{2006}', '\U{2007}', '\U{2008}', '\U{2009}', '\U{200A}',
      '\U{2028}', '\U{2029}', '\U{202F}', '\U{205F}', '\U{3000}'
    }

  predicate IsSpace(c: char) {
    c in SPACES
  }

  predicate AllSpace(s: string) {
    forall i :: 0 <= i < |s| ==> IsSpace(s[i])
  }

  /** `str.lstrip()` */
  function StripLeft(s: string): string {
    if |s| > 0 && IsSpace(s[0]) then StripLeft(s[1..]) else s
  }

  /** `str.rstrip()` */
  function StripRight(s: string): string {
    if |s| > 0 && IsSpace(s[|s| - 1]) then StripRight(s[..|s| - 1]) else s
  }

  /** `lstrip` keeps the longest suffix that does not start with whitespace. */
  lemma {:induction false} StripLeftSpec(s: string)
    ensures var r := StripLeft(s);
      |r| <= |s| && r == s[|s| - |r|..] && AllSpace(s[..|s| - |r|]) && (r != [] ==> !IsSpace(r[0]))
  {
    if |s| > 0 && IsSpace(s[0]) {
      var t := s[1..];
      StripLeftSpec(t);
      var r := StripLeft(t);
      assert t[|t| - |r|..] == s[|s| - |r|..];
      var cut := s[..|s| - |r|];
      forall i | 0 <= i < |cut| ensures IsSpace(cut[i]) {
        if i > 0 { assert cut[i] == t[..|t| - |r|][i - 1]; }
      }
    }
  }

  /** `rstrip` keeps the longest prefix that does not end with whitespace. */
  lemma {:induction false} StripRightSpec(s: string)
    ensures var r := StripRight(s);
      |r| <= |s| && r == s[..|r|] && AllSpace(s[|r|..]) && (r != [] ==> !IsSpace(r[|r| - 1]))
  {
    if |s| > 0 && IsSpace(s[|s| - 1]) {
      var t := s[..|s| - 1];
      StripRightSpec(t);
      var r := StripRight(t);
      assert t[..|r|] == s[..|r|];
      var cut := s[|r|..];
      forall i | 0 <= i < |cut| ensures IsSpace(cut[i]) {
        if i < |t| - |r| { assert cut[i] == t[|r|..][i]; }
      }
    } else {
      assert s[..|s|] == s;
    }
  }

  /** `str.strip()` */
  function Strip(s: string): string {
    StripRight(StripLeft(s))
  }

  /** The result of `Strip` is a slice `s[i..i + |r|]` of the input, with only
      whitespace cut off before and after it, that neither begins nor ends
      with whitespace. */
  lemma StripSpec(s: string)
    ensures var r := Strip(s);
      exists i :: 0 <= i <= |s| - |r| && r == s[i..i + |r|]
                  && AllSpace(s[..i]) && AllSpace(s[i + |r|..])
    ensures var r := Strip(s); r != [] ==> !IsSpace(r[0]) && !IsSpace(r[|r| - 1])
  {
    var t := StripLeft(s);
    var r := StripRight(t);
    var i := |s| - |t|;
    StripLeftSpec(s);
    StripRightSpec(t);
    SliceOfSlice(s, i, r);
    assert 0 <= i <= |s| - |r| && r == s[i..i + |r|] && AllSpace(s[..i]) && AllSpace(s[i + |r|..]);
  }

  lemma SliceOfSlice(s: string, i: nat, r: string)
    requires i <= |s| && AllSpace(s[..i])
    requires |r| <= |s| - i && r == s[i..][..|r|] && AllSpace(s[i..][|r|..])
    ensures 0 <= i <= |s| - |r| && r == s[i..i + |r|]
    ensures AllSpace(s[..i]) && AllSpace(s[i + |r|..])
  {
    assert s[i + |r|..] == s[i..][|r|..];
  }

  /** Stripping an empty string, or one whose two ends are not whitespace,
      changes nothing. */
  lemma StripKeeps(s: string)
    requires s != [] ==> !IsSpace(s[0]) && !IsSpace(s[|s| - 1])
    ensures Strip(s) == s
  {
  }

  /** The result is empty exactly when the input holds nothing but whitespace. */
  lemma StripEmptyIff(s: string)
    ensures Strip(s) == [] <==> AllSpace(s)
  {
    StripSpec(s);
    if Strip(s) == [] {
      var i :| 0 <= i <= |s| && AllSpace(s[..i]) && AllSpace(s[i..]);
      forall k | 0 <= k < |s| ensures IsSpace(s[k]) {
        if k < i { assert s[k] == s[..i][k]; } else { assert s[k] == s[i..][k - i]; }
      }
    }
  }

  /** Stripping twice is stripping once. */
  lemma StripIdempotent(s: string)
    ensures Strip(Strip(s)) == Strip(s)
  {
    StripSpec(s);
    StripKeeps(Strip(s));
  }

  /** Whitespace added around a string is removed again. */
  lemma StripPadding(w1: string, s: string, w2: string)
    requires AllSpace(w1) && AllSpace(w2)
    ensures Strip(w1 + s + w2) == Strip(s)
  {
    assert w1 + s + w2 == w1 + (s + w2);
    StripLeftPadding(w1, s + w2);
    StripLeftAppend(s, w2);
    if StripLeft(s + w2) == StripLeft(s) + w2 {
      StripRightPadding(StripLeft(s) + w2, StripLeft(s), w2);
    } else {
      StripEmptyIff(s);
      StripLeftPadding(w2, []);
      assert w2 + [] == w2;
    }
  }

  lemma {:induction false} StripLeftPadding(w: string, s: string)
    requires AllSpace(w)
    ensures StripLeft(w + s) == StripLeft(s)
  {
    if w != [] {
      var t := w + s;
      assert t[0] == w[0];
      assert StripLeft(t) == StripLeft(t[1..]);
      assert t[1..] == w[1..] + s;
      StripLeftPadding(w[1..], s);
    } else {
      assert w + s == s;
    }
  }

  /** Trailing whitespace does not change what `lstrip` removes, unless the
      whole left part is whitespace. */
  lemma {:induction false} StripLeftAppend(s: string, w: string)
    requires AllSpace(w)
    ensures StripLeft(s + w) == StripLeft(s) + w || (AllSpace(s) && StripLeft(s + w) == StripLeft(w))
  {
    if s != [] {
      if IsSpace(s[0]) {
        assert (s + w)[1..] == s[1..] + w;
        StripLeftAppend(s[1..], w);
      }
    } else {
      assert s + w == w;
    }
  }

  lemma {:induction false} StripRightPadding(t: string, s: string, w: string)
    requires t == s + w && AllSpace(w)
    ensures StripRight(t) == StripRight(s)
  {
    if w != [] {
      assert t[..|t| - 1] == s + w[..|w| - 1];
      StripRightPadding(t[..|t| - 1], s, w[..|w| - 1]);
    } else {
      assert t == s;
    }
  }
}
