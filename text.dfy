/** The two text primitives of Go's standard library that the service relies on:
    `strings.TrimSpace` and `len` on a string, which counts UTF-8 bytes. Strings are
    sequences of Unicode scalar values. */
module Text {

  /** Go's `unicode.IsSpace`: the Latin-1 spaces and the other characters with the
      Unicode White_Space property. */
  predicate IsSpace(c: char)
  {
    || c == ' ' || c == '\t' || c == '\n' || c == '\U{000B}' || c == '\U{000C}' || c == '\r'
    || c == '\U{0085}' || c == '\U{00A0}' || c == '\U{1680}'
    || ('\U{2000}' <= c <= '\U{200A}')
    || c == '\U{2028}' || c == '\U{2029}' || c == '\U{202F}' || c == '\U{205F}' || c == '\U{3000}'
  }

  predicate AllSpace(s: string)
  {
    forall i :: 0 <= i < |s| ==> IsSpace(s[i])
  }

  /** Drops the leading white space (see TrimLeftSpec). */
  function TrimLeft(s: string): (r: string)
    ensures |r| <= |s|
  {
    if s != [] && IsSpace(s[0]) then TrimLeft(s[1..]) else s
  }

  /** Drops the trailing white space (see TrimRightSpec). */
  function TrimRight(s: string): (r: string)
    ensures |r| <= |s|
  {
    if s != [] && IsSpace(s[|s| - 1]) then TrimRight(s[..|s| - 1]) else s
  }

  /** TrimLeft returns the suffix of `s` that starts at its first character that is
      not white space. */
  lemma {:induction false} TrimLeftSpec(s: string)
    ensures var r := TrimLeft(s);
      && r == s[|s| - |r|..]
      && AllSpace(s[..|s| - |r|])
      && (r != [] ==> !IsSpace(r[0]))
  {
    if s != [] && IsSpace(s[0]) {
      TrimLeftSpec(s[1..]);
      var r := TrimLeft(s);
      assert r == TrimLeft(s[1..]);
      assert s[..|s| - |r|] == [s[0]] + s[1..][..|s| - 1 - |r|];
    }
  }

  /** TrimRight returns the prefix of `s` that ends at its last character that is
      not white space. */
  lemma {:induction false} TrimRightSpec(s: string)
    ensures var r := TrimRight(s);
      && r == s[..|r|]
      && AllSpace(s[|r|..])
      && (r != [] ==> !IsSpace(r[|r| - 1]))
  {
    if s != [] && IsSpace(s[|s| - 1]) {
      var init := s[..|s| - 1];
      TrimRightSpec(init);
      var r := TrimRight(s);
      assert r == TrimRight(init);
      assert s[|r|..] == init[|r|..] + [s[|s| - 1]];
    }
  }

  /** `strings.TrimSpace`: the text between the leading and the trailing white space.
      What it returns is characterised by TrimSpaceBlank, TrimSpaceEnds and
      TrimSpaceUnique. */
  function TrimSpace(s: string): (r: string)
    ensures |r| <= |s|
  {
    TrimRight(TrimLeft(s))
  }

  /** The trimmed text is empty exactly when `s` is all white space. */
  lemma TrimSpaceBlank(s: string)
    ensures TrimSpace(s) == [] <==> AllSpace(s)
  {
    var l := TrimLeft(s);
    var r := TrimRight(l);
    TrimLeftSpec(s);
    TrimRightSpec(l);
    if r == [] {
      assert s == s[..|s| - |l|] + l;
      assert l == l[|r|..];
    }
  }

  /** The trimmed text is a piece of `s` that neither starts nor ends with white
      space, and everything of `s` around it is white space. */
  lemma TrimSpaceEnds(s: string)
    ensures var r := TrimSpace(s);
      && (r != [] ==> !IsSpace(r[0]) && !IsSpace(r[|r| - 1]))
      && exists a :: 0 <= a <= |s| - |r| && s[a..a + |r|] == r && AllSpace(s[..a]) && AllSpace(s[a + |r|..])
  {
    var l := TrimLeft(s);
    var r := TrimRight(l);
    TrimLeftSpec(s);
    TrimRightSpec(l);
    var a := |s| - |l|;
    assert s[a..a + |r|] == l[..|r|];
    assert s[a + |r|..] == l[|r|..];
  }

  /** Leading white space does not change what TrimLeft leaves. */
  lemma {:induction false} TrimLeftSkipsSpace(p: string, t: string)
    requires AllSpace(p)
    ensures TrimLeft(p + t) == TrimLeft(t)
  {
    if p != [] {
      var s := p + t;
      assert s[0] == p[0];
      assert s[1..] == p[1..] + t;
      assert TrimLeft(s) == TrimLeft(s[1..]);
      TrimLeftSkipsSpace(p[1..], t);
    } else {
      assert p + t == t;
    }
  }

  /** Trailing white space does not change what TrimRight leaves. */
  lemma {:induction false} TrimRightSkipsSpace(t: string, q: string)
    requires AllSpace(q)
    ensures TrimRight(t + q) == TrimRight(t)
  {
    if q != [] {
      var s := t + q;
      assert s[|s| - 1] == q[|q| - 1];
      assert s[..|s| - 1] == t + q[..|q| - 1];
      assert TrimRight(s) == TrimRight(s[..|s| - 1]);
      TrimRightSkipsSpace(t, q[..|q| - 1]);
    } else {
      assert t + q == t;
    }
  }

  /** TrimSpace is determined by its specification: whatever is surrounded by white
      space and neither starts nor ends with white space is what TrimSpace returns. */
  lemma TrimSpaceUnique(p: string, r: string, q: string)
    requires AllSpace(p) && AllSpace(q)
    requires r != [] ==> !IsSpace(r[0]) && !IsSpace(r[|r| - 1])
    ensures TrimSpace(p + r + q) == r
  {
    assert p + r + q == p + (r + q);
    TrimLeftSkipsSpace(p, r + q);
    if r == [] {
      assert r + q == q + [];
      TrimLeftSkipsSpace(q, []);
    } else {
      assert TrimLeft(r + q) == r + q;
      TrimRightSkipsSpace(r, q);
    }
  }

  /** Trimming twice is trimming once. */
  lemma TrimSpaceIdempotent(s: string)
    ensures TrimSpace(TrimSpace(s)) == TrimSpace(s)
  {
    var r := TrimSpace(s);
    TrimSpaceEnds(s);
    assert TrimLeft(r) == r;
    assert TrimRight(r) == r;
  }

  /** Number of bytes of the UTF-8 encoding of one character. */
  function RuneLen(c: char): (n: nat)
    ensures 1 <= n <= 4
    ensures n == 1 <==> (c as int) < 0x80
  {
    if (c as int) < 0x80 then 1
    else if (c as int) < 0x800 then 2
    else if (c as int) < 0x1_0000 then 3
    else 4
  }

  predicate IsAscii(s: string)
  {
    forall i :: 0 <= i < |s| ==> (s[i] as int) < 0x80
  }

  /** Go's `len` of a string: the length of its UTF-8 encoding, between one and
      four bytes per character. */
  function Utf8Len(s: string): (n: nat)
    ensures |s| <= n <= 4 * |s|
  {
    if s == [] then 0 else RuneLen(s[0]) + Utf8Len(s[1..])
  }

  /** The byte length equals the number of characters exactly when the text is
      ASCII. */
  lemma {:induction false} Utf8LenAscii(s: string)
    ensures Utf8Len(s) == |s| <==> IsAscii(s)
  {
    if s != [] {
      Utf8LenAscii(s[1..]);
      assert forall i :: 1 <= i < |s| ==> s[i] == s[1..][i - 1];
    }
  }
}
