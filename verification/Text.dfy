/** White space and trimming, as the Rust standard library has them. */
module Text {
  /** Unicode white space, `char::is_whitespace`. */
  predicate IsWhite(c: char) {
    || '\t' <= c <= '\r' || c == ' ' || c == '\U{85}' || c == '\U{A0}' || c == '\U{1680}'
    || '\U{2000}' <= c <= '\U{200A}' || c == '\U{2028}' || c == '\U{2029}' || c == '\U{202F}'
    || c == '\U{205F}' || c == '\U{3000}'
  }

  predicate Blank(s: string) {
    forall c | c in s :: IsWhite(c)
  }

  function TrimStart(s: string): (r: string)
    ensures |r| <= |s| && r == s[|s| - |r|..] && (r != "" ==> !IsWhite(r[0]))
  {
    if s != "" && IsWhite(s[0]) then TrimStart(s[1..]) else s
  }

  function TrimEnd(s: string): (r: string)
    ensures r <= s && (r != "" ==> !IsWhite(r[|r| - 1]))
  {
    if s != "" && IsWhite(s[|s| - 1]) then TrimEnd(s[..|s| - 1]) else s
  }

  /** `str::trim`. */
  function Trim(s: string): string {
    TrimEnd(TrimStart(s))
  }

  /** Text that neither starts nor ends with white space is its own trimming. */
  lemma TrimTight(s: string)
    requires s != "" ==> !IsWhite(s[0]) && !IsWhite(s[|s| - 1])
    ensures Trim(s) == s
  {
  }

  /** White space in front is trimmed away. */
  lemma TrimSpace(c: char, s: string)
    requires IsWhite(c)
    ensures Trim([c] + s) == Trim(s)
  {
    assert ([c] + s)[1..] == s;
  }

  lemma {:induction false} TrimStartEmpty(s: string)
    ensures TrimStart(s) == "" <==> Blank(s)
  {
    if s != "" && IsWhite(s[0]) {
      TrimStartEmpty(s[1..]);
    }
  }

  lemma {:induction false} TrimEndKeeps(s: string)
    requires s != "" && !IsWhite(s[0])
    ensures TrimEnd(s) != ""
    decreases |s|
  {
    if IsWhite(s[|s| - 1]) {
      TrimEndKeeps(s[..|s| - 1]);
    }
  }

  /** `trim().is_empty()` says that there is nothing but white space. */
  lemma TrimEmpty(s: string)
    ensures Trim(s) == "" <==> Blank(s)
  {
    TrimStartEmpty(s);
    if TrimStart(s) != "" {
      TrimEndKeeps(TrimStart(s));
    }
  }

  /** ASCII white space: tab to carriage return, and the space. */
  lemma AsciiWhite(c: char)
    requires c as int < 128
    ensures IsWhite(c) <==> c in "\t\n\U{0B}\U{0C}\r "
  {
  }

  /** Neither end is white space. */
  predicate Tight(s: string) {
    s != "" ==> !IsWhite(s[0]) && !IsWhite(s[|s| - 1])
  }

  lemma {:induction false} BlankInFront(a: string, s: string)
    requires Blank(a)
    ensures TrimStart(a + s) == TrimStart(s)
  {
    hide IsWhite;
    if a == "" {
      assert a + s == s;
    } else {
      assert a[0] in a && (a + s)[1..] == a[1..] + s;
      BlankInFront(a[1..], s);
    }
  }

  lemma {:induction false} BlankBehind(s: string, b: string)
    requires Blank(b)
    ensures TrimEnd(s + b) == TrimEnd(s)
    decreases |b|
  {
    hide IsWhite;
    if b == "" {
      assert s + b == s;
    } else {
      assert b[|b| - 1] in b && (s + b)[..|s + b| - 1] == s + b[..|b| - 1];
      BlankBehind(s, b[..|b| - 1]);
    }
  }

  /** Trimming takes off exactly the white space at both ends. */
  lemma TrimExactly(a: string, t: string, b: string)
    requires Blank(a) && Blank(b) && Tight(t)
    ensures Trim(a + t + b) == t
  {
    hide IsWhite, TrimStart, TrimEnd;
    assert a + t + b == a + (t + b);
    BlankInFront(a, t + b);
    if t == "" {
      assert t + b == b;
      TrimEmpty(b);
    } else {
      StartTight(t + b);
      BlankBehind(t, b);
      EndTight(t);
    }
  }

  lemma StartTight(s: string)
    requires s != "" && !IsWhite(s[0])
    ensures TrimStart(s) == s
  {
  }

  lemma EndTight(s: string)
    requires s != "" && !IsWhite(s[|s| - 1])
    ensures TrimEnd(s) == s
  {
  }

  lemma StartStep(s: string)
    requires s != "" && IsWhite(s[0])
    ensures TrimStart(s) == TrimStart(s[1..])
  {
  }

  lemma NoneTrimmed(s: string)
    requires !(s != "" && IsWhite(s[0]))
    ensures Blank("") && TrimStart(s) == s == "" + s
  {
  }

  lemma OneMoreBlank(c: char, s: string)
    requires IsWhite(c) && Blank(s)
    ensures Blank([c] + s) && Blank(s + [c])
  {
    hide IsWhite;
  }

  lemma {:induction false} StartParts(s: string) returns (a: string)
    ensures Blank(a) && s == a + TrimStart(s)
  {
    hide IsWhite, Blank, TrimStart;
    if s != "" && IsWhite(s[0]) {
      var rest := StartParts(s[1..]);
      a := [s[0]] + rest;
      StartStep(s);
      OneMoreBlank(s[0], rest);
      assert s == [s[0]] + (rest + TrimStart(s[1..]));
    } else {
      a := "";
      NoneTrimmed(s);
    }
  }

  lemma {:induction false} EndParts(s: string) returns (b: string)
    ensures Blank(b) && s == TrimEnd(s) + b
    decreases |s|
  {
    hide IsWhite;
    b := "";
    if s != "" && IsWhite(s[|s| - 1]) {
      var rest := EndParts(s[..|s| - 1]);
      b := rest + [s[|s| - 1]];
      OneMoreBlank(s[|s| - 1], rest);
    }
  }

  lemma TrimParts(s: string) returns (a: string, b: string)
    ensures Blank(a) && Blank(b) && Tight(Trim(s)) && s == a + Trim(s) + b
  {
    a := StartParts(s);
    b := EndParts(TrimStart(s));
    hide IsWhite, TrimStart, TrimEnd;
  }
}
