/** Go's `filepath.Match` on one path component, to which the wildcard matcher is meant to be aligned: its
    grammar and meaning as the documentation of that function gives them, and where the two agree. */
module GoMatch {
  import opened Common
  import opened Glob

  // ----- Go's grammar -----

  /** One member of a class, an escaped one included: not `-`, not `]`, and not the end of the pattern. */
  function Member(p: string, i: nat): (r: Option<(char, nat)>)
    ensures r.Some? ==> i < r.value.1 < |p|
  {
    if i >= |p| || p[i] == '-' || p[i] == ']' then None
    else
      var at := if p[i] == '\\' then i + 1 else i;
      if at + 1 >= |p| then None else Some((p[at], at + 1))
  }

  /** The members of a class whose unread part starts at `i`, and the index after its closing bracket. */
  function Body(p: string, i: nat, first: bool): (r: Option<(seq<Range>, nat)>)
    requires i <= |p|
    ensures r.Some? ==> i < r.value.1 <= |p|
    decreases |p| - i
  {
    if i < |p| && p[i] == ']' && !first then Some(([], i + 1))
    else
      match Member(p, i)
      case None => None
      case Some((lo, j)) =>
        var upper := if p[j] == '-' then Member(p, j + 1) else Some((lo, j));
        if upper.None? then None
        else
          match Body(p, upper.value.1, false)
          case None => None
          case Some((ranges, next)) => Some(([Range(lo, upper.value.0)] + ranges, next))
  }

  function GoClass(p: string, start: nat): (r: Option<(Token, nat)>)
    requires start < |p|
    ensures r.Some? ==> r.value.0.Class? && start + 1 < r.value.1 <= |p|
  {
    var negated := start + 1 < |p| && p[start + 1] == '^';
    match Body(p, if negated then start + 2 else start + 1, true)
    case None => None
    case Some((ranges, next)) => Some((Class(negated, ranges), next))
  }

  function Followed(t: Token, rest: Option<seq<Token>>): Option<seq<Token>> {
    if rest.None? then None else Some([t] + rest.value)
  }

  /** The token of a single character outside classes. */
  function OneChar(c: char): Token {
    if c == '*' then Star else if c == '?' then AnyOne else Literal(c)
  }

  /** The tokens of the pattern; None is ErrBadPattern. */
  function GoTokens(p: string, i: nat): Option<seq<Token>>
    requires i <= |p|
    decreases |p| - i
  {
    if i == |p| then Some([])
    else if p[i] == '[' then
      match GoClass(p, i)
      case None => None
      case Some((t, next)) => Followed(t, GoTokens(p, next))
    else if p[i] == '\\' then
      if i + 1 == |p| then None else Followed(Literal(p[i + 1]), GoTokens(p, i + 2))
    else Followed(OneChar(p[i]), GoTokens(p, i + 1))
  }

  // ----- Go's meaning -----

  predicate NoSlash(n: string, from: nat, to: nat)
    requires to <= |n|
  {
    forall i | from <= i < to :: n[i] != '/'
  }

  /** As `Matches`, except that neither `*` nor `?` matches a separator. */
  ghost predicate GoMatches(ts: seq<Token>, n: string, at: nat)
    requires at <= |n|
    decreases |ts|
  {
    if ts == [] then at == |n|
    else if ts[0] == Star then
      exists k: nat | at <= k <= |n| :: NoSlash(n, at, k) && GoMatches(ts[1..], n, k)
    else
      at < |n| && Accepts(ts[0], n[at]) && (ts[0] == AnyOne ==> n[at] != '/') && GoMatches(ts[1..], n, at + 1)
  }

  /** What `filepath.Match` answers. */
  ghost function Go(p: string, n: string): Option<bool> {
    match GoTokens(p, 0)
    case None => None
    case Some(ts) => Some(GoMatches(ts, n, 0))
  }

  /** A name of one path component. */
  predicate Component(n: string) {
    NoSlash(n, 0, |n|)
  }

  lemma {:induction false} SameMeaning(ts: seq<Token>, n: string, at: nat)
    requires at <= |n| && Component(n)
    ensures GoMatches(ts, n, at) <==> Matches(ts, n, at)
    decreases |ts|
  {
    if ts != [] {
      if ts[0] == Star {
        forall k: nat | at <= k <= |n|
          ensures NoSlash(n, at, k) && (GoMatches(ts[1..], n, k) <==> Matches(ts[1..], n, k))
        {
          SameMeaning(ts[1..], n, k);
        }
      } else if at < |n| {
        SameMeaning(ts[1..], n, at + 1);
      }
    }
  }

  // ----- Reading the pattern -----

  predicate Unescaped(p: string) {
    forall i | 0 <= i < |p| :: p[i] != '\\'
  }

  /** Some class of the pattern, read as Go reads it, starts with `!`. */
  predicate BangLed(p: string, i: nat)
    requires i <= |p|
    decreases |p| - i
  {
    if i == |p| then false
    else if p[i] == '[' then
      || (i + 1 < |p| && p[i + 1] == '!')
      || (GoClass(p, i).Some? && BangLed(p, GoClass(p, i).value.1))
    else BangLed(p, i + 1)
  }

  /** No backslash stands in this stretch of the pattern. */
  predicate Plain(p: string, from: nat, to: nat) {
    forall j | from <= j < to && j < |p| :: p[j] != '\\'
  }

  lemma MemberIs(p: string, i: nat)
    requires Plain(p, i, i + 1)
    ensures Member(p, i).Some? ==> Member(p, i) == Some((p[i], i + 1)) && p[i] != '-' && p[i] != ']'
    ensures Member(p, i).None? && i + 1 < |p| ==> p[i] == '-' || p[i] == ']'
  {
  }

  /** Where Go closes a class without escapes, the matcher reads the same members. */
  lemma {:induction false} SameBody(p: string, i: nat, first: bool)
    requires i <= |p| && Body(p, i, first).Some? && Plain(p, i, Body(p, i, first).value.1)
    ensures ClassBody(p, i, first) == Body(p, i, first)
    decreases |p| - i
  {
    hide Member;
    if !(i < |p| && p[i] == ']' && !first) {
      MemberIs(p, i);
      var j := Member(p, i).value.1;
      if p[j] == '-' {
        MemberIs(p, j + 1);
      }
      SameBody(p, if p[j] == '-' then Member(p, j + 1).value.1 else j, false);
    }
  }

  lemma {:induction false} ReadAlikeUnescaped(p: string, i: nat)
    requires i <= |p| && Unescaped(p)
    ensures GoTokens(p, i) == Some(Tokens(p, i)) <==> GoTokens(p, i).Some? && !BangLed(p, i)
    decreases |p| - i
  {
    if i < |p| {
      if p[i] == '[' && GoClass(p, i).Some? {
        var (t, next) := GoClass(p, i).value;
        ReadAlikeUnescaped(p, next);
        if i + 1 < |p| && p[i + 1] == '!' {
          DifferentToken(p, i);
        } else {
          SameBody(p, if i + 1 < |p| && p[i + 1] == '^' then i + 2 else i + 1, true);
          assert ClassAt(p, i) == Some((t, next));
          Tails(t, Tokens(p, next), GoTokens(p, next));
        }
      } else if p[i] != '[' {
        ReadAlikeUnescaped(p, i + 1);
        var t := OneChar(p[i]);
        Tails(t, Tokens(p, i + 1), GoTokens(p, i + 1));
      }
    }
  }

  lemma Tails(t: Token, rest: seq<Token>, go: Option<seq<Token>>)
    ensures Followed(t, go) == Some([t] + rest) <==> go == Some(rest)
  {
    assert ([t] + rest)[1..] == rest;
    assert go.Some? ==> ([t] + go.value)[1..] == go.value;
  }

  /** A class that starts with `!` is not negated for Go, and negated or no class for the matcher. */
  lemma DifferentToken(p: string, i: nat)
    requires i + 1 < |p| && p[i] == '[' && p[i + 1] == '!' && GoClass(p, i).Some?
    ensures Tokens(p, i) != [] && Tokens(p, i)[0] != GoClass(p, i).value.0
  {
  }

  // ----- Escapes -----

  const BACKSLASH := Literal('\\')
  const BACK := Range('\\', '\\')

  function Backs(d: nat): (r: seq<Range>)
    ensures |r| == d && forall j | 0 <= j < d :: r[j] == BACK
  {
    seq(d, _ => BACK)
  }

  function Backslashes(d: nat): (r: seq<Token>)
    ensures |r| == d && forall j | 0 <= j < d :: r[j] == BACKSLASH
  {
    seq(d, _ => BACKSLASH)
  }

  /** The matcher's list of members is ahead of Go's by d backslashes, and falls further ahead. */
  lemma FurtherAhead(d: nat, extra: nat, go: seq<Range>, own: seq<Range>)
    requires [BACK] + go == Backs(d) + (Backs(extra + 1) + own)
    ensures go == Backs(d + extra) + own
  {
    var all := [BACK] + go;
    assert all[1..] == go;
    assert Backs(d) + (Backs(extra + 1) + own) == [BACK] + (Backs(d + extra) + own);
  }

  /** An escaped backslash as the lower end of a member: Go has read one member, the matcher two or, when the
      upper end is an escaped backslash too, three. */
  lemma EscapedLower(p: string, i: nat, first: bool) returns (k: nat, extra: nat)
    requires i <= |p| && Body(p, i, first).Some? && ClassBody(p, i, first).Some?
    requires i < |p| && p[i] == '\\' && Body(p, i, first).value.0[0] == BACK
    ensures i < k <= |p| && 1 <= extra <= 2 && Body(p, k, false).Some? && ClassBody(p, k, false).Some?
    ensures Body(p, k, false).value.1 == Body(p, i, first).value.1
    ensures Body(p, i, first).value.0 == [BACK] + Body(p, k, false).value.0
    ensures ClassBody(p, i, first).value.0 == Backs(extra + 1) + ClassBody(p, k, false).value.0
  {
    k := GoEscaped(p, i, first);
    hide Body, ClassBody, Member;
    OwnSingle(p, i, first);
    if p[i + 2] == '-' {
      extra := 2;
      OwnRange(p, i + 1, false);
      OwnSingle(p, i + 4, false);
      assert [BACK] + ([BACK] + ([BACK] + ClassBody(p, k, false).value.0)) == Backs(3) + ClassBody(p, k, false).value.0;
    } else {
      extra := 1;
      OwnSingle(p, i + 1, false);
      assert [BACK] + ([BACK] + ClassBody(p, k, false).value.0) == Backs(2) + ClassBody(p, k, false).value.0;
    }
  }

  lemma GoEscaped(p: string, i: nat, first: bool) returns (k: nat)
    requires i < |p| && p[i] == '\\' && Body(p, i, first).Some? && Body(p, i, first).value.0[0] == BACK
    ensures k < |p| && p[k] != '-' && Body(p, k, false).Some? && Body(p, k, false).value.1 == Body(p, i, first).value.1
    ensures Body(p, i, first).value.0 == [BACK] + Body(p, k, false).value.0
    ensures p[i + 1] == '\\'
    ensures if p[i + 2] == '-' then k == i + 5 && p[i + 3] == p[i + 4] == '\\' else k == i + 2
  {
    k := if p[i + 2] == '-' then i + 5 else i + 2;
    GoGoesOn(p, k);
  }

  lemma GoGoesOn(p: string, k: nat)
    requires k <= |p|
    ensures Body(p, k, false).Some? ==> k < |p| && p[k] != '-'
  {
  }

  /** The matcher's step over a single member ... */
  lemma OwnSingle(p: string, i: nat, first: bool)
    requires i + 1 < |p| && p[i] != ']' && (p[i + 1] == '-' ==> i + 2 >= |p| || p[i + 2] == ']')
    requires ClassBody(p, i, first).Some?
    ensures ClassBody(p, i + 1, false).Some?
    ensures ClassBody(p, i, first).value.0 == [Range(p[i], p[i])] + ClassBody(p, i + 1, false).value.0
  {
  }

  /** ... and over a range. */
  lemma OwnRange(p: string, i: nat, first: bool)
    requires i + 2 < |p| && p[i] != ']' && p[i + 1] == '-' && p[i + 2] != ']' && ClassBody(p, i, first).Some?
    ensures ClassBody(p, i + 3, false).Some?
    ensures ClassBody(p, i, first).value.0 == [Range(p[i], p[i + 2])] + ClassBody(p, i + 3, false).value.0
  {
  }

  /** An escaped backslash as the upper end: Go has read one member, the matcher two. */
  lemma EscapedUpper(p: string, i: nat, first: bool)
    requires i + 2 < |p| && Body(p, i, first).Some? && ClassBody(p, i, first).Some?
    requires p[i] != '\\' && p[i] != ']' && p[i + 1] == '-' && p[i + 2] == '\\'
    requires Body(p, i, first).value.0[0] == ClassBody(p, i, first).value.0[0]
    ensures i + 4 <= |p| && Body(p, i + 4, false).Some? && ClassBody(p, i + 4, false).Some?
    ensures Body(p, i, first).value.0 == [Range(p[i], '\\')] + Body(p, i + 4, false).value.0
    ensures ClassBody(p, i, first).value.0 == [Range(p[i], '\\')] + ([BACK] + ClassBody(p, i + 4, false).value.0)
  {
    assert p[i + 3] == '\\';
    assert p[i + 4] != '-';
    assert ClassBody(p, i + 3, false).value.0 == [BACK] + ClassBody(p, i + 4, false).value.0;
  }

  lemma GoPlain(p: string, i: nat, first: bool)
    requires i < |p| && !(p[i] == ']' && !first) && Body(p, i, first).Some?
    requires p[i] != '\\' && (p[i + 1] == '-' ==> i + 2 < |p| && p[i + 2] != '\\')
    ensures p[i] != ']' && if p[i + 1] == '-' then
              && i + 3 <= |p| && p[i + 2] != ']' && Body(p, i + 3, false).Some?
              && Body(p, i, first).value == ([Range(p[i], p[i + 2])] + Body(p, i + 3, false).value.0,
                                             Body(p, i + 3, false).value.1)
            else
              && Body(p, i + 1, false).Some?
              && Body(p, i, first).value == ([Range(p[i], p[i])] + Body(p, i + 1, false).value.0,
                                             Body(p, i + 1, false).value.1)
  {
  }

  /** A member without escapes is read alike. */
  lemma PlainMember(p: string, i: nat, first: bool) returns (k: nat, r: Range)
    requires i < |p| && !(p[i] == ']' && !first) && Body(p, i, first).Some? && ClassBody(p, i, first).Some?
    requires p[i] != '\\' && (p[i + 1] == '-' ==> i + 2 < |p| && p[i + 2] != '\\')
    ensures i < k <= |p| && Body(p, k, false).Some? && ClassBody(p, k, false).Some?
    ensures Body(p, k, false).value.1 == Body(p, i, first).value.1
    ensures forall j | i <= j < k :: p[j] != '\\'
    ensures Body(p, i, first).value.0 == [r] + Body(p, k, false).value.0
    ensures ClassBody(p, i, first).value.0 == [r] + ClassBody(p, k, false).value.0
  {
    GoPlain(p, i, first);
    hide Body, ClassBody, Member;
    if p[i + 1] == '-' {
      k, r := i + 3, Range(p[i], p[i + 2]);
      OwnRange(p, i, first);
    } else {
      k, r := i + 1, Range(p[i], p[i]);
      OwnSingle(p, i, first);
    }
  }

  /** Both go on: there is a member to read. */
  lemma BodyShape(p: string, i: nat, first: bool, d: nat)
    requires i <= |p| && Body(p, i, first).Some? && ClassBody(p, i, first).Some?
    requires d > 0 || !Plain(p, i, Body(p, i, first).value.1)
    requires Body(p, i, first).value.0 == Backs(d) + ClassBody(p, i, first).value.0
    ensures i + 2 < |p| && p[i] != ']' && Body(p, i, first).value.0 != []
    ensures d == 0 ==> Body(p, i, first).value.0 == ClassBody(p, i, first).value.0
    ensures p[i] != '\\' ==> Body(p, i, first).value.0[0].lo == p[i] && d == 0
    ensures p[i] == '\\' ==> Body(p, i, first).value.0[0] == BACK
  {
    var go, own := Body(p, i, first).value.0, ClassBody(p, i, first).value.0;
    assert d == 0 ==> Backs(d) == [] && [] + own == own;
    assert d > 0 ==> go[0] == BACK;
  }

  lemma SameTail(r: Range, go: seq<Range>, own: seq<Range>)
    requires [r] + go == [r] + own
    ensures go == own
  {
    assert ([r] + go)[1..] == go && ([r] + own)[1..] == own;
  }

  /** A class with an escape in it is never read alike. The matcher takes the backslash for a member, so the
      escaped character must be a backslash too, and then the matcher has read one member more; with members
      to make up for, Go must read backslashes again, and the distance grows. */
  lemma {:induction false} EscapedBody(p: string, i: nat, first: bool, d: nat)
    requires i <= |p| && Body(p, i, first).Some?
    requires d > 0 || !Plain(p, i, Body(p, i, first).value.1)
    ensures ClassBody(p, i, first).Some? ==> Body(p, i, first).value.0 != Backs(d) + ClassBody(p, i, first).value.0
    decreases |p| - i
  {
    hide Body, ClassBody, Member;
    if ClassBody(p, i, first).Some? && Body(p, i, first).value.0 == Backs(d) + ClassBody(p, i, first).value.0 {
      var go, own := Body(p, i, first).value.0, ClassBody(p, i, first).value.0;
      BodyShape(p, i, first, d);
      if p[i] == '\\' {
        var k, extra := EscapedLower(p, i, first);
        FurtherAhead(d, extra, Body(p, k, false).value.0, ClassBody(p, k, false).value.0);
        EscapedBody(p, k, false, d + extra);
      } else {
        if p[i + 1] == '-' && p[i + 2] == '\\' {
          EscapedUpper(p, i, first);
          SameTail(Range(p[i], '\\'), Body(p, i + 4, false).value.0, [BACK] + ClassBody(p, i + 4, false).value.0);
          assert Backs(1) == [BACK];
          EscapedBody(p, i + 4, false, 1);
        } else {
          var k, r := PlainMember(p, i, first);
          SameTail(r, Body(p, k, false).value.0, ClassBody(p, k, false).value.0);
          assert Backs(0) + ClassBody(p, k, false).value.0 == ClassBody(p, k, false).value.0;
          EscapedBody(p, k, false, 0);
        }
      }
    }
  }

  /** Nor is a pattern with an escape anywhere. */
  lemma {:induction false} EscapedTokens(p: string, i: nat, d: nat)
    requires i <= |p| && GoTokens(p, i).Some? && (d > 0 || !Plain(p, i, |p|))
    ensures GoTokens(p, i).value != Backslashes(d) + Tokens(p, i)
    decreases |p| - i
  {
    hide Plain, GoClass, ClassAt, GoTokens, Tokens;
    if GoTokens(p, i).value == Backslashes(d) + Tokens(p, i) {
      GoHead(p, i, d);
      if p[i] == '\\' {
        EscapedBackslash(p, i);
        TokensAhead(d, GoTokens(p, i + 2).value, Tokens(p, i + 2));
        EscapedTokens(p, i + 2, d + 1);
      } else {
        var k := SameHead(p, i);
        assert Backslashes(0) + Tokens(p, i) == Tokens(p, i);
        SameRest(Tokens(p, i)[0], GoTokens(p, k).value, Tokens(p, k));
        assert Backslashes(0) + Tokens(p, k) == Tokens(p, k);
        EscapedTokens(p, k, 0);
      }
    }
  }

  /** The readings start with the same token, and there is one. */
  lemma GoHead(p: string, i: nat, d: nat)
    requires i <= |p| && GoTokens(p, i).Some? && (d > 0 || !Plain(p, i, |p|))
    requires GoTokens(p, i).value == Backslashes(d) + Tokens(p, i)
    ensures i < |p| && GoTokens(p, i).value != [] && Tokens(p, i) != []
    ensures p[i] == '\\' ==> GoTokens(p, i).value[0] == BACKSLASH
    ensures p[i] != '\\' ==> d == 0 && GoTokens(p, i).value[0] == Tokens(p, i)[0]
  {
    hide GoClass, ClassAt;
    assert d > 0 ==> GoTokens(p, i).value[0] == BACKSLASH;
    assert d == 0 ==> Backslashes(d) + Tokens(p, i) == Tokens(p, i);
  }

  lemma EscapedBackslash(p: string, i: nat)
    requires i < |p| && p[i] == '\\' && GoTokens(p, i).Some? && GoTokens(p, i).value[0] == BACKSLASH
    ensures i + 2 <= |p| && GoTokens(p, i + 2).Some?
    ensures GoTokens(p, i).value == [BACKSLASH] + GoTokens(p, i + 2).value
    ensures Tokens(p, i) == [BACKSLASH] + ([BACKSLASH] + Tokens(p, i + 2))
  {
    assert p[i + 1] == '\\';
    assert Tokens(p, i + 1) == [BACKSLASH] + Tokens(p, i + 2);
  }

  lemma TokensAhead(d: nat, go: seq<Token>, own: seq<Token>)
    requires [BACKSLASH] + go == Backslashes(d) + ([BACKSLASH] + ([BACKSLASH] + own))
    ensures go == Backslashes(d + 1) + own
  {
    var all := [BACKSLASH] + go;
    assert all[1..] == go;
    assert Backslashes(d) + ([BACKSLASH] + ([BACKSLASH] + own)) == [BACKSLASH] + (Backslashes(d + 1) + own);
  }

  /** An element without an escape that is read alike ends at the same place. */
  lemma SameHead(p: string, i: nat) returns (k: nat)
    requires i < |p| && p[i] != '\\' && GoTokens(p, i).Some? && GoTokens(p, i).value != []
    requires GoTokens(p, i).value[0] == Tokens(p, i)[0] && !Plain(p, i, |p|)
    ensures i < k <= |p| && GoTokens(p, k).Some? && !Plain(p, k, |p|)
    ensures GoTokens(p, i).value == [Tokens(p, i)[0]] + GoTokens(p, k).value
    ensures Tokens(p, i) == [Tokens(p, i)[0]] + Tokens(p, k)
  {
    if p[i] == '[' {
      k := SameClass(p, i);
    } else {
      k := i + 1;
    }
  }

  lemma SameClass(p: string, i: nat) returns (k: nat)
    requires i < |p| && p[i] == '[' && GoTokens(p, i).Some? && GoTokens(p, i).value != []
    requires GoTokens(p, i).value[0] == Tokens(p, i)[0] && !Plain(p, i, |p|)
    ensures i < k <= |p| && GoTokens(p, k).Some? && !Plain(p, k, |p|)
    ensures GoTokens(p, i).value == [Tokens(p, i)[0]] + GoTokens(p, k).value
    ensures Tokens(p, i) == [Tokens(p, i)[0]] + Tokens(p, k)
  {
    var start := if i + 1 < |p| && p[i + 1] == '^' then i + 2 else i + 1;
    ClassHeads(p, i);
    k := GoClass(p, i).value.1;
    SameClassParts(p, i);
    LaterEscape(p, i, start, k);
    hide Body, ClassBody, GoTokens, Tokens, ClassAt, GoClass, Plain;
    NoLead(ClassBody(p, start, true).value.0);
    if !Plain(p, start, k) {
      EscapedBody(p, start, true, 0);
    }
    SameBody(p, start, true);
  }

  lemma NoLead(own: seq<Range>)
    ensures Backs(0) + own == own
  {
  }

  lemma LaterEscape(p: string, i: nat, start: nat, k: nat)
    requires i <= start <= k && (forall j | i <= j < start && j < |p| :: p[j] != '\\') && !Plain(p, i, |p|)
    ensures Plain(p, start, k) ==> !Plain(p, k, |p|)
  {
  }

  /** Both start with a class, and go on after it. */
  lemma ClassHeads(p: string, i: nat)
    requires i < |p| && p[i] == '[' && GoTokens(p, i).Some? && GoTokens(p, i).value != []
    requires GoTokens(p, i).value[0] == Tokens(p, i)[0]
    ensures GoClass(p, i).Some? && ClassAt(p, i).Some? && GoClass(p, i).value.0 == ClassAt(p, i).value.0
    ensures GoTokens(p, GoClass(p, i).value.1).Some?
    ensures GoTokens(p, i).value == [GoClass(p, i).value.0] + GoTokens(p, GoClass(p, i).value.1).value
    ensures Tokens(p, i) == [ClassAt(p, i).value.0] + Tokens(p, ClassAt(p, i).value.1)
  {
  }

  lemma SameClassParts(p: string, i: nat)
    requires i < |p| && p[i] == '[' && GoClass(p, i).Some? && ClassAt(p, i).Some?
    requires GoClass(p, i).value.0 == ClassAt(p, i).value.0
    ensures var start := if i + 1 < |p| && p[i + 1] == '^' then i + 2 else i + 1;
            && Body(p, start, true).Some? && ClassBody(p, start, true).Some?
            && Body(p, start, true).value.0 == ClassBody(p, start, true).value.0
            && GoClass(p, i).value.1 == Body(p, start, true).value.1
            && ClassAt(p, i).value.1 == ClassBody(p, start, true).value.1
  {
    hide Body, ClassBody;
  }

  lemma SameRest(t: Token, go: seq<Token>, own: seq<Token>)
    requires [t] + go == [t] + own
    ensures go == own
  {
    assert ([t] + go)[1..] == go && ([t] + own)[1..] == own;
  }

  /** Every pattern: the two read it alike if and only if Go accepts it, nothing is escaped in it, and no class
      starts with `!`. */
  lemma ReadAlike(p: string)
    ensures GoTokens(p, 0) == Some(Tokens(p, 0)) <==> GoTokens(p, 0).Some? && Unescaped(p) && !BangLed(p, 0)
  {
    if Unescaped(p) {
      ReadAlikeUnescaped(p, 0);
    } else if GoTokens(p, 0).Some? {
      assert Backslashes(0) + Tokens(p, 0) == Tokens(p, 0);
      EscapedTokens(p, 0, 0);
    }
  }

  /** The alignment that is promised: on names of one path component, and patterns that Go accepts, without
      escapes and without a class that starts with `!`, the matcher answers as Go does. */
  lemma Agreement(p: string, n: string)
    requires Unescaped(p) && Component(n) && GoTokens(p, 0).Some? && !BangLed(p, 0)
    ensures Go(p, n) == Some(Glob.Glob(p, n))
  {
    ReadAlikeUnescaped(p, 0);
    SameMeaning(Tokens(p, 0), n, 0);
  }

  // ----- Where they part -----

  /** Some character of a component is accepted. */
  ghost predicate AcceptsSome(t: Token) {
    exists c :: c != '/' && Accepts(t, c)
  }

  /** Some element of the pattern accepts no character of a component, so no component matches: a
      separator, or a class whose ranges are all empty. */
  ghost predicate Dead(ts: seq<Token>) {
    exists i | 0 <= i < |ts| :: ts[i] != Star && !AcceptsSome(ts[i])
  }

  ghost predicate Differ(t: Token, u: Token) {
    t != Star && u != Star && exists c :: c != '/' && Accepts(t, c) != Accepts(u, c)
  }

  /** The same elements, except that some accept different characters. */
  ghost predicate Paired(a: seq<Token>, b: seq<Token>) {
    |a| == |b| && forall i | 0 <= i < |a| :: a[i] == b[i] || Differ(a[i], b[i])
  }

  /** What Go reads as members and the matcher as excluded: they differ, as some character is in both lists
      or in neither. */
  lemma BangDiffers(a: seq<Range>, b: seq<Range>, c: char)
    requires c != '/' && InRanges(a, c) == InRanges(b, c)
    ensures Differ(Class(false, a), Class(true, b))
  {
    assert Accepts(Class(false, a), c) != Accepts(Class(true, b), c);
  }

  /** `[!...]` with at least one more member: both close it at the same bracket. */
  lemma BangClass(p: string, i: nat)
    requires i + 2 < |p| && p[i] == '[' && p[i + 1] == '!' && p[i + 2] != ']' && Unescaped(p) && GoClass(p, i).Some?
    ensures ClassAt(p, i).Some? && ClassAt(p, i).value.1 == GoClass(p, i).value.1
    ensures Differ(GoClass(p, i).value.0, ClassAt(p, i).value.0)
  {
    if p[i + 2] == '-' {
      var hi := p[i + 3];
      var tail := Body(p, i + 4, false).value.0;
      SameBody(p, i + 4, false);
      assert ClassBody(p, i + 3, false).value.0 == [Range(hi, hi)] + tail;
      assert ClassBody(p, i + 2, true).value.0 == [Range('-', '-')] + ([Range(hi, hi)] + tail);
      var c := WithUpper(hi, tail);
      BangDiffers([Range('!', hi)] + tail, [Range('-', '-')] + ([Range(hi, hi)] + tail), c);
    } else {
      var tail := Body(p, i + 2, false).value.0;
      SameBody(p, i + 2, false);
      assert ClassBody(p, i + 2, true) == ClassBody(p, i + 2, false);
      var c := WithoutUpper(tail);
      BangDiffers([Range('!', '!')] + tail, tail, c);
    }
  }

  lemma WithoutUpper(tail: seq<Range>) returns (c: char)
    ensures c != '/' && InRanges([Range('!', '!')] + tail, c) == InRanges(tail, c)
  {
    c := 'b';
    InPrepended(Range('!', '!'), tail, c);
  }

  lemma WithUpper(hi: char, tail: seq<Range>) returns (c: char)
    requires hi != '-'
    ensures c != '/'
    ensures InRanges([Range('!', hi)] + tail, c) == InRanges([Range('-', '-')] + ([Range(hi, hi)] + tail), c)
  {
    c := if hi < '!' then 'b' else if hi < '-' then hi else '-';
    InPrepended(Range('!', hi), tail, c);
    InPrepended(Range(hi, hi), tail, c);
    InPrepended(Range('-', '-'), [Range(hi, hi)] + tail, c);
  }

  lemma PairedTail(t: Token, u: Token, a: seq<Token>, b: seq<Token>)
    requires Paired(a, b) && (t == u || Differ(t, u))
    ensures Paired([t] + a, [u] + b)
  {
  }

  function Weight(ts: seq<Token>): nat {
    if ts == [] then 0 else (if ts[0] == Star then 0 else 1) + Weight(ts[1..])
  }

  lemma {:induction false} PairedWeight(a: seq<Token>, b: seq<Token>)
    requires Paired(a, b)
    ensures Weight(a) == Weight(b)
    decreases |a|
  {
    if a != [] {
      PairedWeight(a[1..], b[1..]);
      assert a[0] == b[0] || Differ(a[0], b[0]);
    }
  }

  const ONLY_BANG := Class(false, [Range('!', '!')])

  /** Counted from their ends, one reading asks for `!` where the other asks for `]`. */
  predicate EndsApart(a: seq<Token>, b: seq<Token>) {
    exists i, j | 0 <= i < |a| && 0 <= j < |b| :: EndsAt(a, b, i, j)
  }

  predicate EndsAt(a: seq<Token>, b: seq<Token>, i: nat, j: nat)
    requires i < |a| && j < |b|
  {
    a[i] == ONLY_BANG && b[j] == Literal(']') && a[i + 1..] == b[j + 1..]
  }

  /** How Go's reading of a pattern and the matcher's can be related. */
  ghost predicate Related(a: seq<Token>, b: seq<Token>) {
    Paired(a, b) || Weight(a) > Weight(b) || EndsApart(a, b)
  }

  lemma RelatedTail(t: Token, u: Token, a: seq<Token>, b: seq<Token>)
    requires Related(a, b) && (t == u || Differ(t, u))
    ensures Related([t] + a, [u] + b)
  {
    var x, y := [t] + a, [u] + b;
    assert x[1..] == a && y[1..] == b;
    if EndsApart(a, b) {
      EndsApartLater([t], a, [u], b);
    } else if Paired(a, b) {
      PairedTail(t, u, a, b);
    }
  }

  lemma EndsApartLater(m: seq<Token>, a: seq<Token>, k: seq<Token>, b: seq<Token>)
    requires EndsApart(a, b)
    ensures EndsApart(m + a, k + b)
  {
    var i, j :| 0 <= i < |a| && 0 <= j < |b| && EndsAt(a, b, i, j);
    var x, y := m + a, k + b;
    assert x[|m| + i] == a[i] && y[|k| + j] == b[j];
    assert x[|m| + i + 1..] == a[i + 1..] && y[|k| + j + 1..] == b[j + 1..];
    assert EndsAt(x, y, |m| + i, |k| + j);
  }

  lemma {:induction false} WeightAppend(a: seq<Token>, b: seq<Token>)
    ensures Weight(a + b) == Weight(a) + Weight(b)
  {
    if a == [] {
      assert a + b == b;
    } else {
      assert (a + b)[1..] == a[1..] + b;
      WeightAppend(a[1..], b);
    }
  }

  /** The first `]` from `i` on stands just before `k`. */
  predicate FirstBracket(p: string, i: nat, k: nat) {
    i < k <= |p| && p[k - 1] == ']' && forall j | i <= j < k - 1 :: p[j] != ']'
  }

  predicate NoBracket(p: string, i: nat) {
    forall j | i <= j < |p| :: p[j] != ']'
  }

  /** Go closes a class at the first bracket after its first member. */
  lemma {:induction false} BodyCloses(p: string, i: nat, first: bool)
    requires i <= |p| && Unescaped(p) && Body(p, i, first).Some?
    ensures FirstBracket(p, i, Body(p, i, first).value.1)
    decreases |p| - i
  {
    if !(i < |p| && p[i] == ']' && !first) {
      var j := Member(p, i).value.1;
      BodyCloses(p, if p[j] == '-' then Member(p, j + 1).value.1 else j, false);
    }
  }

  /** So does the matcher, once it is past the first member. */
  lemma {:induction false} ClassBodyCloses(p: string, i: nat)
    requires i <= |p|
    ensures ClassBody(p, i, false).Some? ==> FirstBracket(p, i, ClassBody(p, i, false).value.1)
    ensures ClassBody(p, i, false).None? ==> NoBracket(p, i)
    decreases |p| - i
  {
    if i < |p| && p[i] != ']' {
      ClassBodyCloses(p, if i + 2 < |p| && p[i + 1] == '-' && p[i + 2] != ']' then i + 3 else i + 1);
    }
  }

  lemma OneBracket(p: string, i: nat, k: nat, k': nat)
    requires FirstBracket(p, i, k) && FirstBracket(p, i, k')
    ensures k == k'
  {
  }

  lemma ClassCloses(p: string, i: nat, k: nat)
    requires Unescaped(p) && FirstBracket(p, i, k) && p[i] == '[' && GoClass(p, i).Some?
    ensures GoClass(p, i).value.1 == k
  {
    BodyCloses(p, if p[i + 1] == '^' then i + 2 else i + 1, true);
    OneBracket(p, i, k, GoClass(p, i).value.1);
  }

  lemma GoStep(p: string, i: nat)
    requires Unescaped(p) && i < |p| && p[i] != '[' && GoTokens(p, i).Some?
    ensures GoTokens(p, i + 1).Some? && GoTokens(p, i).value == [OneChar(p[i])] + GoTokens(p, i + 1).value
  {
  }

  /** Go's reading has a boundary after the first bracket, and at least one element before it. */
  lemma {:induction false} GoStopsAt(p: string, i: nat, k: nat) returns (m: seq<Token>)
    requires Unescaped(p) && FirstBracket(p, i, k) && GoTokens(p, i).Some?
    ensures GoTokens(p, k).Some? && GoTokens(p, i).value == m + GoTokens(p, k).value && Weight(m) >= 1
    decreases k - i
  {
    hide Body, Member;
    if p[i] == '[' {
      ClassCloses(p, i, k);
      m := [GoClass(p, i).value.0];
    } else {
      GoStep(p, i);
      hide GoTokens;
      if i == k - 1 {
        m := [Literal(']')];
      } else {
        var rest := GoStopsAt(p, i + 1, k);
        m := [OneChar(p[i])] + rest;
        assert m[1..] == rest;
        assert [OneChar(p[i])] + (rest + GoTokens(p, k).value) == m + GoTokens(p, k).value;
      }
    }
  }

  lemma {:induction false} AlikeWithoutBrackets(p: string, i: nat)
    requires i <= |p| && Unescaped(p) && NoBracket(p, i) && GoTokens(p, i).Some?
    ensures GoTokens(p, i) == Some(Tokens(p, i))
    decreases |p| - i
  {
    if i < |p| {
      if p[i] == '[' {
        BodyCloses(p, if p[i + 1] == '^' then i + 2 else i + 1, true);
      } else {
        AlikeWithoutBrackets(p, i + 1);
      }
    }
  }

  lemma BangBracket(p: string, i: nat)
    requires i + 2 < |p| && p[i] == '[' && p[i + 1] == '!' && p[i + 2] == ']' && Unescaped(p)
    ensures GoClass(p, i) == Some((ONLY_BANG, i + 3))
    ensures ClassAt(p, i).Some? ==> FirstBracket(p, i + 3, ClassAt(p, i).value.1)
    ensures ClassAt(p, i).None? ==> NoBracket(p, i + 3)
  {
    assert Body(p, i + 2, false) == Some(([], i + 3));
    assert [Range('!', '!')] + [] == [Range('!', '!')];
    ClassBodyCloses(p, if i + 4 < |p| && p[i + 3] == '-' && p[i + 4] != ']' then i + 5 else i + 3);
  }

  /** `[!]`: the matcher closes it later than Go, so that it has fewer elements ... */
  lemma ClosedLater(p: string, i: nat)
    requires i + 2 < |p| && p[i] == '[' && p[i + 1] == '!' && p[i + 2] == ']' && Unescaped(p)
    requires GoTokens(p, i).Some? && ClassAt(p, i).Some?
    requires var k := ClassAt(p, i).value.1;
             GoTokens(p, k).Some? ==> Related(GoTokens(p, k).value, Tokens(p, k))
    ensures Related(GoTokens(p, i).value, Tokens(p, i))
  {
    BangBracket(p, i);
    var (u, k) := ClassAt(p, i).value;
    BangTokens(p, i);
    hide Related, GoClass, ClassAt, FirstBracket, GoTokens, Tokens;
    var m := GoStopsAt(p, i + 3, k);
    var x, y := GoTokens(p, k).value, Tokens(p, k);
    assert [ONLY_BANG] + (m + x) == ([ONLY_BANG] + m) + x;
    Merged(m, x, u, y);
  }

  lemma BangTokens(p: string, i: nat)
    requires i + 2 < |p| && p[i] == '[' && GoTokens(p, i).Some? && GoClass(p, i) == Some((ONLY_BANG, i + 3))
    ensures GoTokens(p, i + 3).Some? && GoTokens(p, i).value == [ONLY_BANG] + GoTokens(p, i + 3).value
    ensures ClassAt(p, i).Some? ==>
              Tokens(p, i) == [ClassAt(p, i).value.0] + Tokens(p, ClassAt(p, i).value.1)
  {
    hide GoClass, ClassAt;
  }

  /** ... or never, so that it asks for a `]`. */
  lemma ClosedNever(p: string, i: nat)
    requires i + 2 < |p| && p[i] == '[' && p[i + 1] == '!' && p[i + 2] == ']' && Unescaped(p)
    requires GoTokens(p, i).Some? && ClassAt(p, i).None?
    ensures Related(GoTokens(p, i).value, Tokens(p, i))
  {
    BangBracket(p, i);
    BangTokens(p, i);
    AlikeWithoutBrackets(p, i + 3);
    ThreeLiterals(p, i);
    hide GoTokens, Tokens, ClassAt, GoClass, Weight, Paired;
    NeverClosed(Tokens(p, i + 3));
  }

  lemma ThreeLiterals(p: string, i: nat)
    requires i + 2 < |p| && p[i] == '[' && p[i + 1] == '!' && p[i + 2] == ']' && ClassAt(p, i).None?
    ensures Tokens(p, i) == [Literal('[')] + ([Literal('!')] + ([Literal(']')] + Tokens(p, i + 3)))
  {
    hide ClassAt;
    assert Tokens(p, i + 2) == [Literal(']')] + Tokens(p, i + 3);
    assert Tokens(p, i + 1) == [Literal('!')] + Tokens(p, i + 2);
  }

  lemma NeverClosed(rest: seq<Token>)
    ensures EndsApart([ONLY_BANG] + rest, [Literal('[')] + ([Literal('!')] + ([Literal(']')] + rest)))
  {
    var a, b := [ONLY_BANG] + rest, [Literal('[')] + ([Literal('!')] + ([Literal(']')] + rest));
    assert a[0] == ONLY_BANG && b[2] == Literal(']');
    assert a[1..] == rest == b[3..];
    assert EndsAt(a, b, 0, 2);
  }

  lemma Merged(m: seq<Token>, x: seq<Token>, u: Token, y: seq<Token>)
    requires Related(x, y) && Weight(m) >= 1
    ensures Related(([ONLY_BANG] + m) + x, [u] + y)
  {
    if EndsApart(x, y) {
      EndsApartLater([ONLY_BANG] + m, x, [u], y);
    } else {
      if Paired(x, y) {
        PairedWeight(x, y);
      }
      WeightAppend([ONLY_BANG] + m, x);
      assert ([ONLY_BANG] + m)[1..] == m && ([u] + y)[1..] == y;
    }
  }

  /** Both readings of every pattern that Go accepts are related. */
  lemma {:induction false} ReadRelated(p: string, i: nat)
    requires i <= |p| && Unescaped(p) && GoTokens(p, i).Some?
    ensures Related(GoTokens(p, i).value, Tokens(p, i))
    decreases |p| - i
  {
    hide Related, Differ, ClassBody, Body;
    if i == |p| {
      NoPairs();
    } else if p[i] == '[' {
      AfterClass(p, i);
      var (t, next) := GoClass(p, i).value;
      if p[i + 1] == '!' && p[i + 2] == ']' {
        if ClassAt(p, i).None? {
          ClosedNever(p, i);
        } else {
          if GoTokens(p, ClassAt(p, i).value.1).Some? {
            ReadRelated(p, ClassAt(p, i).value.1);
          }
          ClosedLater(p, i);
        }
      } else {
        ReadRelated(p, next);
        if p[i + 1] == '!' {
          BangClass(p, i);
        } else {
          SameBody(p, if p[i + 1] == '^' then i + 2 else i + 1, true);
        }
        RelatedTail(t, ClassAt(p, i).value.0, GoTokens(p, next).value, Tokens(p, next));
      }
    } else {
      ReadRelated(p, i + 1);
      var t := OneChar(p[i]);
      RelatedTail(t, t, GoTokens(p, i + 1).value, Tokens(p, i + 1));
    }
  }

  lemma NoPairs()
    ensures Related([], [])
  {
  }

  lemma AfterClass(p: string, i: nat)
    requires i < |p| && p[i] == '[' && GoClass(p, i).Some?
    ensures i + 2 < |p|
  {
  }

  // ----- The shortest names -----

  /** The name matches with every star standing for nothing. */
  predicate Fits(ts: seq<Token>, w: string)
    decreases |ts|
  {
    if ts == [] then w == ""
    else if ts[0] == Star then Fits(ts[1..], w)
    else w != "" && Accepts(ts[0], w[0]) && Fits(ts[1..], w[1..])
  }

  lemma {:induction false} ShortMatch(ts: seq<Token>, n: string, at: nat)
    requires at <= |n|
    ensures Matches(ts, n, at) ==> |n| - at >= Weight(ts)
    ensures |n| - at == Weight(ts) ==> (Matches(ts, n, at) <==> Fits(ts, n[at..]))
    decreases |ts|
  {
    if ts == [] {
      assert at == |n| <==> n[at..] == "";
    } else if ts[0] == Star {
      var rest := ts[1..];
      assert ts == [Star] + rest;
      MatchesHead(Star, rest, n, at);
      ShortMatch(rest, n, at);
      assert Matches(rest, n, at) ==> MatchesLater(rest, n, at);
      if MatchesLater(rest, n, at) {
        var k: nat :| at <= k <= |n| && Matches(rest, n, k);
        ShortMatch(rest, n, k);
      }
    } else if at < |n| {
      ShortMatch(ts[1..], n, at + 1);
      assert n[at..][1..] == n[at + 1..];
    }
  }

  lemma {:induction false} LiveWord(ts: seq<Token>) returns (w: string)
    requires !Dead(ts)
    ensures Component(w) && Fits(ts, w) && |w| == Weight(ts)
    decreases |ts|
  {
    if ts == [] {
      w := "";
    } else {
      LiveTail(ts);
      w := LiveWord(ts[1..]);
      if ts[0] != Star {
        assert AcceptsSome(ts[0]);
        var c :| c != '/' && Accepts(ts[0], c);
        w := Prepend(c, w);
      }
    }
  }

  lemma Prepend(c: char, rest: string) returns (w: string)
    requires c != '/' && Component(rest)
    ensures w == [c] + rest && w[0] == c && w[1..] == rest && Component(w)
  {
    w := [c] + rest;
  }

  lemma LiveTail(ts: seq<Token>)
    requires ts != [] && !Dead(ts)
    ensures !Dead(ts[1..])
  {
    var tail := ts[1..];
    forall i | 0 <= i < |tail| ensures tail[i] == Star || AcceptsSome(tail[i]) {
      assert ts[i + 1] == tail[i];
    }
  }

  /** No component matches a dead pattern. */
  lemma {:induction false} DeadMatchesNothing(ts: seq<Token>, n: string, at: nat)
    requires at <= |n| && Component(n) && Dead(ts)
    ensures !Matches(ts, n, at)
    decreases |ts|
  {
    var i :| 0 <= i < |ts| && ts[i] != Star && !AcceptsSome(ts[i]);
    if i > 0 {
      assert ts[1..][i - 1] == ts[i];
      forall k: nat | at <= k <= |n| ensures !Matches(ts[1..], n, k) {
        DeadMatchesNothing(ts[1..], n, k);
      }
    } else if at < |n| {
      assert !Accepts(ts[0], n[at]);
    }
  }

  /** Two live readings that differ are told apart by one of the shortest names. */
  lemma {:induction false} Distinguish(a: seq<Token>, b: seq<Token>) returns (w: string)
    requires Paired(a, b) && a != b && !Dead(a) && !Dead(b)
    ensures Component(w) && |w| == Weight(a) == Weight(b) && Fits(a, w) != Fits(b, w)
    decreases |a|
  {
    PairedWeight(a, b);
    LiveTail(a);
    LiveTail(b);
    if a[0] == b[0] {
      assert a == [a[0]] + a[1..] && b == [b[0]] + b[1..];
      w := Distinguish(a[1..], b[1..]);
      if a[0] != Star {
        assert AcceptsSome(a[0]);
        var c :| c != '/' && Accepts(a[0], c);
        w := Prepend(c, w);
      }
    } else {
      assert Differ(a[0], b[0]);
      var c :| c != '/' && Accepts(a[0], c) != Accepts(b[0], c);
      w := LiveWord(if Accepts(a[0], c) then a[1..] else b[1..]);
      w := Prepend(c, w);
    }
  }

  /** A name that fits has, counted from its end, the character each element asks for. */
  lemma {:induction false} CountedFromTheEnd(ts: seq<Token>, i: nat, w: string)
    requires i < |ts| && ts[i] != Star && Fits(ts, w)
    ensures |w| > Weight(ts[i + 1..]) && Accepts(ts[i], w[|w| - 1 - Weight(ts[i + 1..])])
    decreases i
  {
    if i == 0 {
      FitsWeight(ts[1..], w[1..]);
    } else {
      assert ts[1..][i - 1] == ts[i] && ts[1..][i..] == ts[i + 1..];
      if ts[0] == Star {
        CountedFromTheEnd(ts[1..], i - 1, w);
      } else {
        CountedFromTheEnd(ts[1..], i - 1, w[1..]);
      }
    }
  }

  lemma {:induction false} FitsWeight(ts: seq<Token>, w: string)
    requires Fits(ts, w)
    ensures |w| == Weight(ts)
    decreases |ts|
  {
    if ts != [] {
      FitsWeight(ts[1..], if ts[0] == Star then w else w[1..]);
    }
  }

  lemma NotBoth(a: seq<Token>, b: seq<Token>, w: string)
    requires EndsApart(a, b) && Fits(a, w)
    ensures !Fits(b, w)
  {
    var i, j :| 0 <= i < |a| && 0 <= j < |b| && EndsAt(a, b, i, j);
    hide Fits, Weight;
    AsksFor(a, i, w, '!', Weight(a[i + 1..]));
    if Fits(b, w) {
      AsksFor(b, j, w, ']', Weight(a[i + 1..]));
    }
  }

  lemma AsksFor(ts: seq<Token>, i: nat, w: string, c: char, fromEnd: nat)
    requires i < |ts| && Fits(ts, w) && fromEnd == Weight(ts[i + 1..])
    requires ts[i] == Literal(c) || (ts[i] == ONLY_BANG && c == '!')
    ensures fromEnd < |w| && w[|w| - 1 - fromEnd] == c
  {
    hide Fits, Weight;
    CountedFromTheEnd(ts, i, w);
  }

  /** Two related live readings that are not the same have different shortest names. */
  lemma ToldApart(a: seq<Token>, b: seq<Token>) returns (w: string)
    requires Related(a, b) && a != b && !Dead(a) && !Dead(b)
    ensures Component(w) && Matches(a, w, 0) != Matches(b, w, 0)
  {
    if Weight(a) > Weight(b) {
      w := LiveWord(b);
    } else if Weight(a) < Weight(b) || EndsApart(a, b) {
      w := LiveWord(a);
      if EndsApart(a, b) {
        NotBoth(a, b, w);
      }
    } else {
      w := Distinguish(a, b);
    }
    assert w[0..] == w;
    ShortMatch(a, w, 0);
    ShortMatch(b, w, 0);
  }

  // ----- The exact condition -----

  ghost predicate AgreeOnComponents(p: string) {
    forall n | Component(n) :: Go(p, n) == Some(Glob.Glob(p, n))
  }

  /** What Go accepts and reads as the matcher does, or what neither can match at all. */
  ghost predicate Alignable(p: string) {
    GoTokens(p, 0).Some? && (!BangLed(p, 0) || (Dead(GoTokens(p, 0).value) && Dead(Tokens(p, 0))))
  }

  /** The promised alignment holds, for every pattern without escapes, exactly under that condition. */
  lemma AlignedIff(p: string)
    requires Unescaped(p)
    ensures AgreeOnComponents(p) <==> Alignable(p)
  {
    if Alignable(p) {
      AlignedIf(p);
    } else if GoTokens(p, 0).None? {
      Refused(p, "");
    } else {
      var w := TellingName(p);
      assert Go(p, w) != Some(Glob.Glob(p, w));
    }
  }

  lemma AlignedIf(p: string)
    requires Unescaped(p) && Alignable(p)
    ensures AgreeOnComponents(p)
  {
    forall n | Component(n) ensures Go(p, n) == Some(Glob.Glob(p, n)) {
      if !BangLed(p, 0) {
        Agreement(p, n);
      } else {
        SameMeaning(GoTokens(p, 0).value, n, 0);
        DeadMatchesNothing(GoTokens(p, 0).value, n, 0);
        DeadMatchesNothing(Tokens(p, 0), n, 0);
      }
    }
  }

  /** A pattern that is malformed for Go is answered by the matcher on every name. */
  lemma Refused(p: string, n: string)
    requires GoTokens(p, 0).None?
    ensures Go(p, n) == None != Some(Glob.Glob(p, n))
  {
  }

  lemma TellingName(p: string) returns (w: string)
    requires Unescaped(p) && GoTokens(p, 0).Some? && !Alignable(p)
    ensures Component(w) && Go(p, w) != Some(Glob.Glob(p, w))
  {
    var a, b := GoTokens(p, 0).value, Tokens(p, 0);
    ReadRelated(p, 0);
    ReadAlikeUnescaped(p, 0);
    if !Dead(a) && !Dead(b) {
      w := ToldApart(a, b);
    } else {
      w := LiveWord(if Dead(a) then b else a);
      DeadMatchesNothing(if Dead(a) then a else b, w, 0);
      assert w[0..] == w;
      ShortMatch(if Dead(a) then b else a, w, 0);
    }
    SameMeaning(a, w, 0);
  }

  // ----- Patterns with escapes -----

  /** The readings are the same up to the element at `k`, where one accepts a character of a component that the
      other does not. */
  ghost predicate FirstApart(a: seq<Token>, b: seq<Token>, k: nat) {
    k < |a| && k < |b| && a[..k] == b[..k] && Differ(a[k], b[k])
  }

  /** A shortest name with a chosen character where the element at `k` stands. */
  lemma {:induction false} WordWith(ts: seq<Token>, k: nat, c: char) returns (w: string)
    requires !Dead(ts) && k < |ts| && ts[k] != Star && Accepts(ts[k], c) && c != '/'
    ensures Component(w) && Fits(ts, w) && Weight(ts[..k]) < |w| && w[Weight(ts[..k])] == c
    decreases |ts|
  {
    LiveTail(ts);
    if k == 0 {
      w := LiveWord(ts[1..]);
      w := Prepend(c, w);
    } else {
      assert ts[..k][1..] == ts[1..][..k - 1] && ts[..k][0] == ts[0];
      w := WordWith(ts[1..], k - 1, c);
      if ts[0] != Star {
        assert AcceptsSome(ts[0]);
        var c0 :| c0 != '/' && Accepts(ts[0], c0);
        w := Prepend(c0, w);
      }
    }
  }

  /** A name that fits has, where the element at `k` stands, a character that the element accepts. */
  lemma {:induction false} CountedFromTheStart(ts: seq<Token>, k: nat, w: string)
    requires k < |ts| && ts[k] != Star && Fits(ts, w)
    ensures Weight(ts[..k]) < |w| && Accepts(ts[k], w[Weight(ts[..k])])
    decreases |ts|
  {
    if k > 0 {
      assert ts[..k][1..] == ts[1..][..k - 1] && ts[..k][0] == ts[0];
      CountedFromTheStart(ts[1..], k - 1, if ts[0] == Star then w else w[1..]);
    }
  }

  lemma DifferAt(a: seq<Token>, b: seq<Token>, k: nat, c: char) returns (w: string)
    requires !Dead(a) && FirstApart(a, b, k) && c != '/' && Accepts(a[k], c) && !Accepts(b[k], c)
    ensures Component(w) && Fits(a, w) && !Fits(b, w)
  {
    w := WordWith(a, k, c);
    if Fits(b, w) {
      CountedFromTheStart(b, k, w);
    }
  }

  lemma ApartFromTheStart(a: seq<Token>, b: seq<Token>, k: nat) returns (w: string)
    requires FirstApart(a, b, k) && !Dead(a) && !Dead(b)
    ensures Component(w) && Matches(a, w, 0) != Matches(b, w, 0)
  {
    if Weight(a) != Weight(b) {
      w := LiveWord(if Weight(a) < Weight(b) then a else b);
    } else {
      var c :| c != '/' && Accepts(a[k], c) != Accepts(b[k], c);
      if Accepts(a[k], c) {
        w := DifferAt(a, b, k, c);
      } else {
        w := DifferAt(b, a, k, c);
      }
    }
    assert w[0..] == w;
    if Fits(a, w) {
      FitsWeight(a, w);
    }
    if Fits(b, w) {
      FitsWeight(b, w);
    }
    ShortMatch(a, w, 0);
    ShortMatch(b, w, 0);
  }

  /** Every pattern, escapes included: where the first unlike elements of two live readings differ in a
      character of a component, some component tells the matcher from Go. */
  lemma ApartIf(p: string, k: nat)
    requires GoTokens(p, 0).Some? && FirstApart(GoTokens(p, 0).value, Tokens(p, 0), k)
    requires !Dead(GoTokens(p, 0).value) && !Dead(Tokens(p, 0))
    ensures !AgreeOnComponents(p)
  {
    var a, b := GoTokens(p, 0).value, Tokens(p, 0);
    var w := ApartFromTheStart(a, b, k);
    SameMeaning(a, w, 0);
    assert Go(p, w) != Some(Glob.Glob(p, w));
  }

  /** So it is for an escape in front of anything but a backslash, outside classes, when nothing before it is
      read unlike. */
  lemma EscapeParts(p: string, k: nat)
    requires GoTokens(p, 0).Some? && !Dead(GoTokens(p, 0).value) && !Dead(Tokens(p, 0))
    requires var a, b := GoTokens(p, 0).value, Tokens(p, 0);
             k < |a| && k < |b| && a[..k] == b[..k] && a[k].Literal? && b[k] == BACKSLASH && a[k] != b[k]
    ensures !AgreeOnComponents(p)
  {
    var a, b := GoTokens(p, 0).value, Tokens(p, 0);
    assert Accepts(a[k], '\\') != Accepts(b[k], '\\');
    ApartIf(p, k);
  }

  // ----- Inputs on which they part -----

  /** `*` crosses a separator, which no file name holds. */
  lemma StarCrosses()
    ensures Go("*", "a/b") == Some(false) && Glob.Glob("*", "a/b")
  {
    var p, n := "*", "a/b";
    assert n[1] == '/';
    assert Tokens(p, 0) == [Star] && GoTokens(p, 0) == Some([Star]);
    assert [Star][1..] == [];
    assert Matches([], n, 3);
  }

  /** `[!a]` is a choice of two characters for Go, and everything but `a` for the matcher. */
  lemma BangNegates()
    ensures Go("[!a]", "b") == Some(false) && Glob.Glob("[!a]", "b")
  {
    var p, n := "[!a]", "b";
    var a := Range('a', 'a');
    assert [a] + [] == [a] && [Range('!', '!')] + [a] == [Range('!', '!'), a];
    assert Body(p, 3, false) == Some(([], 4));
    assert Body(p, 2, false) == Some(([a], 4));
    assert Body(p, 1, true) == Some(([Range('!', '!'), a], 4));
    assert ClassBody(p, 3, false) == Some(([], 4));
    assert ClassBody(p, 2, true) == Some(([a], 4));
    assert GoTokens(p, 4) == Some([]) && Tokens(p, 4) == [];
    var go, own := Class(false, [Range('!', '!'), a]), Class(true, [a]);
    assert GoClass(p, 0) == Some((go, 4)) && ClassAt(p, 0) == Some((own, 4));
    assert [go] + [] == [go] && [own] + [] == [own];
    assert GoTokens(p, 0) == Some([go]) && Tokens(p, 0) == [own];
    assert [own][1..] == [];
  }

  /** A class that starts with `]` or holds a bare `-` is malformed for Go, and so is one that never closes. */
  lemma Malformed(n: string)
    ensures Go("[]a]", n) == Go("[-a]", n) == Go("[a-]", n) == Go("a[b", n) == None
  {
    assert Member("[]a]", 1) == None && Member("[-a]", 1) == None;
    assert Member("[a-]", 3) == None;
    assert Member("a[b", 2) == None;
    assert GoTokens("a[b", 1) == None;
  }

  /** An escape is one character for Go and two for the matcher. */
  lemma EscapeIsLiteral()
    ensures Go("\\*", "*") == Some(true) && !Glob.Glob("\\*", "*")
  {
    var p, n := "\\*", "*";
    assert [Literal('*')] + [] == [Literal('*')] && [Literal('\\'), Star] == [Literal('\\')] + ([Star] + []);
    assert GoTokens(p, 2) == Some([]);
    assert GoTokens(p, 0) == Some([Literal('*')]);
    assert Tokens(p, 2) == [] && Tokens(p, 1) == [Star] && Tokens(p, 0) == [Literal('\\'), Star];
    assert [Literal('*')][1..] == [];
  }

  lemma OneClass(u: Token, v: Token, n: string, at: nat)
    requires at <= |n| && u.Class? && v.Class? && forall c :: Accepts(u, c) == Accepts(v, c)
    ensures Matches([u], n, at) == Matches([v], n, at)
  {
    assert [u][1..] == [] == [v][1..];
  }

  /** A doubled backslash in a class: two members for the matcher, one for Go, and the same characters. */
  lemma EscapesCanAgree()
    ensures !Unescaped("[\\\\a]") && AgreeOnComponents("[\\\\a]")
  {
    var p := "[\\\\a]";
    assert p[1] == '\\';
    var a := Range('a', 'a');
    DoubledGo(p);
    DoubledOwn(p);
    var go, own := Class(false, [BACK, a]), Class(false, [BACK, BACK, a]);
    forall c ensures Accepts(go, c) == Accepts(own, c) {
      InPrepended(BACK, [BACK, a], c);
      InPrepended(BACK, [a], c);
      assert [BACK] + [BACK, a] == [BACK, BACK, a] && [BACK] + [a] == [BACK, a];
    }
    forall n | Component(n) ensures Go(p, n) == Some(Glob.Glob(p, n)) {
      SameMeaning([go], n, 0);
      OneClass(go, own, n, 0);
    }
  }

  lemma DoubledGo(p: string)
    requires p == "[\\\\a]"
    ensures GoTokens(p, 0) == Some([Class(false, [BACK, Range('a', 'a')])])
  {
    var a := Range('a', 'a');
    assert Body(p, 4, false) == Some(([], 5));
    assert [a] + [] == [a] && [BACK] + [a] == [BACK, a];
    assert Body(p, 3, false) == Some(([a], 5));
    assert Body(p, 1, true) == Some(([BACK, a], 5));
    assert GoTokens(p, 5) == Some([]) && [Class(false, [BACK, a])] + [] == [Class(false, [BACK, a])];
  }

  lemma DoubledOwn(p: string)
    requires p == "[\\\\a]"
    ensures Tokens(p, 0) == [Class(false, [BACK, BACK, Range('a', 'a')])]
  {
    var a := Range('a', 'a');
    assert ClassBody(p, 4, false) == Some(([], 5));
    assert [a] + [] == [a] && [BACK] + [a] == [BACK, a] && [BACK] + [BACK, a] == [BACK, BACK, a];
    assert ClassBody(p, 3, false) == Some(([a], 5));
    assert ClassBody(p, 2, false) == Some(([BACK, a], 5));
    assert ClassBody(p, 1, true) == Some(([BACK, BACK, a], 5));
    assert Tokens(p, 5) == [] && [Class(false, [BACK, BACK, a])] + [] == [Class(false, [BACK, BACK, a])];
  }
}
