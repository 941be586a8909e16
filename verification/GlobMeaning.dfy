/** What a pattern means, said without the matcher's own reading of it: a name matches when it can be cut
    into one stretch for each piece of the pattern. */
module GlobMeaning {
  import opened Common
  import opened Glob

  /** The pieces a pattern is written from. */
  datatype Piece =
    | AnyString
    | OneCharacter
    | Plain(c: char)
    | Set(mark: string, members: seq<Member>)

  /** A member of a set: one character, or all from the first to the last. */
  datatype Member = One(c: char) | Span(lo: char, hi: char)

  function MemberText(m: Member): string {
    match m case One(c) => [c] case Span(lo, hi) => [lo] + "-" + [hi]
  }

  function MembersText(ms: seq<Member>): string {
    if ms == [] then "" else MemberText(ms[0]) + MembersText(ms[1..])
  }

  function PieceText(x: Piece): string {
    match x
    case AnyString => "*"
    case OneCharacter => "?"
    case Plain(c) => [c]
    case Set(mark, members) => "[" + mark + MembersText(members) + "]"
  }

  function PatternText(ps: seq<Piece>): string {
    if ps == [] then "" else PieceText(ps[0]) + PatternText(ps[1..])
  }

  /** A closing bracket stands for itself only in the first place of a set, and no dash between a
      character and another one but that of a range. */
  predicate MembersOk(ms: seq<Member>, first: bool) {
    ms != [] ==>
      && MembersOk(ms[1..], false)
      && match ms[0]
         case One(c) => (c == ']' ==> first) && (Dashed(ms[1..]) ==> ms[1..] == [One('-')])
         case Span(lo, hi) => (lo == ']' ==> first) && hi != ']'
  }

  predicate Dashed(ms: seq<Member>) {
    ms != [] && Lead(ms[0]) == '-'
  }

  function Lead(m: Member): char {
    match m case One(c) => c case Span(lo, _) => lo
  }

  predicate SetOk(mark: string, members: seq<Member>) {
    && members != [] && (mark == "" || mark == "^" || mark == "!")
    && (mark == "" ==> Lead(members[0]) != '^' && Lead(members[0]) != '!')
    && MembersOk(members, true)
  }

  /** No closing bracket ends a set that would start here: a mark and the first member aside, there is
      none. */
  predicate NeverCloses(rest: string) {
    var body := if rest != "" && (rest[0] == '^' || rest[0] == '!') then rest[1..] else rest;
    body == "" || ']' !in body[1..]
  }

  /** An opening bracket stands for itself where no set starts. */
  predicate PieceOk(x: Piece, rest: string) {
    match x
    case AnyString => true
    case OneCharacter => true
    case Plain(c) => c != '*' && c != '?' && (c == '[' ==> NeverCloses(rest))
    case Set(mark, members) => SetOk(mark, members)
  }

  predicate PiecesOk(ps: seq<Piece>) {
    ps != [] ==> PieceOk(ps[0], PatternText(ps[1..])) && PiecesOk(ps[1..])
  }

  /** Which stretches of a name a piece stands for. */
  predicate Fits(x: Piece, w: string) {
    match x
    case AnyString => true
    case OneCharacter => |w| == 1
    case Plain(c) => w == [c]
    case Set(mark, members) =>
      |w| == 1 && ((exists m | m in members :: Holds(m, w[0])) != (mark != ""))
  }

  predicate Holds(m: Member, c: char) {
    match m case One(d) => c == d case Span(lo, hi) => lo <= c <= hi
  }

  function Concat(ws: seq<string>): string {
    if ws == [] then "" else ws[0] + Concat(ws[1..])
  }

  /** The name, cut into one fitting stretch for each piece. */
  predicate Cut(ps: seq<Piece>, n: string, ws: seq<string>) {
    |ws| == |ps| && n == Concat(ws) && forall i | 0 <= i < |ps| :: Fits(ps[i], ws[i])
  }

  ghost predicate CanBeCut(ps: seq<Piece>, n: string) {
    exists ws :: Cut(ps, n, ws)
  }

  // ----- The pieces are read back -----

  function TokenOf(x: Piece): Token {
    match x
    case AnyString => Star
    case OneCharacter => AnyOne
    case Plain(c) => Literal(c)
    case Set(mark, members) => Class(mark != "", RangesOf(members))
  }

  function RangeOf(m: Member): Range {
    match m case One(c) => Range(c, c) case Span(lo, hi) => Range(lo, hi)
  }

  function RangesOf(ms: seq<Member>): seq<Range> {
    if ms == [] then [] else [RangeOf(ms[0])] + RangesOf(ms[1..])
  }

  function TokensOf(ps: seq<Piece>): seq<Token> {
    if ps == [] then [] else [TokenOf(ps[0])] + TokensOf(ps[1..])
  }

  /** The pattern holds `s` at `i`. */
  predicate Has(p: string, i: nat, s: string) {
    i + |s| <= |p| && p[i..i + |s|] == s
  }

  lemma HasBoth(p: string, i: nat, a: string, b: string)
    requires Has(p, i, a + b)
    ensures Has(p, i, a) && Has(p, i + |a|, b)
  {
    var c := p[i..i + |a + b|];
    assert p[i..i + |a|] == c[..|a|] == a;
    assert p[i + |a|..i + |a| + |b|] == c[|a|..] == b;
  }

  lemma HasChar(p: string, i: nat, c: char)
    requires Has(p, i, [c])
    ensures i < |p| && p[i] == c
  {
    assert p[i..i + 1][0] == p[i];
  }

  lemma RangeStep(p: string, i: nat, first: bool, lo: char, hi: char)
    requires Has(p, i, [lo] + "-" + [hi]) && hi != ']' && (lo == ']' ==> first)
    ensures i + 3 <= |p|
    ensures ClassBody(p, i, first) == match ClassBody(p, i + 3, false)
                                      case None => None
                                      case Some((ranges, next)) => Some(([Range(lo, hi)] + ranges, next))
  {
    var s := p[i..i + 3];
    assert s[0] == p[i] && s[1] == p[i + 1] && s[2] == p[i + 2];
  }

  lemma SingleStep(p: string, i: nat, first: bool, c: char)
    requires Has(p, i, [c]) && (c == ']' ==> first)
    requires i + 2 < |p| ==> p[i + 1] != '-' || p[i + 2] == ']'
    ensures i + 1 <= |p|
    ensures ClassBody(p, i, first) == match ClassBody(p, i + 1, false)
                                      case None => None
                                      case Some((ranges, next)) => Some(([Range(c, c)] + ranges, next))
  {
    HasChar(p, i, c);
  }

  lemma JustDash(ms: seq<Member>)
    requires ms == [One('-')]
    ensures MembersText(ms) + "]" == "-]"
  {
    assert ms[1..] == [];
    hide MemberText;
    assert MembersText(ms) == MemberText(One('-')) + "";
  }

  /** After a single member, a dash comes only before the closing bracket. */
  lemma NoDashFollows(p: string, i: nat, ms: seq<Member>)
    requires Dashed(ms) ==> ms == [One('-')]
    requires Has(p, i, MembersText(ms) + "]")
    ensures i + 1 < |p| ==> p[i] != '-' || p[i + 1] == ']'
  {
    var s := MembersText(ms) + "]";
    assert s[0] == p[i..i + |s|][0] == p[i];
    if Dashed(ms) {
      JustDash(ms);
      assert p[i..i + 2][1] == p[i + 1];
    }
  }

  lemma MemberStep(p: string, i: nat, ms: seq<Member>, first: bool)
    requires ms != [] && MembersOk(ms, first) && Has(p, i, MemberText(ms[0]))
    requires Has(p, i + |MemberText(ms[0])|, MembersText(ms[1..]) + "]")
    ensures ClassBody(p, i, first) == match ClassBody(p, i + |MemberText(ms[0])|, false)
                                      case None => None
                                      case Some((ranges, next)) => Some(([RangeOf(ms[0])] + ranges, next))
  {
    hide Has, ClassBody, MembersText;
    match ms[0]
    case One(c) =>
      NoDashFollows(p, i + 1, ms[1..]);
      SingleStep(p, i, first, c);
    case Span(lo, hi) =>
      RangeStep(p, i, first, lo, hi);
  }

  lemma Inside(p: string, i: nat, s: string)
    requires Has(p, i, s)
    ensures i + |s| <= |p|
  {
  }

  lemma NextMember(ms: seq<Member>)
    requires ms != []
    ensures MembersText(ms) + "]" == MemberText(ms[0]) + (MembersText(ms[1..]) + "]")
    ensures RangesOf(ms) == [RangeOf(ms[0])] + RangesOf(ms[1..])
  {
  }

  lemma FewerMembers(ms: seq<Member>, first: bool)
    requires ms != [] && MembersOk(ms, first)
    ensures MembersOk(ms[1..], false) && |MembersText(ms)| == |MemberText(ms[0])| + |MembersText(ms[1..])|
  {
    hide MemberText;
  }

  lemma NoMembers(p: string, i: nat)
    requires Has(p, i, MembersText([]) + "]")
    ensures i <= |p| && ClassBody(p, i, false) == Some((RangesOf([]), i + |MembersText([])| + 1))
  {
    HasChar(p, i, ']');
  }

  lemma {:induction false} MembersRead(p: string, i: nat, ms: seq<Member>, first: bool)
    requires (ms != [] || !first) && MembersOk(ms, first)
    requires Has(p, i, MembersText(ms) + "]")
    ensures i <= |p| && ClassBody(p, i, first) == Some((RangesOf(ms), i + |MembersText(ms)| + 1))
    decreases |ms|
  {
    hide *;
    Inside(p, i, MembersText(ms) + "]");
    if ms == [] {
      NoMembers(p, i);
    } else {
      NextMember(ms);
      FewerMembers(ms, first);
      HasBoth(p, i, MemberText(ms[0]), MembersText(ms[1..]) + "]");
      MembersRead(p, i + |MemberText(ms[0])|, ms[1..], false);
      MemberStep(p, i, ms, first);
    }
  }

  lemma {:induction false} NeverClosed(p: string, i: nat, first: bool)
    requires i <= |p| && forall j | i <= j < |p| :: p[j] == ']' ==> j == i && first
    ensures ClassBody(p, i, first) == None
    decreases |p| - i
  {
    if i < |p| {
      NeverClosed(p, i + 1, false);
      if i + 3 <= |p| {
        NeverClosed(p, i + 3, false);
      }
    }
  }

  lemma NothingCloses(p: string, i: nat)
    requires i < |p| && NeverCloses(p[i + 1..])
    ensures ClassAt(p, i) == None
  {
    var rest := p[i + 1..];
    var from := if Negated(p, i) then i + 2 else i + 1;
    var body := if Negated(p, i) then rest[1..] else rest;
    assert Negated(p, i) <==> rest != "" && (rest[0] == '^' || rest[0] == '!');
    assert body == p[from..];
    forall j | from < j < |p| ensures p[j] != ']' {
      assert body[1..][j - from - 1] == p[j];
    }
    NeverClosed(p, from, true);
  }

  lemma SetRead(p: string, i: nat, mark: string, members: seq<Member>)
    requires SetOk(mark, members) && Has(p, i, PieceText(Set(mark, members)))
    ensures i < |p| && p[i] == '['
    ensures ClassAt(p, i) == Some((Class(mark != "", RangesOf(members)), i + |PieceText(Set(mark, members))|))
  {
    hide ClassBody, Has, MembersOk, MemberText, MembersText;
    var body := MembersText(members) + "]";
    SetText(mark, members);
    HasBoth(p, i, "[", mark + body);
    HasChar(p, i, '[');
    HasBoth(p, i + 1, mark, body);
    FirstOfMembers(members);
    MarkRead(p, i, mark, body);
    MembersRead(p, i + 1 + |mark|, members, true);
  }

  lemma SetText(mark: string, members: seq<Member>)
    ensures PieceText(Set(mark, members)) == "[" + (mark + (MembersText(members) + "]"))
  {
    hide MembersText;
  }

  lemma MarkRead(p: string, i: nat, mark: string, body: string)
    requires Has(p, i + 1, mark) && Has(p, i + 1 + |mark|, body) && body != ""
    requires mark == "" || mark == "^" || mark == "!"
    requires mark == "" ==> body[0] != '^' && body[0] != '!'
    ensures i < |p| && (Negated(p, i) <==> mark != "")
  {
    if mark == "" {
      assert body == [body[0]] + body[1..];
      HasBoth(p, i + 1, [body[0]], body[1..]);
      HasChar(p, i + 1, body[0]);
    } else {
      HasChar(p, i + 1, mark[0]);
    }
  }

  lemma FirstOfMembers(members: seq<Member>)
    requires members != []
    ensures MembersText(members) != "" && MembersText(members)[0] == Lead(members[0])
  {
  }

  lemma StarRead(p: string, i: nat)
    requires i < |p| && (p[i] == '*' || p[i] == '?')
    ensures Tokens(p, i) == [if p[i] == '*' then Star else AnyOne] + Tokens(p, i + 1)
  {
  }

  lemma PlainRead(p: string, i: nat)
    requires i < |p| && p[i] != '*' && p[i] != '?'
    requires p[i] == '[' ==> NeverCloses(p[i + 1..])
    ensures Tokens(p, i) == [Literal(p[i])] + Tokens(p, i + 1)
  {
    if p[i] == '[' {
      NothingCloses(p, i);
    }
  }

  lemma SetTokens(p: string, i: nat)
    requires i < |p| && p[i] == '[' && ClassAt(p, i).Some?
    ensures Tokens(p, i) == [ClassAt(p, i).value.0] + Tokens(p, ClassAt(p, i).value.1)
  {
    hide ClassAt;
  }

  lemma PieceRead(p: string, i: nat, ps: seq<Piece>)
    requires ps != [] && PiecesOk(ps) && i <= |p| && p[i..] == PatternText(ps)
    ensures i + |PieceText(ps[0])| <= |p| && p[i + |PieceText(ps[0])|..] == PatternText(ps[1..])
    ensures Tokens(p, i) == [TokenOf(ps[0])] + Tokens(p, i + |PieceText(ps[0])|)
  {
    hide *;
    FewerPieces(ps);
    Divided(p, i, PieceText(ps[0]), PatternText(ps[1..]));
    PieceHere(p, i, ps[0], PatternText(ps[1..]));
  }

  lemma Divided(p: string, i: nat, a: string, b: string)
    requires i <= |p| && p[i..] == a + b
    ensures i + |a| <= |p| && p[i + |a|..] == b && Has(p, i, a)
  {
    assert p[i + |a|..] == p[i..][|a|..] && p[i..i + |a|] == p[i..][..|a|];
  }

  lemma FewerPieces(ps: seq<Piece>)
    requires ps != []
    ensures PiecesOk(ps) ==> PiecesOk(ps[1..]) && PieceOk(ps[0], PatternText(ps[1..]))
    ensures PatternText(ps) == PieceText(ps[0]) + PatternText(ps[1..])
    ensures TokensOf(ps) == [TokenOf(ps[0])] + TokensOf(ps[1..])
  {
    hide PieceOk, PieceText, TokenOf;
  }

  lemma PieceHere(p: string, i: nat, x: Piece, rest: string)
    requires PieceOk(x, rest) && Has(p, i, PieceText(x)) && p[i + |PieceText(x)|..] == rest
    ensures i < |p| && Tokens(p, i) == [TokenOf(x)] + Tokens(p, i + |PieceText(x)|)
  {
    hide Tokens, ClassAt, SetOk, Has;
    Inside(p, i, PieceText(x));
    match x
    case Set(mark, members) =>
      SetRead(p, i, mark, members);
      SetTokens(p, i);
    case Plain(c) =>
      HasChar(p, i, c);
      PlainRead(p, i);
    case AnyString =>
      HasChar(p, i, '*');
      StarRead(p, i);
    case OneCharacter =>
      HasChar(p, i, '?');
      StarRead(p, i);
  }

  lemma NoPieces(p: string, i: nat)
    requires i <= |p| && p[i..] == PatternText([])
    ensures Tokens(p, i) == TokensOf([])
  {
    assert i == |p|;
  }

  lemma {:induction false} PiecesRead(p: string, i: nat, ps: seq<Piece>)
    requires PiecesOk(ps) && i <= |p| && p[i..] == PatternText(ps)
    ensures Tokens(p, i) == TokensOf(ps)
    decreases |ps|
  {
    hide *;
    if ps == [] {
      NoPieces(p, i);
    } else {
      PieceRead(p, i, ps);
      FewerPieces(ps);
      PiecesRead(p, i + |PieceText(ps[0])|, ps[1..]);
    }
  }

  // ----- The meaning -----

  lemma {:induction false} InMembers(ms: seq<Member>, c: char)
    ensures InRanges(RangesOf(ms), c) <==> exists m | m in ms :: Holds(m, c)
  {
    hide Holds, InRanges;
    if ms == [] {
      NoRanges(c);
    } else {
      InMembers(ms[1..], c);
      MoreRanges(RangeOf(ms[0]), RangesOf(ms[1..]), c);
      OneMember(ms[0], c);
      assert ms == [ms[0]] + ms[1..];
    }
  }

  lemma OneMember(m: Member, c: char)
    ensures Holds(m, c) <==> RangeOf(m).lo <= c <= RangeOf(m).hi
  {
  }

  lemma NoRanges(c: char)
    ensures !InRanges([], c)
  {
  }

  lemma MoreRanges(r: Range, rs: seq<Range>, c: char)
    ensures InRanges([r] + rs, c) <==> r.lo <= c <= r.hi || InRanges(rs, c)
  {
    if r.lo <= c <= r.hi {
      assert r in [r] + rs;
    }
    if InRanges(rs, c) {
      var x :| x in rs && x.lo <= c <= x.hi;
      assert x in [r] + rs;
    }
  }

  lemma FitsToken(x: Piece, w: string)
    requires x != AnyString
    ensures TokenOf(x) != Star
    ensures Fits(x, w) <==> |w| == 1 && Accepts(TokenOf(x), w[0])
  {
    hide InRanges;
    if x.Set? && |w| == 1 {
      InMembers(x.members, w[0]);
    }
  }

  lemma CutMore(x: Piece, w: string, ps: seq<Piece>, n: string, ws: seq<string>)
    requires Fits(x, w) && Cut(ps, n, ws)
    ensures Cut([x] + ps, w + n, [w] + ws)
  {
    hide Fits;
    assert ([w] + ws)[1..] == ws;
  }

  lemma CutFirst(ps: seq<Piece>, n: string, ws: seq<string>)
    requires ps != [] && Cut(ps, n, ws)
    ensures ws != [] && Fits(ps[0], ws[0]) && Cut(ps[1..], n[|ws[0]|..], ws[1..])
    ensures |ws[0]| <= |n| && n[..|ws[0]|] == ws[0]
  {
    hide Fits;
    assert n == ws[0] + Concat(ws[1..]);
  }

  lemma {:induction false} MeaningFrom(ps: seq<Piece>, n: string, at: nat)
    requires at <= |n|
    ensures Matches(TokensOf(ps), n, at) <==> CanBeCut(ps, n[at..])
    decreases |ps|
  {
    if ps == [] {
      NothingCut(n[at..]);
    } else {
      forall k: nat | at <= k <= |n| {
        MeaningFrom(ps[1..], n, k);
      }
      MatchesHead(TokenOf(ps[0]), TokensOf(ps[1..]), n, at);
      hide *;
      if Matches(TokensOf(ps), n, at) {
        var k := MatchStep(ps, n, at);
        OneMoreCut(ps, n, at, k);
      }
      if CanBeCut(ps, n[at..]) {
        CutIsMatch(ps, n, at);
      }
    }
  }

  lemma NothingCut(n: string)
    ensures CanBeCut([], n) <==> n == ""
  {
    if n == "" {
      assert Cut([], n, []);
    }
  }

  lemma OneMoreCut(ps: seq<Piece>, n: string, at: nat, k: nat)
    requires ps != [] && at <= k <= |n| && Fits(ps[0], n[at..k]) && CanBeCut(ps[1..], n[k..])
    ensures CanBeCut(ps, n[at..])
  {
    hide Cut, Fits;
    var ws :| Cut(ps[1..], n[k..], ws);
    CutMore(ps[0], n[at..k], ps[1..], n[k..], ws);
    assert [ps[0]] + ps[1..] == ps && n[at..k] + n[k..] == n[at..];
  }

  lemma MatchStep(ps: seq<Piece>, n: string, at: nat) returns (k: nat)
    requires ps != [] && at <= |n| && Matches(TokensOf(ps), n, at)
    ensures at <= k <= |n| && Matches(TokensOf(ps[1..]), n, k) && Fits(ps[0], n[at..k])
  {
    hide Matches, Accepts, Fits;
    MatchesHead(TokenOf(ps[0]), TokensOf(ps[1..]), n, at);
    k := at + 1;
    if ps[0] == AnyString {
      k :| at <= k <= |n| && Matches(TokensOf(ps[1..]), n, k);
      AnyFits(n[at..k]);
    } else {
      FitsToken(ps[0], n[at..k]);
    }
  }

  lemma AnyFits(w: string)
    ensures Fits(AnyString, w)
  {
  }

  lemma CutIsMatch(ps: seq<Piece>, n: string, at: nat)
    requires ps != [] && at <= |n| && CanBeCut(ps, n[at..])
    requires forall k: nat | at <= k <= |n| :: Matches(TokensOf(ps[1..]), n, k) <==> CanBeCut(ps[1..], n[k..])
    ensures Matches(TokensOf(ps), n, at)
  {
    hide Matches, Cut, Accepts, Fits;
    MatchesHead(TokenOf(ps[0]), TokensOf(ps[1..]), n, at);
    var ws :| Cut(ps, n[at..], ws);
    CutFirst(ps, n[at..], ws);
    var k: nat := at + |ws[0]|;
    assert n[at..][|ws[0]|..] == n[k..] && n[at..][..|ws[0]|] == n[at..k];
    assert Matches(TokensOf(ps[1..]), n, k);
    if ps[0] != AnyString {
      FitsToken(ps[0], ws[0]);
    }
  }

  // ----- Every pattern is written from pieces -----

  lemma ThreeHere(p: string, i: nat)
    requires i + 2 < |p|
    ensures p[i..i + 3] == [p[i]] + [p[i + 1]] + [p[i + 2]]
  {
  }

  lemma MemberHere(p: string, i: nat, first: bool) returns (m: Member)
    requires i < |p| && (p[i] == ']' ==> first) && ClassBody(p, i, first).Some?
    ensures |MemberText(m)| > 0 && i + |MemberText(m)| <= |p| && Has(p, i, MemberText(m)) && Lead(m) == p[i]
    ensures ClassBody(p, i + |MemberText(m)|, false).Some?
    ensures ClassBody(p, i, first).value.1 == ClassBody(p, i + |MemberText(m)|, false).value.1
    ensures m.Span? ==> m.hi != ']'
    ensures m.One? && i + 2 < |p| && p[i + 1] == '-' ==> p[i + 2] == ']'
  {
    if i + 2 < |p| && p[i + 1] == '-' && p[i + 2] != ']' {
      m := Span(p[i], p[i + 2]);
      ThreeHere(p, i);
    } else {
      m := One(p[i]);
      assert p[i..i + 1] == [p[i]];
    }
  }

  /** The last dash stands alone before the closing bracket. */
  lemma LastDash(p: string, i: nat, ms: seq<Member>)
    requires MembersOk(ms, false) && Dashed(ms)
    requires Has(p, i, MembersText(ms) + "]") && i + 1 < |p| && p[i + 1] == ']'
    ensures ms == [One('-')]
  {
    var s := MembersText(ms) + "]";
    assert s[1] == p[i..i + |s|][1] == p[i + 1];
    assert ms == [ms[0]] + ms[1..];
    NextMember(ms);
    if ms[1..] != [] {
      FirstOfMembers(ms[1..]);
      LeadOk(ms[1..]);
    }
  }

  lemma LeadOk(ms: seq<Member>)
    requires ms != [] && MembersOk(ms, false)
    ensures Lead(ms[0]) != ']'
  {
  }

  lemma NoneHere(p: string, i: nat)
    requires i < |p| && p[i] == ']'
    ensures MembersOk([], false) && Has(p, i, MembersText([]) + "]") && |MembersText([])| == 0
    ensures ClassBody(p, i, false) == Some(([], i + 1))
  {
    assert p[i..i + 1] == "]";
  }

  lemma DashCloses(p: string, i: nat, m: Member, rest: seq<Member>)
    requires i + |MemberText(m)| <= |p| && MembersOk(rest, false)
    requires m.One? && i + 2 < |p| && p[i + 1] == '-' ==> p[i + 2] == ']'
    requires Has(p, i + |MemberText(m)|, MembersText(rest) + "]")
    ensures m.One? && Dashed(rest) ==> rest == [One('-')]
  {
    if m.One? && Dashed(rest) {
      FirstOfMembers(rest);
      var s := MembersText(rest) + "]";
      assert s[0] == p[i + 1..i + 1 + |s|][0] == p[i + 1];
      LastDash(p, i + 1, rest);
    }
  }

  lemma MembersJoin(p: string, i: nat, m: Member, rest: seq<Member>, first: bool)
    requires MembersOk(rest, false) && Has(p, i, MemberText(m))
    requires Has(p, i + |MemberText(m)|, MembersText(rest) + "]")
    requires (Lead(m) == ']' ==> first) && (m.Span? ==> m.hi != ']')
    requires m.One? && Dashed(rest) ==> rest == [One('-')]
    ensures MembersOk([m] + rest, first) && Has(p, i, MembersText([m] + rest) + "]")
    ensures |MembersText([m] + rest)| == |MemberText(m)| + |MembersText(rest)|
  {
    assert ([m] + rest)[1..] == rest;
    hide Has, MemberText, Dashed;
    NextMember([m] + rest);
    HasJoin(p, i, MemberText(m), MembersText(rest) + "]");
  }

  lemma HasJoin(p: string, i: nat, a: string, b: string)
    requires Has(p, i, a) && Has(p, i + |a|, b)
    ensures Has(p, i, a + b)
  {
    var end := i + |a| + |b|;
    assert p[i..end] == p[i..i + |a|] + p[i + |a|..end];
  }

  lemma {:induction false} MembersHere(p: string, i: nat, first: bool) returns (ms: seq<Member>)
    requires i <= |p| && ClassBody(p, i, first).Some?
    ensures MembersOk(ms, first) && (first ==> ms != []) && Has(p, i, MembersText(ms) + "]")
    ensures ClassBody(p, i, first).value.1 == i + |MembersText(ms)| + 1
    decreases |p| - i
  {
    hide *;
    InBody(p, i, first);
    if p[i] == ']' && !first {
      ms := [];
      NoneHere(p, i);
    } else {
      var m := MemberHere(p, i, first);
      var rest := MembersHere(p, i + |MemberText(m)|, false);
      ms := [m] + rest;
      DashCloses(p, i, m, rest);
      MembersJoin(p, i, m, rest, first);
    }
  }

  lemma InBody(p: string, i: nat, first: bool)
    requires i <= |p| && ClassBody(p, i, first).Some?
    ensures i < |p|
  {
  }

  lemma SetHere(p: string, i: nat) returns (x: Piece)
    requires i < |p| && p[i] == '[' && ClassAt(p, i).Some?
    ensures x.Set? && SetOk(x.mark, x.members) && Has(p, i, PieceText(x))
    ensures ClassAt(p, i).value.1 == i + |PieceText(x)|
  {
    hide *;
    var mark := MarkHere(p, i);
    var members := MembersHere(p, i + 1 + |mark|, true);
    x := Set(mark, members);
    var body := MembersText(members) + "]";
    CharHere(p, i);
    SetText(mark, members);
    FirstOfMembers(members);
    FirstHere(p, i + 1 + |mark|, body);
    HasJoin(p, i + 1, mark, body);
    HasJoin(p, i, "[", mark + body);
    SetFits(mark, members);
  }

  lemma MarkHere(p: string, i: nat) returns (mark: string)
    requires i < |p| && ClassAt(p, i).Some?
    ensures (mark == "" || mark == "^" || mark == "!") && Has(p, i + 1, mark)
    ensures i + 1 + |mark| < |p| && (mark == "" ==> p[i + 1] != '^' && p[i + 1] != '!')
    ensures ClassBody(p, i + 1 + |mark|, true).Some?
    ensures ClassAt(p, i).value.1 == ClassBody(p, i + 1 + |mark|, true).value.1
  {
    if Negated(p, i) {
      mark := [p[i + 1]];
      CharHere(p, i + 1);
    } else {
      mark := "";
      NothingHere(p, i + 1);
    }
  }

  lemma SetFits(mark: string, members: seq<Member>)
    requires members != [] && MembersOk(members, true) && (mark == "" || mark == "^" || mark == "!")
    requires mark == "" ==> Lead(members[0]) != '^' && Lead(members[0]) != '!'
    ensures SetOk(mark, members)
  {
  }

  lemma CharHere(p: string, i: nat)
    requires i < |p|
    ensures Has(p, i, [p[i]])
  {
    assert p[i..i + 1] == [p[i]];
  }

  lemma NothingHere(p: string, i: nat)
    requires i <= |p|
    ensures Has(p, i, "")
  {
    assert p[i..i] == "";
  }

  lemma FirstHere(p: string, i: nat, s: string)
    requires s != "" && Has(p, i, s)
    ensures i < |p| && p[i] == s[0]
  {
    assert p[i..i + |s|][0] == p[i];
  }

  /** A bracket that opens no set. */
  lemma {:induction false} BodyCloses(p: string, i: nat, first: bool, j: nat)
    requires i <= j < |p| && p[j] == ']' && (j == i ==> !first)
    ensures ClassBody(p, i, first).Some?
    decreases |p| - i
  {
    if !(p[i] == ']' && !first) {
      if i + 2 < |p| && p[i + 1] == '-' && p[i + 2] != ']' {
        BodyCloses(p, i + 3, false, j);
      } else {
        BodyCloses(p, i + 1, false, j);
      }
    }
  }

  lemma OpenHere(p: string, i: nat)
    requires i < |p| && ClassAt(p, i).None?
    ensures NeverCloses(p[i + 1..])
  {
    var rest := p[i + 1..];
    var from := if Negated(p, i) then i + 2 else i + 1;
    var body := if Negated(p, i) then rest[1..] else rest;
    assert Negated(p, i) <==> rest != "" && (rest[0] == '^' || rest[0] == '!');
    assert body == p[from..];
    if body != "" && ']' in body[1..] {
      var k :| 0 <= k < |body[1..]| && body[1..][k] == ']';
      assert p[from + 1 + k] == ']';
      BodyCloses(p, from, true, from + 1 + k);
    }
  }

  lemma PieceFound(p: string, i: nat) returns (x: Piece)
    requires i < |p|
    ensures PieceText(x) != "" && Has(p, i, PieceText(x)) && i + |PieceText(x)| <= |p|
    ensures PieceOk(x, p[i + |PieceText(x)|..])
  {
    hide ClassAt, NeverCloses, SetOk;
    if p[i] == '*' {
      x := AnyString;
      CharHere(p, i);
    } else if p[i] == '?' {
      x := OneCharacter;
      CharHere(p, i);
    } else if p[i] == '[' && ClassAt(p, i).Some? {
      x := SetHere(p, i);
    } else {
      x := Plain(p[i]);
      CharHere(p, i);
      if p[i] == '[' {
        OpenHere(p, i);
      }
    }
  }

  lemma Joined(p: string, i: nat, a: string)
    requires Has(p, i, a)
    ensures i + |a| <= |p| && p[i..] == a + p[i + |a|..]
  {
  }

  lemma {:induction false} PiecesFound(p: string, i: nat) returns (ps: seq<Piece>)
    requires i <= |p|
    ensures PiecesOk(ps) && PatternText(ps) == p[i..]
    decreases |p| - i
  {
    hide Has, PieceText, PieceOk;
    if i == |p| {
      ps := [];
    } else {
      var x := PieceFound(p, i);
      Joined(p, i, PieceText(x));
      var rest := PiecesFound(p, i + |PieceText(x)|);
      ps := [x] + rest;
      assert ps[1..] == rest;
    }
  }

  /** Every text is a pattern, written from pieces in one way at least. */
  lemma EveryPattern(p: string) returns (ps: seq<Piece>)
    ensures PiecesOk(ps) && PatternText(ps) == p
  {
    ps := PiecesFound(p, 0);
    assert p[0..] == p;
  }

  /** The whole matcher, in terms of the text of the pattern alone: the name matches when it can be cut
      into as many stretches as the pattern has pieces, a star fitting any stretch, a question mark any
      one character, a set one character that is in its ranges, or is not when the set is marked, and
      everything else itself. */
  lemma GlobIsCut(ps: seq<Piece>, n: string)
    requires PiecesOk(ps)
    ensures Glob.Glob(PatternText(ps), n) <==> exists ws :: Cut(ps, n, ws)
  {
    var p := PatternText(ps);
    assert p[0..] == p && n[0..] == n;
    PiecesRead(p, 0, ps);
    MeaningFrom(ps, n, 0);
  }

  /** For every text as pattern: its pieces decide, whichever way it is written from pieces. */
  lemma GlobExactly(p: string, n: string)
    ensures Glob.Glob(p, n) <==> exists ps, ws :: PiecesOk(ps) && PatternText(ps) == p && Cut(ps, n, ws)
  {
    hide PiecesOk, PatternText, Cut, Glob.Glob;
    var ps := EveryPattern(p);
    GlobIsCut(ps, n);
    forall qs, ws | PiecesOk(qs) && PatternText(qs) == p && Cut(qs, n, ws)
      ensures Glob.Glob(p, n)
    {
      GlobIsCut(qs, n);
    }
  }

  /** A question mark is exactly one character of any kind. */
  lemma QuestionMark(n: string)
    ensures Glob.Glob("?", n) <==> |n| == 1
  {
    var ps := [OneCharacter];
    assert ps[1..] == [] && PatternText(ps) == "?";
    GlobIsCut(ps, n);
    if |n| == 1 {
      assert [n][1..] == [] && Concat([n]) == n;
      assert Cut(ps, n, [n]);
    }
    forall ws | Cut(ps, n, ws) ensures |n| == 1 {
      assert ws[1..] == [] && Fits(ps[0], ws[0]);
      assert Concat(ws) == ws[0] + Concat(ws[1..]) == ws[0];
    }
  }
}
