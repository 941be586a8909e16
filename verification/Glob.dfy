/** The wildcard matcher behind `includes`: the iterative matcher that remembers
    only the last `*`, proved equal to the declarative meaning of a pattern. */
module Glob {
  import opened Common

  // ----- What a pattern means -----

  datatype Range = Range(lo: char, hi: char)

  datatype Token =
    | Star
    | AnyOne
    | Literal(c: char)
    | Class(negated: bool, ranges: seq<Range>)

  predicate InRanges(ranges: seq<Range>, c: char) {
    exists r | r in ranges :: r.lo <= c <= r.hi
  }

  /** Whether a token other than `Star` accepts the character `c`. */
  predicate Accepts(t: Token, c: char) {
    match t
    case Star => false
    case AnyOne => true
    case Literal(d) => c == d
    case Class(negated, ranges) => InRanges(ranges, c) != negated
  }

  /** The declarative meaning of the tokens against the name from `at` on: a star stands for any
      stretch (some split matches), every other token for exactly one character. */
  ghost predicate Matches(ts: seq<Token>, n: string, at: nat)
    requires at <= |n|
    decreases |ts|
  {
    if ts == [] then at == |n|
    else if ts[0] == Star then exists k: nat | at <= k <= |n| :: Matches(ts[1..], n, k)
    else at < |n| && Accepts(ts[0], n[at]) && Matches(ts[1..], n, at + 1)
  }

  ghost predicate MatchesLater(ts: seq<Token>, n: string, from: nat) {
    exists k: nat | from <= k <= |n| :: Matches(ts, n, k)
  }

  /** A pattern matches a name. */
  ghost predicate Glob(p: string, n: string) {
    Matches(Tokens(p, 0), n, 0)
  }

  /** The members of a bracket expression whose unread part starts at `i`, and the index
      after its closing bracket; None when it never closes. No tested character is involved. */
  function ClassBody(p: string, i: nat, first: bool): (r: Option<(seq<Range>, nat)>)
    requires i <= |p|
    ensures r.Some? ==> i < r.value.1 <= |p|
    decreases |p| - i
  {
    if i == |p| then None
    else if p[i] == ']' && !first then Some(([], i + 1))
    else
      var isRange := i + 2 < |p| && p[i + 1] == '-' && p[i + 2] != ']';
      var here := if isRange then Range(p[i], p[i + 2]) else Range(p[i], p[i]);
      match ClassBody(p, if isRange then i + 3 else i + 1, false)
      case None => None
      case Some((ranges, next)) => Some(([here] + ranges, next))
  }

  predicate Negated(p: string, start: nat) {
    start + 1 < |p| && (p[start + 1] == '^' || p[start + 1] == '!')
  }

  /** The bracket expression opened at `start`, as a token with the index after it. */
  function ClassAt(p: string, start: nat): (r: Option<(Token, nat)>)
    requires start < |p|
    ensures r.Some? ==> r.value.0.Class? && start + 1 < r.value.1 <= |p|
  {
    var body := ClassBody(p, if Negated(p, start) then start + 2 else start + 1, true);
    match body
    case None => None
    case Some((ranges, next)) => Some((Class(Negated(p, start), ranges), next))
  }

  /** The tokens of the pattern from index `i` on; an unclosed `[` is a literal. */
  function Tokens(p: string, i: nat): seq<Token>
    requires i <= |p|
    decreases |p| - i
  {
    if i == |p| then []
    else if p[i] == '*' then [Star] + Tokens(p, i + 1)
    else if p[i] == '?' then [AnyOne] + Tokens(p, i + 1)
    else if p[i] == '[' && ClassAt(p, i).Some? then
      [ClassAt(p, i).value.0] + Tokens(p, ClassAt(p, i).value.1)
    else [Literal(p[i])] + Tokens(p, i + 1)
  }

  // ----- Facts about the meaning -----

  lemma MatchesHead(t: Token, rest: seq<Token>, n: string, at: nat)
    requires at <= |n|
    ensures t != Star ==>
              (Matches([t] + rest, n, at) <==> at < |n| && Accepts(t, n[at]) && Matches(rest, n, at + 1))
    ensures t == Star ==> Matches([t] + rest, n, at) == MatchesLater(rest, n, at)
  {
    assert ([t] + rest)[1..] == rest;
  }

  ghost predicate StarFree(ts: seq<Token>) {
    forall i | 0 <= i < |ts| :: ts[i] != Star
  }

  /** Tokens that are not stars use up exactly one character each. */
  lemma {:induction false} StarFreeConsumes(mid: seq<Token>, rest: seq<Token>, n: string, at: nat)
    requires at <= |n| && StarFree(mid) && Matches(mid + rest, n, at)
    ensures at + |mid| <= |n| && Matches(rest, n, at + |mid|)
    decreases |mid|
  {
    if mid == [] {
      assert mid + rest == rest;
    } else {
      assert mid + rest == [mid[0]] + (mid[1..] + rest);
      MatchesHead(mid[0], mid[1..] + rest, n, at);
      StarFreeConsumes(mid[1..], rest, n, at + 1);
    }
  }

  /** Two stars in a row mean the same as one. */
  lemma DoubleStar(ts: seq<Token>, n: string, at: nat)
    requires at <= |n|
    ensures Matches([Star] + ([Star] + ts), n, at) == Matches([Star] + ts, n, at)
  {
    MatchesHead(Star, [Star] + ts, n, at);
    forall k: nat | at <= k <= |n| {
      MatchesHead(Star, ts, n, k);
    }
  }

  /** Older stars can be forgotten: once the tokens between the remembered star and the next
      one have matched at `from`, trying the older star further on finds nothing new. */
  lemma LaterStarSuffices(mid: seq<Token>, rest: seq<Token>, n: string, from: nat, k: nat)
    requires StarFree(mid) && from <= k <= |n| && from + |mid| <= |n|
    requires Matches(mid + ([Star] + rest), n, k)
    ensures Matches([Star] + rest, n, from + |mid|)
  {
    StarFreeConsumes(mid, [Star] + rest, n, k);
    MatchesHead(Star, rest, n, k + |mid|);
    MatchesHead(Star, rest, n, from + |mid|);
  }

  /** The name is used up: only stars may be left in the pattern. */
  lemma {:induction false} EmptyName(p: string, i: nat, n: string)
    requires i <= |p|
    ensures Matches(Tokens(p, i), n, |n|) <==> forall j | i <= j < |p| :: p[j] == '*'
    decreases |p| - i
  {
    if i < |p| && p[i] == '*' {
      EmptyName(p, i + 1, n);
      MatchesHead(Star, Tokens(p, i + 1), n, |n|);
    }
  }

  // ----- The matcher -----

  lemma ClassIs(p: string, start: nat, c: char)
    requires start < |p|
    ensures var body := ClassBody(p, if Negated(p, start) then start + 2 else start + 1, true);
            && (ClassAt(p, start).Some? <==> body.Some?)
            && (body.Some? ==> ClassAt(p, start).value.1 == body.value.1)
            && (body.Some? ==>
                  (Accepts(ClassAt(p, start).value.0, c) <==> InRanges(body.value.0, c) != Negated(p, start)))
  {
    hide ClassBody, InRanges;
  }

  /** One member read: what is left of the body, and whether it holds `c`. */
  lemma BodyStep(p: string, i: nat, first: bool, c: char)
    requires i < |p|
    ensures p[i] == ']' && !first ==> ClassBody(p, i, first) == Some(([], i + 1)) && !InRanges([], c)
    ensures !(p[i] == ']' && !first) ==>
              var isRange := i + 2 < |p| && p[i + 1] == '-' && p[i + 2] != ']';
              var rest := ClassBody(p, if isRange then i + 3 else i + 1, false);
              && (ClassBody(p, i, first).Some? <==> rest.Some?)
              && (rest.Some? ==> ClassBody(p, i, first).value.1 == rest.value.1)
              && (rest.Some? ==> (InRanges(ClassBody(p, i, first).value.0, c) <==>
                                  p[i] <= c <= (if isRange then p[i + 2] else p[i]) || InRanges(rest.value.0, c)))
  {
    if !(p[i] == ']' && !first) && ClassBody(p, i, first).Some? {
      var isRange := i + 2 < |p| && p[i + 1] == '-' && p[i + 2] != ']';
      var rest := ClassBody(p, if isRange then i + 3 else i + 1, false).value.0;
      InPrepended(Range(p[i], if isRange then p[i + 2] else p[i]), rest, c);
    }
  }

  lemma InPrepended(r: Range, ranges: seq<Range>, c: char)
    ensures InRanges([r] + ranges, c) <==> r.lo <= c <= r.hi || InRanges(ranges, c)
  {
    var all := [r] + ranges;
    assert all[0] == r;
    assert forall x :: x in all <==> x == r || x in ranges;
  }

  /** What is left of a body decides with what has been hit so far. */
  predicate SameClass(whole: Option<(seq<Range>, nat)>, left: Option<(seq<Range>, nat)>, hit: bool, c: char) {
    && (whole.Some? <==> left.Some?)
    && (whole.Some? ==> whole.value.1 == left.value.1)
    && (whole.Some? ==> (InRanges(whole.value.0, c) <==> hit || InRanges(left.value.0, c)))
  }

  lemma SameStart(whole: Option<(seq<Range>, nat)>, c: char)
    ensures SameClass(whole, whole, false, c)
  {
    hide InRanges;
  }

  lemma SameStep(p: string, i: nat, first: bool, whole: Option<(seq<Range>, nat)>, hit: bool, c: char)
    requires i < |p| && !(p[i] == ']' && !first) && SameClass(whole, ClassBody(p, i, first), hit, c)
    ensures var isRange := i + 2 < |p| && p[i + 1] == '-' && p[i + 2] != ']';
            var here := p[i] <= c <= if isRange then p[i + 2] else p[i];
            SameClass(whole, ClassBody(p, if isRange then i + 3 else i + 1, false), hit || here, c)
  {
    BodyStep(p, i, first, c);
    hide ClassBody, InRanges;
  }

  lemma SameEnd(p: string, i: nat, whole: Option<(seq<Range>, nat)>, hit: bool, c: char)
    requires i < |p| && p[i] == ']' && SameClass(whole, ClassBody(p, i, false), hit, c)
    ensures whole.Some? && whole.value.1 == i + 1 && (InRanges(whole.value.0, c) <==> hit)
  {
    BodyStep(p, i, false, c);
  }

  lemma SameNever(p: string, i: nat, first: bool, whole: Option<(seq<Range>, nat)>, hit: bool, c: char)
    requires i == |p| && SameClass(whole, ClassBody(p, i, first), hit, c)
    ensures whole == None
  {
  }

  /** `match_class`: what it answers and where it ends come from the pattern alone;
      the character only decides the flag. */
  method MatchClass(p: string, start: nat, c: char) returns (r: Option<(bool, nat)>)
    requires start < |p| && p[start] == '['
    ensures r.Some? <==> ClassAt(p, start).Some?
    ensures r.Some? ==> r.value == (Accepts(ClassAt(p, start).value.0, c), ClassAt(p, start).value.1)
  {
    var i := start + 1;
    var negate := i < |p| && (p[i] == '^' || p[i] == '!');
    if negate {
      i := i + 1;
    }
    ghost var whole := ClassBody(p, i, true);
    ClassIs(p, start, c);
    hide ClassBody, InRanges, SameClass, ClassAt, Accepts;
    SameStart(whole, c);
    var hit := false;
    var first := true;
    while i < |p|
      invariant start < i <= |p|
      invariant SameClass(whole, ClassBody(p, i, first), hit, c)
    {
      if p[i] == ']' && !first {
        SameEnd(p, i, whole, hit, c);
        return Some((hit != negate, i + 1));
      }
      SameStep(p, i, first, whole, hit, c);
      first := false;
      if i + 2 < |p| && p[i + 1] == '-' && p[i + 2] != ']' {
        var lo, hi := p[i], p[i + 2];
        if lo <= c && c <= hi {
          hit := true;
        }
        i := i + 3;
        continue;
      }
      if p[i] == c {
        hit := true;
      }
      i := i + 1;
    }
    SameNever(p, i, first, whole, hit, c);
    return None;
  }

  /** The most recent star: its position, and where in the name the stretch it stands for ends. */
  datatype Remembered = NoStar | StarAt(pos: nat, upTo: nat)

  /** The state of the matcher: `pi` and `ni` are where it stands in pattern and name, `star` is
      the remembered star, `mid` the tokens passed since. */
  ghost predicate Progress(p: string, n: string, pi: nat, ni: nat, star: Remembered, mid: seq<Token>)
    requires pi <= |p| && ni <= |n|
  {
    match star
    case NoStar => Glob(p, n) == Matches(Tokens(p, pi), n, ni)
    case StarAt(sp, sn) =>
      && sp < pi && sn + |mid| == ni && StarFree(mid)
      && Tokens(p, sp + 1) == mid + Tokens(p, pi)
      && Matches(Tokens(p, sp + 1), n, sn) == Matches(Tokens(p, pi), n, ni)
      && Glob(p, n) == MatchesLater(Tokens(p, sp + 1), n, sn)
  }

  /** The token at `i`, other than a star, with the index after it. */
  function TokenAt(p: string, i: nat): (r: (Token, nat))
    requires i < |p| && p[i] != '*'
    ensures i < r.1 <= |p| && r.0 != Star && Tokens(p, i) == [r.0] + Tokens(p, r.1)
  {
    if p[i] == '?' then (AnyOne, i + 1)
    else if p[i] == '[' && ClassAt(p, i).Some? then ClassAt(p, i).value
    else (Literal(p[i]), i + 1)
  }

  lemma Start(p: string, n: string)
    ensures Progress(p, n, 0, 0, NoStar, [])
  {
  }

  /** A token that accepts the next character is passed. */
  lemma Advance(p: string, n: string, pi: nat, ni: nat, star: Remembered, mid: seq<Token>)
    returns (mid': seq<Token>)
    requires pi < |p| && ni < |n| && p[pi] != '*' && Accepts(TokenAt(p, pi).0, n[ni])
    requires Progress(p, n, pi, ni, star, mid)
    ensures Progress(p, n, TokenAt(p, pi).1, ni + 1, star, mid')
  {
    hide TokenAt, Tokens, Matches, MatchesLater, Glob;
    var (t, next) := TokenAt(p, pi);
    mid' := mid + [t];
    MatchesHead(t, Tokens(p, next), n, ni);
    assert mid + ([t] + Tokens(p, next)) == (mid + [t]) + Tokens(p, next);
  }

  /** The same on tokens: `mid` leads from the older star to the newer one. */
  lemma OlderStar(mid: seq<Token>, rest: seq<Token>, n: string, from: nat)
    requires StarFree(mid) && from + |mid| <= |n|
    requires Matches(mid + ([Star] + rest), n, from) == Matches([Star] + rest, n, from + |mid|)
    ensures MatchesLater(mid + ([Star] + rest), n, from) == Matches([Star] + rest, n, from + |mid|)
  {
    hide Matches;
    var ts := mid + ([Star] + rest);
    assert Matches(ts, n, from) ==> MatchesLater(ts, n, from);
    if MatchesLater(ts, n, from) {
      var k: nat :| from <= k <= |n| && Matches(ts, n, k);
      LaterStarSuffices(mid, rest, n, from, k);
    }
  }

  lemma ForgetOlderStar(p: string, n: string, pi: nat, ni: nat, star: Remembered, mid: seq<Token>)
    requires pi < |p| && ni <= |n| && p[pi] == '*'
    requires Progress(p, n, pi, ni, star, mid)
    ensures Glob(p, n) == Matches(Tokens(p, pi), n, ni)
  {
    StarHead(p, pi);
    hide Tokens, Matches, MatchesLater, Glob, StarFree;
    if star.StarAt? {
      OlderStar(mid, Tokens(p, pi + 1), n, star.upTo);
    }
  }

  lemma {:induction false} CollapseStars(p: string, i: nat, last: nat, n: string, at: nat)
    requires i <= last < |p| && at <= |n| && forall j | i <= j <= last :: p[j] == '*'
    ensures Matches(Tokens(p, i), n, at) == Matches(Tokens(p, last), n, at)
    decreases last - i
  {
    if i < last {
      DoubleStar(Tokens(p, i + 2), n, at);
      CollapseStars(p, i + 1, last, n, at);
    }
  }

  lemma StarHead(p: string, i: nat)
    requires i < |p| && p[i] == '*'
    ensures Tokens(p, i) == [Star] + Tokens(p, i + 1)
  {
  }

  /** Just after a remembered star nothing has been passed. */
  lemma AtStar(p: string, n: string, sp: nat, sn: nat)
    requires sp < |p| && sn <= |n| && Glob(p, n) == MatchesLater(Tokens(p, sp + 1), n, sn)
    ensures Progress(p, n, sp + 1, sn, StarAt(sp, sn), [])
  {
    hide Tokens, Matches, MatchesLater, Glob;
    assert [] + Tokens(p, sp + 1) == Tokens(p, sp + 1);
  }

  /** A run of stars replaces the remembered one. */
  lemma MeetStar(p: string, n: string, pi: nat, ni: nat, star: Remembered, mid: seq<Token>, last: nat)
    requires pi <= last < |p| && ni <= |n| && forall j | pi <= j <= last :: p[j] == '*'
    requires Progress(p, n, pi, ni, star, mid)
    ensures Progress(p, n, last + 1, ni, StarAt(last, ni), [])
  {
    hide Tokens, Matches, MatchesLater, Glob, Progress;
    ForgetOlderStar(p, n, pi, ni, star, mid);
    CollapseStars(p, pi, last, n, ni);
    StarHead(p, last);
    MatchesHead(Star, Tokens(p, last + 1), n, ni);
    AtStar(p, n, last, ni);
  }

  lemma NotHere(p: string, n: string, pi: nat, ni: nat)
    requires pi <= |p| && ni < |n|
    requires pi == |p| || (p[pi] != '*' && !Accepts(TokenAt(p, pi).0, n[ni]))
    ensures !Matches(Tokens(p, pi), n, ni)
  {
    if pi < |p| {
      MatchesHead(TokenAt(p, pi).0, Tokens(p, TokenAt(p, pi).1), n, ni);
    }
  }

  /** What the matcher's state says about the pattern as a whole. */
  lemma Standing(p: string, n: string, pi: nat, ni: nat, star: Remembered, mid: seq<Token>)
    requires pi <= |p| && ni <= |n| && Progress(p, n, pi, ni, star, mid)
    ensures star.NoStar? ==> Glob(p, n) == Matches(Tokens(p, pi), n, ni)
    ensures star.StarAt? ==> star.pos < pi && star.upTo <= ni
    ensures star.StarAt? ==> Matches(Tokens(p, star.pos + 1), n, star.upTo) == Matches(Tokens(p, pi), n, ni)
    ensures star.StarAt? ==> Glob(p, n) == MatchesLater(Tokens(p, star.pos + 1), n, star.upTo)
  {
    hide Tokens, Matches, MatchesLater, Glob, StarFree;
  }

  lemma StarGoesOn(ts: seq<Token>, n: string, from: nat)
    requires from < |n| && !Matches(ts, n, from)
    ensures MatchesLater(ts, n, from) == MatchesLater(ts, n, from + 1)
  {
    hide Matches;
  }

  /** A token that rejects the next character, or a pattern used up too early, fails; the remembered
      star then takes one more character, and without one the whole pattern fails. */
  lemma Mismatch(p: string, n: string, pi: nat, ni: nat, star: Remembered, mid: seq<Token>)
    requires pi <= |p| && ni < |n|
    requires pi == |p| || (p[pi] != '*' && !Accepts(TokenAt(p, pi).0, n[ni]))
    requires Progress(p, n, pi, ni, star, mid)
    ensures star.NoStar? ==> !Glob(p, n)
    ensures star.StarAt? ==> star.pos < pi && star.upTo <= ni
    ensures star.StarAt? ==>
              Progress(p, n, star.pos + 1, star.upTo + 1, StarAt(star.pos, star.upTo + 1), [])
  {
    NotHere(p, n, pi, ni);
    hide TokenAt, Accepts, Tokens, Matches, MatchesLater, Glob, StarFree, Progress;
    TakeOneMore(p, n, pi, ni, star, mid);
  }

  lemma TakeOneMore(p: string, n: string, pi: nat, ni: nat, star: Remembered, mid: seq<Token>)
    requires pi <= |p| && ni < |n| && !Matches(Tokens(p, pi), n, ni) && Progress(p, n, pi, ni, star, mid)
    ensures star.NoStar? ==> !Glob(p, n)
    ensures star.StarAt? ==> star.pos < pi && star.upTo <= ni
    ensures star.StarAt? ==>
              Progress(p, n, star.pos + 1, star.upTo + 1, StarAt(star.pos, star.upTo + 1), [])
  {
    hide Tokens, Matches, MatchesLater, Glob, StarFree, Progress;
    Standing(p, n, pi, ni, star, mid);
    if star.StarAt? {
      StarGoesOn(Tokens(p, star.pos + 1), n, star.upTo);
      AtStar(p, n, star.pos, star.upTo + 1);
    }
  }

  lemma NoLaterStart(mid: seq<Token>, rest: seq<Token>, n: string, from: nat)
    requires StarFree(mid) && from + |mid| == |n| && Matches(mid + rest, n, from) == Matches(rest, n, |n|)
    ensures MatchesLater(mid + rest, n, from) == Matches(rest, n, |n|)
  {
    hide Matches;
    var ts := mid + rest;
    assert Matches(ts, n, from) ==> MatchesLater(ts, n, from);
    if MatchesLater(ts, n, from) {
      var k: nat :| from <= k <= |n| && Matches(ts, n, k);
      StarFreeConsumes(mid, rest, n, k);
    }
  }

  /** At the end of the name the answer is whether only stars are left: a later position of the
      remembered star would leave too few characters for the tokens already passed. */
  lemma Finish(p: string, n: string, pi: nat, star: Remembered, mid: seq<Token>)
    requires pi <= |p|
    requires Progress(p, n, pi, |n|, star, mid)
    ensures Glob(p, n) <==> forall j | pi <= j < |p| :: p[j] == '*'
  {
    EmptyName(p, pi, n);
    hide Tokens, Matches, MatchesLater, Glob, StarFree;
    if star.StarAt? {
      NoLaterStart(mid, Tokens(p, pi), n, star.upTo);
    }
  }

  /** The arms of `glob_inner` other than `*`: where the pattern goes on when the token at `pi`
      accepts `c`. */
  method Accept(p: string, pi: nat, c: char) returns (next: Option<nat>)
    requires pi < |p| && p[pi] != '*'
    ensures next.Some? <==> Accepts(TokenAt(p, pi).0, c)
    ensures next.Some? ==> next.value == TokenAt(p, pi).1
  {
    if p[pi] == '?' {
      return Some(pi + 1);
    } else if p[pi] == '[' {
      var m := MatchClass(p, pi, c);
      if m.Some? {
        return if m.value.0 then Some(m.value.1) else None;
      } else if p[pi] == c {
        return Some(pi + 1);
      }
    } else if p[pi] == c {
      return Some(pi + 1);
    }
    return None;
  }

  /** The two loops of `glob_inner` that step over a run of stars. */
  method SkipStars(p: string, i: nat) returns (j: nat)
    requires i <= |p|
    ensures i <= j <= |p| && (forall k | i <= k < j :: p[k] == '*') && (j < |p| ==> p[j] != '*')
  {
    j := i;
    while j < |p| && p[j] == '*'
      invariant i <= j <= |p| && forall k | i <= k < j :: p[k] == '*'
    {
      j := j + 1;
    }
  }

  /** `glob_inner`: true exactly when the name matches the pattern's tokens. */
  method GlobInner(p: string, n: string) returns (r: bool)
    ensures r == Glob(p, n)
  {
    hide Progress, Glob, Tokens, TokenAt, Accepts, Matches;
    var pi: nat, ni: nat := 0, 0;
    var star := NoStar;
    ghost var mid: seq<Token> := [];  // the tokens passed since the remembered star
    Start(p, n);
    while ni < |n|
      invariant pi <= |p| && ni <= |n|
      invariant star.StarAt? ==> star.pos < pi && star.upTo <= ni
      invariant Progress(p, n, pi, ni, star, mid)
      decreases if star.NoStar? then |n| + 1 else |n| - star.upTo, |p| - pi
    {
      if pi < |p| {
        if p[pi] == '*' {
          var after := SkipStars(p, pi + 1);
          MeetStar(p, n, pi, ni, star, mid, after - 1);
          star, mid := StarAt(after - 1, ni), [];
          pi := after;
          continue;
        }
        var next := Accept(p, pi, n[ni]);
        if next.Some? {
          mid := Advance(p, n, pi, ni, star, mid);
          pi, ni := next.value, ni + 1;
          continue;
        }
      }
      Mismatch(p, n, pi, ni, star, mid);
      match star {
        case StarAt(sp, sn) =>
          pi, ni := sp + 1, sn + 1;
          star, mid := StarAt(sp, sn + 1), [];
        case NoStar =>
          return false;
      }
    }
    Finish(p, n, pi, star, mid);
    pi := SkipStars(p, pi);
    return pi == |p|;
  }

  /** `glob_match`. */
  method GlobMatch(pattern: string, name: string) returns (r: bool)
    ensures r == Glob(pattern, name)
  {
    r := GlobInner(pattern, name);
  }
}
