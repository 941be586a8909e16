/** Splitting and joining of sequences, `split` and `join` of the Rust standard library. */
module Seqs {
  import opened Common

  /** The parts between the separators; always at least one. */
  function Split<T(==)>(s: seq<T>, sep: T): (parts: seq<seq<T>>)
    ensures |parts| > 0 && forall p :: p in parts ==> sep !in p
  {
    if s == [] then [[]]
    else if s[0] == sep then [[]] + Split(s[1..], sep)
    else
      var rest := Split(s[1..], sep);
      [[s[0]] + rest[0]] + rest[1..]
  }

  function Join<T>(parts: seq<seq<T>>, sep: seq<T>): seq<T> {
    if parts == [] then []
    else if |parts| == 1 then parts[0]
    else parts[0] + sep + Join(parts[1..], sep)
  }

  lemma JoinEmptyFirst<T>(rest: seq<seq<T>>, sep: seq<T>)
    requires rest != []
    ensures Join([[]] + rest, sep) == sep + Join(rest, sep)
  {
    assert ([[]] + rest)[1..] == rest;
  }

  lemma JoinLonger<T>(x: T, rest: seq<seq<T>>, sep: seq<T>)
    requires rest != []
    ensures Join([[x] + rest[0]] + rest[1..], sep) == [x] + Join(rest, sep)
  {
    var parts := [[x] + rest[0]] + rest[1..];
    assert parts[0] == [x] + rest[0] && parts[1..] == rest[1..];
  }

  lemma {:induction false} JoinSplit<T>(s: seq<T>, sep: T)
    ensures Join(Split(s, sep), [sep]) == s
  {
    if s != [] {
      JoinSplit(s[1..], sep);
      var rest := Split(s[1..], sep);
      if s[0] == sep {
        hide Split;
        JoinEmptyFirst(rest, [sep]);
        assert [sep] + s[1..] == s;
      } else {
        hide Split;
        JoinLonger(s[0], rest, [sep]);
        assert [s[0]] + s[1..] == s;
      }
    }
  }

  /** A part without separators, followed by more. */
  lemma {:induction false} SplitHead<T>(p: seq<T>, sep: T, rest: seq<T>)
    requires sep !in p
    ensures Split(p, sep) == [p]
    ensures Split(p + [sep] + rest, sep) == [p] + Split(rest, sep)
  {
    var s := p + [sep] + rest;
    if p == [] {
      assert s[1..] == rest;
    } else {
      SplitHead(p[1..], sep, rest);
      assert s[1..] == p[1..] + [sep] + rest;
      assert [p[0]] + p[1..] == p;
    }
  }

  lemma {:induction false} SplitJoin<T>(parts: seq<seq<T>>, sep: T)
    requires |parts| > 0 && forall p :: p in parts ==> sep !in p
    ensures Split(Join(parts, [sep]), sep) == parts
  {
    hide Split;
    SplitHead(parts[0], sep, Join(parts[1..], [sep]));
    if |parts| > 1 {
      SplitJoin(parts[1..], sep);
      assert [parts[0]] + parts[1..] == parts;
    } else {
      assert parts == [parts[0]];
    }
  }

  /** `split_once`: the text before and after the first separator. */
  function SplitOnce<T(==)>(s: seq<T>, sep: T): (r: Option<(seq<T>, seq<T>)>)
    ensures r.None? <==> sep !in s
    ensures r.Some? ==> s == r.value.0 + [sep] + r.value.1 && sep !in r.value.0
  {
    if s == [] then None
    else if s[0] == sep then Some(([], s[1..]))
    else
      match SplitOnce(s[1..], sep)
      case None => None
      case Some((a, b)) => Some(([s[0]] + a, b))
  }

  lemma {:induction false} SplitOnceAt<T>(a: seq<T>, sep: T, b: seq<T>)
    requires sep !in a
    ensures SplitOnce(a + [sep] + b, sep) == Some((a, b))
  {
    var s := a + [sep] + b;
    if a == [] {
      assert s[1..] == b;
    } else {
      assert s[1..] == a[1..] + [sep] + b && [a[0]] + a[1..] == a;
      SplitOnceAt(a[1..], sep, b);
    }
  }

  /** Text without separators in front belongs to the first part. */
  lemma {:induction false} SplitInFront<T>(l: seq<T>, s: seq<T>, sep: T)
    requires sep !in l
    ensures Split(l + s, sep) == [l + Split(s, sep)[0]] + Split(s, sep)[1..]
  {
    hide Split;
    if l == [] {
      assert l + s == s && l + Split(s, sep)[0] == Split(s, sep)[0];
    } else {
      SplitInFront(l[1..], s, sep);
      assert l + s == [l[0]] + (l[1..] + s);
      SplitOther(l[0], l[1..] + s, sep);
      assert [l[0]] + (l[1..] + Split(s, sep)[0]) == l + Split(s, sep)[0];
    }
  }

  lemma SplitOther<T>(x: T, s: seq<T>, sep: T)
    requires x != sep
    ensures Split([x] + s, sep) == [[x] + Split(s, sep)[0]] + Split(s, sep)[1..]
  {
    assert ([x] + s)[1..] == s;
  }

  lemma SplitAtSep<T>(s: seq<T>, sep: T)
    ensures Split([sep] + s, sep) == [[]] + Split(s, sep)
  {
    assert ([sep] + s)[1..] == s;
  }

  /** Text without separators at the end belongs to the last part. */
  lemma {:induction false} SplitBehind<T>(s: seq<T>, r: seq<T>, sep: T)
    requires sep !in r
    ensures var parts, n := Split(s, sep), |Split(s, sep)| - 1;
            Split(s + r, sep) == parts[..n] + [parts[n] + r]
  {
    hide Split;
    if s == [] {
      SplitNothing(sep);
      SplitHead(r, sep, []);
      assert s + r == r && [] + r == r;
    } else {
      SplitBehind(s[1..], r, sep);
      var x, rest := s[0], Split(s[1..], sep);
      var n := |rest| - 1;
      assert s == [x] + s[1..] && s + r == [x] + (s[1..] + r);
      if x == sep {
        SplitAtSep(s[1..], sep);
        SplitAtSep(s[1..] + r, sep);
        LastOfMore([], rest, rest[n] + r);
      } else {
        SplitOther(x, s[1..], sep);
        SplitOther(x, s[1..] + r, sep);
        LastGrows(x, rest, r);
      }
    }
  }

  lemma SplitNothing<T>(sep: T)
    ensures Split([], sep) == [[]]
  {
  }

  lemma LastOfMore<T>(first: seq<T>, rest: seq<seq<T>>, last: seq<T>)
    requires rest != []
    ensures var n := |rest| - 1;
            [first] + (rest[..n] + [last]) == ([first] + rest)[..n + 1] + [last]
  {
  }

  lemma LastGrows<T>(x: T, rest: seq<seq<T>>, r: seq<T>)
    requires rest != []
    ensures var n, grown := |rest| - 1, rest[..|rest| - 1] + [rest[|rest| - 1] + r];
            var parts := [[x] + rest[0]] + rest[1..];
            [[x] + grown[0]] + grown[1..] == parts[..n] + [parts[n] + r]
  {
    if |rest| == 1 {
      assert [x] + (rest[0] + r) == ([x] + rest[0]) + r;
    }
  }
}
