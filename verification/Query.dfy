/** Query strings: percent decoding and the key-value map. */
module Query {
  import opened Common
  import opened Seqs

  /** `hex_val`. */
  function HexVal(c: char): (r: Option<nat>)
    ensures r.Some? ==> r.value < 16
  {
    if '0' <= c <= '9' then Some(c as int - '0' as int)
    else if 'a' <= c <= 'f' then Some(c as int - 'a' as int + 10)
    else if 'A' <= c <= 'F' then Some(c as int - 'A' as int + 10)
    else None
  }

  predicate EscapeAt(s: string, i: nat) {
    i + 2 < |s| && s[i] == '%' && HexVal(s[i + 1]).Some? && HexVal(s[i + 2]).Some?
  }

  function Escaped(s: string, i: nat): char
    requires EscapeAt(s, i)
  {
    (HexVal(s[i + 1]).value * 16 + HexVal(s[i + 2]).value) as char
  }

  function Decode(s: string): string {
    if s == "" then ""
    else if EscapeAt(s, 0) then [Escaped(s, 0)] + Decode(s[3..])
    else [if s[0] == '+' then ' ' else s[0]] + Decode(s[1..])
  }

  lemma EscapeDecoded(s: string, i: nat)
    requires EscapeAt(s, i)
    ensures Decode(s[i..]) == [Escaped(s, i)] + Decode(s[i + 3..])
  {
    hide HexVal;
    assert s[i..][0] == s[i] && s[i..][1] == s[i + 1] && s[i..][2] == s[i + 2];
    assert s[i..][3..] == s[i + 3..];
  }

  lemma CharDecoded(s: string, i: nat)
    requires i < |s| && !EscapeAt(s, i)
    ensures Decode(s[i..]) == [if s[i] == '+' then ' ' else s[i]] + Decode(s[i + 1..])
  {
    hide HexVal;
    assert s[i..][0] == s[i] && s[i..][1..] == s[i + 1..];
    assert i + 2 < |s| ==> s[i..][1] == s[i + 1] && s[i..][2] == s[i + 2];
  }

  lemma Onward(out: string, c: char, rest: string)
    ensures out + ([c] + rest) == (out + [c]) + rest
  {
  }

  /** `percent_decode`. */
  method PercentDecode(s: string) returns (out: string)
    ensures out == Decode(s)
  {
    hide Decode, HexVal;
    out := "";
    var i := 0;
    assert s[0..] == s && "" + Decode(s) == Decode(s);
    while i < |s|
      invariant 0 <= i <= |s| && out + Decode(s[i..]) == Decode(s)
    {
      if s[i] == '+' {
        CharDecoded(s, i);
        Onward(out, ' ', Decode(s[i + 1..]));
        out := out + [' '];
        i := i + 1;
      } else if s[i] == '%' && i + 2 < |s| {
        var h, l := HexVal(s[i + 1]), HexVal(s[i + 2]);
        if h.Some? && l.Some? {
          EscapeDecoded(s, i);
          Onward(out, Escaped(s, i), Decode(s[i + 3..]));
          out := out + [(h.value * 16 + l.value) as char];
          i := i + 3;
        } else {
          CharDecoded(s, i);
          Onward(out, s[i], Decode(s[i + 1..]));
          out := out + [s[i]];
          i := i + 1;
        }
      } else {
        CharDecoded(s, i);
        Onward(out, s[i], Decode(s[i + 1..]));
        out := out + [s[i]];
        i := i + 1;
      }
    }
    NothingLeft(s[i..]);
    assert out + "" == out;
  }

  lemma NothingLeft(s: string)
    ensures s == "" ==> Decode(s) == ""
  {
  }

  /** `c` is the hexadecimal digit of `v`, small or capital. */
  predicate Hex(c: char, v: nat) {
    v < 16 && (c == "0123456789abcdef"[v] || c == "0123456789ABCDEF"[v])
  }

  predicate IsHex(c: char) {
    '0' <= c <= '9' || 'a' <= c <= 'f' || 'A' <= c <= 'F'
  }

  /** `s` starts with a percent sign and two hexadecimal digits. */
  predicate StartsEscape(s: string) {
    |s| >= 3 && s[0] == '%' && IsHex(s[1]) && IsHex(s[2])
  }

  /** `s` starts with the escape of `c`. */
  ghost predicate StartsWith(s: string, c: char) {
    |s| >= 3 && s[0] == '%' && exists h: nat, l: nat :: Hex(s[1], h) && Hex(s[2], l) && c as int == 16 * h + l
  }

  /** `code` is a way to write `plain`: each character as itself, except that a plus sign stands for a
      space, and that a percent sign in front of two hexadecimal digits is an escape with them. */
  ghost predicate Encodes(code: string, plain: string)
    decreases |plain|
  {
    if plain == "" then code == ""
    else
      || (code != "" && code[0] == plain[0] && code[0] != '+' && !StartsEscape(code) && Encodes(code[1..], plain[1..]))
      || (code != "" && code[0] == '+' && plain[0] == ' ' && Encodes(code[1..], plain[1..]))
      || (StartsWith(code, plain[0]) && Encodes(code[3..], plain[1..]))
  }

  lemma HexDigits(c: char, v: nat)
    ensures HexVal(c) == Some(v) <==> Hex(c, v)
    ensures HexVal(c).Some? <==> IsHex(c)
  {
  }

  lemma EscapeStarts(s: string, c: char)
    ensures EscapeAt(s, 0) <==> StartsEscape(s)
    ensures StartsWith(s, c) <==> EscapeAt(s, 0) && Escaped(s, 0) == c
  {
    hide HexVal, IsHex, Hex;
    if |s| >= 3 {
      HexDigits(s[1], 0);
      HexDigits(s[2], 0);
      if EscapeAt(s, 0) {
        HexDigits(s[1], HexVal(s[1]).value);
        HexDigits(s[2], HexVal(s[2]).value);
      }
      forall h: nat, l: nat | Hex(s[1], h) && Hex(s[2], l)
        ensures HexVal(s[1]) == Some(h) && HexVal(s[2]) == Some(l)
      {
        HexDigits(s[1], h);
        HexDigits(s[2], l);
      }
    }
  }

  /** Decoding gives `plain` for exactly the texts that are a way to write it: it undoes every encoder
      that escapes `%` and `+`, and leaves percent signs that escape nothing as they are. */
  lemma {:induction false} DecodeExactly(code: string, plain: string)
    ensures Decode(code) == plain <==> Encodes(code, plain)
    decreases |plain|
  {
    hide HexVal, Escaped, StartsEscape, StartsWith, EscapeAt;
    if code != "" && plain != "" {
      EscapeStarts(code, plain[0]);
      if EscapeAt(code, 0) {
        EscapeHere(code);
        DecodeExactly(code[3..], plain[1..]);
      } else {
        DecodeExactly(code[1..], plain[1..]);
      }
    } else if plain != "" {
      NoEscape(code, plain);
    }
  }

  lemma EscapeHere(code: string)
    requires EscapeAt(code, 0)
    ensures |code| >= 3 && code[0] == '%'
  {
  }

  lemma NoEscape(code: string, plain: string)
    requires code == "" && plain != ""
    ensures !StartsWith(code, plain[0])
  {
  }

  /** Text without a plus sign and without a well-formed escape is left as it is, stray `%` included. */
  lemma {:induction false} NothingToDecode(s: string)
    requires '+' !in s && forall i | 0 <= i < |s| :: !StartsEscape(s[i..])
    ensures Decode(s) == s
  {
    if s != "" {
      assert s[0..] == s;
      EscapeStarts(s, s[0]);
      forall i | 0 <= i < |s[1..]| ensures !StartsEscape(s[1..][i..]) {
        assert s[1..][i..] == s[i + 1..];
      }
      NothingToDecode(s[1..]);
    }
  }

  // ----- The map -----

  function PairOf(part: string): (string, string) {
    match SplitOnce(part, '=')
    case Some((k, v)) => (Decode(k), Decode(v))
    case None => (Decode(part), Decode(""))
  }

  /** Later pairs replace earlier ones of the same key; empty parts are skipped. */
  function MapOf(parts: seq<string>): map<string, string> {
    if parts == [] then map[]
    else
      var before, last := MapOf(parts[..|parts| - 1]), parts[|parts| - 1];
      if last == "" then before else before[PairOf(last).0 := PairOf(last).1]
  }

  function WithoutMark(raw: string): string {
    if raw != "" && raw[0] == '?' then raw[1..] else raw
  }

  lemma NoParts(parts: seq<string>)
    ensures MapOf(parts[..0]) == map[]
  {
  }

  lemma NextPart(parts: seq<string>, i: nat)
    requires i < |parts|
    ensures var before, pair := MapOf(parts[..i]), PairOf(parts[i]);
            MapOf(parts[..i + 1]) == if parts[i] == "" then before else before[pair.0 := pair.1]
  {
    hide PairOf;
    assert parts[..i + 1][..i] == parts[..i];
  }

  /** `parse_query`. */
  method ParseQuery(raw: string) returns (out: map<string, string>)
    ensures out == MapOf(Split(WithoutMark(raw), '&'))
  {
    var parts := Split(if raw != "" && raw[0] == '?' then raw[1..] else raw, '&');
    hide Decode, SplitOnce, Split, MapOf;
    out := map[];
    NoParts(parts);
    for i := 0 to |parts|
      invariant out == MapOf(parts[..i])
    {
      NextPart(parts, i);
      if parts[i] == "" {
        continue;
      }
      var kv := SplitOnce(parts[i], '=');
      var key := if kv.Some? then kv.value.0 else parts[i];
      var value := if kv.Some? then kv.value.1 else "";
      var k := PercentDecode(key);
      var v := PercentDecode(value);
      out := out[k := v];
    }
    assert parts[..|parts|] == parts;
  }

  /** The last value given to each key. */
  function LastValues(pairs: seq<(string, string)>): map<string, string> {
    if pairs == [] then map[]
    else
      var last := pairs[|pairs| - 1];
      LastValues(pairs[..|pairs| - 1])[last.0 := last.1]
  }

  /** The part for an encoded pair. */
  function Part(code: (string, string)): string {
    code.0 + "=" + code.1
  }

  function Parts(codes: seq<(string, string)>): (parts: seq<string>)
    ensures |parts| == |codes| && forall i | 0 <= i < |codes| :: parts[i] == Part(codes[i])
  {
    seq(|codes|, i requires 0 <= i < |codes| => Part(codes[i]))
  }

  /** The pair is encoded without `&`, and its key without `=`. */
  ghost predicate PairEncoded(code: (string, string), pair: (string, string)) {
    && Encodes(code.0, pair.0) && Encodes(code.1, pair.1)
    && '&' !in code.0 && '&' !in code.1 && '=' !in code.0
  }

  lemma {:induction false} MapOfParts(codes: seq<(string, string)>, parts: seq<string>, pairs: seq<(string, string)>)
    requires |codes| == |parts| == |pairs|
    requires forall i | 0 <= i < |pairs| :: PairEncoded(codes[i], pairs[i]) && parts[i] == Part(codes[i])
    ensures MapOf(parts) == LastValues(pairs)
  {
    if pairs != [] {
      var n := |pairs| - 1;
      MapOfParts(codes[..n], parts[..n], pairs[..n]);
      assert PairEncoded(codes[n], pairs[n]);
      SplitOnceAt(codes[n].0, '=', codes[n].1);
      DecodeExactly(codes[n].0, pairs[n].0);
      DecodeExactly(codes[n].1, pairs[n].1);
    }
  }

  /** Parsing a query string made of encoded pairs gives the last value of each key: for every list of
      pairs, every encoder, with or without the leading question mark. */
  lemma QueryRoundTrip(codes: seq<(string, string)>, pairs: seq<(string, string)>, marked: bool)
    requires |codes| == |pairs| && forall i | 0 <= i < |pairs| :: PairEncoded(codes[i], pairs[i])
    requires marked || codes == [] || codes[0].0 == "" || codes[0].0[0] != '?'
    ensures var raw := (if marked then "?" else "") + Join(Parts(codes), "&");
            MapOf(Split(WithoutMark(raw), '&')) == LastValues(pairs)
  {
    var parts := Parts(codes);
    if codes == [] {
      MarkRemoved("", marked);
      NoPairs();
      return;
    }
    forall i | 0 <= i < |parts| ensures '&' !in parts[i] {
      assert PairEncoded(codes[i], pairs[i]);
    }
    SplitJoin(parts, '&');
    JoinStarts(parts);
    MarkRemoved(Join(parts, "&"), marked);
    MapOfParts(codes, parts, pairs);
  }

  lemma NoPairs()
    ensures MapOf(Split("", '&')) == map[]
  {
    assert Split("", '&') == [""] && [""][..0] == [];
  }

  lemma JoinStarts(parts: seq<string>)
    requires parts != [] && parts[0] != ""
    ensures Join(parts, "&") != "" && Join(parts, "&")[0] == parts[0][0]
  {
  }

  lemma MarkRemoved(s: string, marked: bool)
    requires marked || s == "" || s[0] != '?'
    ensures WithoutMark((if marked then "?" else "") + s) == s
  {
    assert ("?" + s)[1..] == s && "" + s == s;
  }

  // ----- What the map holds, for every query string -----

  /** The part gives `v` to the key `k`: a key, an equals sign and a value, or a key alone, which gives
      the empty value; an empty part gives nothing. */
  ghost predicate Gives(part: string, k: string, v: string) {
    part != "" && exists a, b ::
      '=' !in a && Encodes(a, k) && Encodes(b, v) && (part == a + "=" + b || (part == a && b == ""))
  }

  lemma GivesExactly(part: string, k: string, v: string)
    requires part != ""
    ensures PairOf(part) == (k, v) <==> Gives(part, k, v)
  {
    hide Decode, Encodes, SplitOnce;
    if PairOf(part) == (k, v) {
      var (a, b) := match SplitOnce(part, '=') case Some((a, b)) => (a, b) case None => (part, "");
      DecodeExactly(a, k);
      DecodeExactly(b, v);
    }
    if Gives(part, k, v) {
      var a, b :| '=' !in a && Encodes(a, k) && Encodes(b, v) && (part == a + "=" + b || (part == a && b == ""));
      DecodeExactly(a, k);
      DecodeExactly(b, v);
      if part == a + "=" + b {
        SplitOnceAt(a, '=', b);
      }
    }
  }

  /** The part at `i` is the last that gives anything to `k`, and gives it `v`. */
  ghost predicate LastGives(parts: seq<string>, i: nat, k: string, v: string) {
    i < |parts| && Gives(parts[i], k, v) && forall j, u | i < j < |parts| :: !Gives(parts[j], k, u)
  }

  ghost predicate Holds(parts: seq<string>, k: string, v: string) {
    exists i :: LastGives(parts, i, k, v)
  }

  lemma LastStep(parts: seq<string>, part: string, k: string, v: string)
    ensures Holds(parts + [part], k, v)
            <==> Gives(part, k, v) || (Holds(parts, k, v) && forall u :: !Gives(part, k, u))
  {
    hide Gives;
    var all := parts + [part];
    assert all[|parts|] == part && forall i | 0 <= i < |parts| :: all[i] == parts[i];
    if Gives(part, k, v) {
      assert LastGives(all, |parts|, k, v);
    }
    if i: nat :| LastGives(parts, i, k, v) && forall u :: !Gives(part, k, u) {
      assert LastGives(all, i, k, v);
    }
    if i: nat :| LastGives(all, i, k, v) {
      if i < |parts| {
        assert LastGives(parts, i, k, v) && forall u :: !Gives(all[|parts|], k, u);
      }
    }
  }

  lemma NeverGives(part: string, k: string)
    ensures (forall u :: !Gives(part, k, u)) <==> part == "" || PairOf(part).0 != k
    ensures forall u :: Gives(part, k, u) <==> part != "" && PairOf(part) == (k, u)
  {
    hide Gives, PairOf;
    forall u ensures Gives(part, k, u) <==> part != "" && PairOf(part) == (k, u) {
      if part != "" {
        GivesExactly(part, k, u);
      } else {
        EmptyGives(k, u);
      }
    }
    if part != "" && PairOf(part).0 == k {
      assert PairOf(part) == (k, PairOf(part).1);
    }
  }

  lemma EmptyGives(k: string, v: string)
    ensures !Gives("", k, v)
  {
  }

  lemma {:induction false} MapExactly(parts: seq<string>, k: string, v: string)
    ensures (k in MapOf(parts) && MapOf(parts)[k] == v) <==> Holds(parts, k, v)
  {
    hide Gives, PairOf, Holds;
    if parts == [] {
      NothingHeld(k, v);
    } else {
      var before, last := parts[..|parts| - 1], parts[|parts| - 1];
      MapExactly(before, k, v);
      LastStep(before, last, k, v);
      NeverGives(last, k);
      assert before + [last] == parts;
    }
  }

  lemma NothingHeld(k: string, v: string)
    ensures !Holds([], k, v)
  {
  }

  /** `parse_query` on every text: cut at the ampersands, a leading question mark aside, a key has the
      value that the last part naming it gives, and nothing else is in the map. */
  lemma QueryExactly(raw: string, parts: seq<string>, k: string, v: string)
    requires parts != [] && forall i | 0 <= i < |parts| :: '&' !in parts[i]
    requires raw == "?" + Join(parts, "&") || (raw == Join(parts, "&") && (raw == "" || raw[0] != '?'))
    ensures var out := MapOf(Split(WithoutMark(raw), '&'));
            (k in out && out[k] == v) <==> Holds(parts, k, v)
  {
    hide MapOf, Holds, Split, Join;
    MarkRemoved(Join(parts, "&"), raw == "?" + Join(parts, "&"));
    SplitJoin(parts, '&');
    assert "" + Join(parts, "&") == Join(parts, "&");
    MapExactly(parts, k, v);
  }
}
