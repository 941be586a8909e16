/** Port lists: the comma-separated form that panels show and command lines accept. */
module Ports {
  import opened Common
  import opened Seqs
  import Text
  import opened Numbers

  /** A closed interval of ports. */
  datatype PortRange = PortRange(start: nat, end: nat)

  predicate Proper(r: PortRange) {
    r.start <= r.end < 65536
  }

  predicate AllProper(rs: seq<PortRange>) {
    forall i | 0 <= i < |rs| :: Proper(rs[i])
  }

  predicate Contains(r: PortRange, port: nat) {
    r.start <= port <= r.end
  }

  /** `port_allowed`: an empty list allows everything. */
  predicate PortAllowed(allow: seq<PortRange>, port: nat) {
    allow == [] || exists r | r in allow :: Contains(r, port)
  }

  // ----- Printing -----

  function FormatOne(r: PortRange): string {
    if r.start == r.end then Digits(r.start) else Digits(r.start) + "-" + Digits(r.end)
  }

  function Formatted(rs: seq<PortRange>): (items: seq<string>)
    ensures |items| == |rs| && forall i | 0 <= i < |rs| :: items[i] == FormatOne(rs[i])
  {
    seq(|rs|, i requires 0 <= i < |rs| => FormatOne(rs[i]))
  }

  /** `format_port_ranges`. */
  function Format(rs: seq<PortRange>): string {
    Join(Formatted(rs), ",")
  }

  // ----- Parsing -----

  /** One item: a number, or two numbers in order. */
  function ParseItem(text: string): (r: Option<PortRange>)
    ensures r.Some? ==> Proper(r.value)
  {
    var parts := Split(Text.Trim(text), '-');
    if |parts| == 1 then
      match ParseUint(Text.Trim(parts[0]), 65535)
      case None => None
      case Some(a) => Some(PortRange(a, a))
    else if |parts| == 2 then
      match (ParseUint(Text.Trim(parts[0]), 65535), ParseUint(Text.Trim(parts[1]), 65535))
      case (Some(a), Some(b)) => if b < a then None else Some(PortRange(a, b))
      case _ => None
    else None
  }

  function ParseItems(items: seq<string>): (r: Option<seq<PortRange>>)
    ensures r.Some? ==> |r.value| == |items| && AllProper(r.value)
  {
    if items == [] then Some([])
    else
      match (ParseItems(items[..|items| - 1]), ParseItem(items[|items| - 1]))
      case (Some(rs), Some(r)) => Some(rs + [r])
      case _ => None
  }

  function Parse(s: string): (r: Option<seq<PortRange>>)
    ensures r.Some? ==> AllProper(r.value)
  {
    if Text.Trim(s) == "" then Some([]) else ParseItems(Split(Text.Trim(s), ','))
  }

  lemma {:induction false} BadItem(items: seq<string>, i: nat)
    requires i < |items| && ParseItem(items[i]).None?
    ensures ParseItems(items).None?
    decreases |items|
  {
    if i < |items| - 1 {
      BadItem(items[..|items| - 1], i);
    }
  }

  lemma ParseItemsStep(items: seq<string>, i: nat)
    requires i < |items| && ParseItems(items[..i]).Some? && ParseItem(items[i]).Some?
    ensures ParseItems(items[..i + 1]) == Some(ParseItems(items[..i]).value + [ParseItem(items[i]).value])
  {
    hide ParseItem;
    var longer := items[..i + 1];
    assert longer[..i] == items[..i] && longer[i] == items[i];
  }

  /** The body of the loop of `parse_port_ranges`. */
  method ParseOne(text: string) returns (r: Option<PortRange>)
    ensures r == ParseItem(text)
  {
    var item := Text.Trim(text);
    var parts := Split(item, '-');
    if |parts| == 1 {
      var n := ParseUint(Text.Trim(parts[0]), 65535);
      return if n.None? then None else Some(PortRange(n.value, n.value));
    } else if |parts| == 2 {
      var a, b := ParseUint(Text.Trim(parts[0]), 65535), ParseUint(Text.Trim(parts[1]), 65535);
      if a.None? || b.None? || b.value < a.value {
        return None;
      }
      return Some(PortRange(a.value, b.value));
    } else {
      return None;
    }
  }

  /** `parse_port_ranges`. */
  method ParsePortRanges(s: string) returns (r: Option<seq<PortRange>>)
    ensures r == Parse(s)
  {
    var out: seq<PortRange> := [];
    var trimmed := Text.Trim(s);
    if trimmed == "" {
      return Some(out);
    }
    var items := Split(trimmed, ',');
    for i := 0 to |items|
      invariant ParseItems(items[..i]) == Some(out)
    {
      var range := ParseOne(items[i]);
      if range.None? {
        BadItem(items, i);
        return None;
      }
      ParseItemsStep(items, i);
      out := out + [range.value];
    }
    assert items[..|items|] == items;
    return Some(out);
  }

  // ----- Round trip -----

  predicate Plain(s: string) {
    forall i | 0 <= i < |s| :: IsDigit(s[i]) || s[i] == '-' || s[i] == ','
  }

  lemma PlainTrim(s: string)
    requires Plain(s)
    ensures Text.Trim(s) == s
  {
    Text.TrimTight(s);
  }

  lemma FormatOnePlain(r: PortRange)
    ensures Plain(FormatOne(r)) && ',' !in FormatOne(r) && FormatOne(r) != ""
  {
  }

  lemma {:induction false} JoinPlain(items: seq<string>)
    requires forall i | 0 <= i < |items| :: Plain(items[i]) && items[i] != ""
    ensures Plain(Join(items, ",")) && (items != [] ==> Join(items, ",") != "")
  {
    if |items| > 1 {
      JoinPlain(items[1..]);
    }
  }

  lemma DigitsPlain(n: nat)
    ensures Plain(Digits(n)) && '-' !in Digits(n)
  {
  }

  lemma ParseFormatOne(r: PortRange)
    requires Proper(r)
    ensures ParseItem(FormatOne(r)) == Some(r)
  {
    hide ParseUint, Digits, Split, Plain, Value;
    hide Text.Trim;
    var a, b := Digits(r.start), Digits(r.end);
    DigitsPlain(r.start);
    DigitsPlain(r.end);
    FormatOnePlain(r);
    PlainTrim(FormatOne(r));
    PlainTrim(a);
    PlainTrim(b);
    ParseDigits(r.start, 65535);
    ParseDigits(r.end, 65535);
    SplitHead(a, '-', b);
    SplitHead(b, '-', []);
    assert [a] + [b] == [a, b];
  }

  lemma {:induction false} ParseFormatted(rs: seq<PortRange>, items: seq<string>)
    requires AllProper(rs) && |items| == |rs| && forall i | 0 <= i < |rs| :: items[i] == FormatOne(rs[i])
    ensures ParseItems(items) == Some(rs)
  {
    hide ParseItem, FormatOne;
    if rs != [] {
      var n := |rs| - 1;
      ParseFormatted(rs[..n], items[..n]);
      ParseFormatOne(rs[n]);
      assert rs[..n] + [rs[n]] == rs;
    }
  }

  /** Printing and parsing back gives the same list, for every list of proper ranges. */
  lemma ParseFormat(rs: seq<PortRange>)
    requires AllProper(rs)
    ensures Parse(Format(rs)) == Some(rs)
  {
    var items := Formatted(rs);
    forall i | 0 <= i < |items| ensures Plain(items[i]) && items[i] != "" && ',' !in items[i] {
      FormatOnePlain(rs[i]);
    }
    JoinPlain(items);
    PlainTrim(Format(rs));
    if rs != [] {
      SplitJoin(items, ',');
      ParseFormatted(rs, items);
    }
  }

  /** Printing what was parsed is a normal form: parsing it again changes neither the list nor which ports
      are allowed, and printing it again changes nothing. */
  lemma NormalForm(s: string, port: nat)
    requires Parse(s).Some?
    ensures var normal := Format(Parse(s).value);
            Parse(normal) == Parse(s) && Format(Parse(normal).value) == normal
            && (PortAllowed(Parse(normal).value, port) <==> PortAllowed(Parse(s).value, port))
  {
    ParseFormat(Parse(s).value);
  }

  // ----- What is accepted, for every text -----

  /** `t` is a port number in decimal, perhaps with white space around it. */
  ghost predicate Spells(t: string, n: nat) {
    n <= 65535 && exists l, w, r :: Text.Blank(l) && Text.Blank(r) && Writes(w, n) && t == l + w + r
  }

  /** The item is the port `a`, or the ports from `a` to `b` with a dash between. */
  ghost predicate ItemIs(t: string, a: nat, b: nat) {
    || (a == b && Spells(t, a))
    || (a <= b && exists left, right :: Spells(left, a) && Spells(right, b) && t == left + "-" + right)
  }

  lemma WrittenTight(w: string, n: nat)
    requires Writes(w, n)
    ensures w != "" && Text.Tight(w) && '-' !in w
  {
    var sign, zeros :| AllZeros(zeros) && (sign == "" || sign == "+") && w == sign + (zeros + Digits(n));
    var d := Digits(n);
    assert IsDigit(d[0]) && IsDigit(d[|d| - 1]);
    assert w[|w| - 1] == d[|d| - 1];
    hide Digits;
  }

  lemma BlankNoDash(s: string)
    requires Text.Blank(s)
    ensures '-' !in s
  {
  }

  lemma SpellsExactly(t: string, n: nat)
    ensures ParseUint(Text.Trim(t), 65535) == Some(n) <==> Spells(t, n)
    ensures Spells(t, n) ==> '-' !in t
  {
    hide ParseUint, Writes;
    hide Text.Trim, Text.Blank, Text.Tight;
    var l, r := Text.TrimParts(t);
    ParseUintExactly(Text.Trim(t), n, 65535);
    forall l, w, r | Text.Blank(l) && Text.Blank(r) && Writes(w, n) && t == l + w + r
      ensures Text.Trim(t) == w && '-' !in t
    {
      WrittenTight(w, n);
      BlankNoDash(l);
      BlankNoDash(r);
      Text.TrimExactly(l, w, r);
    }
  }

  lemma TrimAround(l: string, s: string, r: string)
    requires Text.Blank(l) && Text.Blank(r)
    ensures Text.Trim(l + s + r) == Text.Trim(s)
  {
    hide Text.Trim, Text.Tight, Text.IsWhite;
    var a, b := Text.TrimParts(s);
    Text.TrimExactly(l + a, Text.Trim(s), b + r);
    assert l + s + r == (l + a) + Text.Trim(s) + (b + r);
  }

  /** An item is accepted exactly when it is a number or an ascending pair of numbers. */
  lemma ItemExactly(t: string, a: nat, b: nat)
    ensures ParseItem(t) == Some(PortRange(a, b)) <==> ItemIs(t, a, b)
  {
    if ParseItem(t) == Some(PortRange(a, b)) {
      ItemRead(t, a, b);
    }
    if ItemIs(t, a, b) {
      if a == b && Spells(t, a) {
        OneNumber(t, a);
      } else {
        var left, right :| Spells(left, a) && Spells(right, b) && t == left + "-" + right;
        TwoNumbers(left, right, a, b);
      }
    }
  }

  lemma OneNumber(t: string, n: nat)
    requires Spells(t, n)
    ensures ParseItem(t) == Some(PortRange(n, n))
  {
    hide ParseUint, Split, Spells;
    hide Text.Trim, Text.Blank;
    SpellsExactly(t, n);
    var l, r := Text.TrimParts(t);
    SplitHead(Text.Trim(t), '-', []);
    TrimTwice(t);
  }

  lemma NothingBlank()
    ensures Text.Blank("")
  {
  }

  lemma HalfSpells(t: string, l: string, s: string, r: string, n: nat)
    requires t == l + s + r && Text.Blank(l) && Text.Blank(r) && ParseUint(Text.Trim(s), 65535) == Some(n)
    ensures Spells(t, n)
  {
    hide ParseUint, Spells;
    hide Text.Trim, Text.Blank;
    TrimAround(l, s, r);
    SpellsExactly(t, n);
  }

  lemma JoinOfTwo(a: string, b: string)
    ensures Join([a, b], ['-']) == a + "-" + b
  {
    assert [a, b][1..] == [b];
  }

  lemma ItemRead(t: string, a: nat, b: nat)
    requires ParseItem(t) == Some(PortRange(a, b))
    ensures ItemIs(t, a, b)
  {
    hide ParseUint, Split, Spells, Join;
    hide Text.Trim, Text.Blank;
    var l, r := Text.TrimParts(t);
    NothingBlank();
    var text := Text.Trim(t);
    var parts := Split(text, '-');
    JoinSplit(text, '-');
    if |parts| == 1 {
      JoinOfOne(parts);
      TrimTwice(t);
      SpellsExactly(t, a);
    } else {
      JoinOfTwo(parts[0], parts[1]);
      assert parts == [parts[0], parts[1]];
      var left, right := l + parts[0], parts[1] + r;
      assert left == l + parts[0] + "" && right == "" + parts[1] + r;
      HalfSpells(left, l, parts[0], "", a);
      HalfSpells(right, "", parts[1], r, b);
      assert t == left + "-" + right;
    }
  }

  lemma JoinOfOne(parts: seq<string>)
    requires |parts| == 1
    ensures Join(parts, ['-']) == parts[0]
  {
  }

  lemma TwoParts(a: string, b: string)
    requires '-' !in a && '-' !in b
    ensures Split(a + "-" + b, '-') == [a, b]
  {
    hide Split;
    SplitHead(a, '-', b);
    SplitHead(b, '-', []);
    assert [a] + [b] == [a, b];
  }

  lemma TwoNumbers(left: string, right: string, a: nat, b: nat)
    requires Spells(left, a) && Spells(right, b) && a <= b
    ensures ParseItem(left + "-" + right) == Some(PortRange(a, b))
  {
    hide ParseUint, Split, Writes;
    hide Text.Trim, Text.Blank, Text.Tight, Text.IsWhite;
    var l, w, r :| Text.Blank(l) && Text.Blank(r) && Writes(w, a) && left == l + w + r;
    var l', w', r' :| Text.Blank(l') && Text.Blank(r') && Writes(w', b) && right == l' + w' + r';
    WrittenTight(w, a);
    WrittenTight(w', b);
    var first, second := w + r, l' + w';
    BlankNoDash(r);
    BlankNoDash(l');
    var text := first + "-" + second;
    TightBetween(w, r + "-" + l', w');
    assert text == w + (r + "-" + l') + w';
    Text.TrimExactly(l, text, r');
    assert left + "-" + right == l + text + r';
    TwoParts(first, second);
    NothingBlank();
    assert first == "" + w + r && second == l' + w' + "";
    Text.TrimExactly("", w, r);
    Text.TrimExactly(l', w', "");
    ParseUintExactly(w, a, 65535);
    ParseUintExactly(w', b, 65535);
  }

  lemma TightBetween(a: string, between: string, b: string)
    requires a != "" && b != "" && Text.Tight(a) && Text.Tight(b)
    ensures Text.Tight(a + between + b)
  {
    var s := a + between + b;
    assert s[0] == a[0] && s[|s| - 1] == b[|b| - 1];
  }

  lemma TrimTwice(t: string)
    ensures Text.Trim(Text.Trim(t)) == Text.Trim(t)
  {
    var l, r := Text.TrimParts(t);
    Text.TrimTight(Text.Trim(t));
  }

  lemma {:induction false} ItemsExactly(items: seq<string>, rs: seq<PortRange>)
    ensures ParseItems(items) == Some(rs)
            <==> |rs| == |items| && forall i | 0 <= i < |items| :: ParseItem(items[i]) == Some(rs[i])
  {
    hide ParseItem;
    if items != [] && rs != [] {
      var n := |items| - 1;
      ItemsExactly(items[..n], rs[..|rs| - 1]);
      assert rs == rs[..|rs| - 1] + [rs[|rs| - 1]];
      assert forall i | 0 <= i < n :: items[..n][i] == items[i];
    }
  }

  lemma SameItem(l: string, s: string, r: string)
    requires Text.Blank(l) && Text.Blank(r)
    ensures ParseItem(l + s + r) == ParseItem(s)
  {
    TrimAround(l, s, r);
  }

  lemma BlankNoComma(s: string)
    requires Text.Blank(s)
    ensures ',' !in s
  {
  }

  /** Trimming the list takes nothing from its items that reading them would not ignore. */
  lemma SameItems(s: string, i: nat)
    ensures var parts, items := Split(Text.Trim(s), ','), Split(s, ',');
            |parts| == |items| && (i < |items| ==> ParseItem(parts[i]) == ParseItem(items[i]))
  {
    hide ParseItem, Split;
    hide Text.Trim, Text.Blank;
    var l, r := Text.TrimParts(s);
    BlankNoComma(l);
    BlankNoComma(r);
    NothingBlank();
    var t := Text.Trim(s);
    var parts, longer := Split(t, ','), Split(l + t, ',');
    SplitInFront(l, t, ',');
    SplitBehind(l + t, r, ',');
    if i < |parts| {
      var before, after := if i == 0 then l else "", if i == |parts| - 1 then r else "";
      SameItem(before, parts[i], after);
      assert before + parts[i] + after == longer[i] + after == Split(s, ',')[i];
    }
  }

  /** A list of items, a comma between each two. */
  ghost predicate ListIs(s: string, rs: seq<PortRange>) {
    exists items :: ItemsAre(items, rs) && s == Join(items, ",")
  }

  ghost predicate ItemsAre(items: seq<string>, rs: seq<PortRange>) {
    && items != [] && |items| == |rs| && (forall i | 0 <= i < |items| :: ',' !in items[i])
    && forall i | 0 <= i < |items| :: ItemIs(items[i], rs[i].start, rs[i].end)
  }

  lemma ItemsOfText(s: string, rs: seq<PortRange>)
    ensures ItemsAre(Split(s, ','), rs) <==> ParseItems(Split(Text.Trim(s), ',')) == Some(rs)
  {
    hide ParseItem, Split, ItemIs;
    hide Text.Trim;
    var parts, items := Split(Text.Trim(s), ','), Split(s, ',');
    ItemsExactly(parts, rs);
    SameItems(s, 0);
    forall i | 0 <= i < |items| && |items| == |rs|
      ensures ItemIs(items[i], rs[i].start, rs[i].end) <==> ParseItem(parts[i]) == Some(rs[i])
    {
      SameItems(s, i);
      ItemExactly(items[i], rs[i].start, rs[i].end);
      assert PortRange(rs[i].start, rs[i].end) == rs[i];
    }
    assert forall i | 0 <= i < |items| :: ',' !in items[i] by {
      forall i | 0 <= i < |items| ensures ',' !in items[i] {
        assert items[i] in items;
      }
    }
  }

  /** `parse_port_ranges` on every text: white space gives the empty list, and otherwise the text must be
      numbers and ascending pairs of numbers with commas between; the list is theirs, in order. */
  lemma ParseExactly(s: string, rs: seq<PortRange>)
    ensures Parse(s) == Some(rs) <==> (Text.Blank(s) && rs == []) || (!Text.Blank(s) && ListIs(s, rs))
  {
    hide ParseItems, Split, ItemsAre, Join;
    hide Text.Trim, Text.Blank;
    Text.TrimEmpty(s);
    ItemsOfText(s, rs);
    JoinSplit(s, ',');
    forall items | ItemsAre(items, rs) && s == Join(items, ",") ensures Split(s, ',') == items {
      ItemsApart(items, rs);
      SplitJoin(items, ',');
    }
  }

  lemma ItemsApart(items: seq<string>, rs: seq<PortRange>)
    requires ItemsAre(items, rs)
    ensures items != [] && forall p :: p in items ==> ',' !in p
  {
    hide ItemIs;
  }

  // ----- Printing and allowing, item by item -----

  /** A printed list holds for each range one item: the port alone, or both ends with a dash. */
  lemma PrintedItems(rs: seq<PortRange>)
    ensures rs == [] ==> Format(rs) == ""
    ensures rs != [] ==>
              var items := Split(Format(rs), ',');
              |items| == |rs|
              && forall i | 0 <= i < |rs| ::
                   items[i] == if rs[i].start == rs[i].end then Digits(rs[i].start)
                               else Digits(rs[i].start) + ("-" + Digits(rs[i].end))
  {
    var items := Formatted(rs);
    forall i | 0 <= i < |items| ensures ',' !in items[i] {
      FormatOnePlain(rs[i]);
    }
    hide Split;
    if rs != [] {
      SplitJoin(items, ',');
    }
    hide Digits;
    assert forall a, b :: Digits(a) + "-" + Digits(b) == Digits(a) + ("-" + Digits(b));
  }

  /** A port is allowed by every list in which some range holds it, and by the empty list. */
  lemma AllowedExactly(before: seq<PortRange>, r: PortRange, after: seq<PortRange>, port: nat)
    ensures PortAllowed([], port)
    ensures r.start <= port <= r.end ==> PortAllowed(before + [r] + after, port)
    ensures !(r.start <= port <= r.end) && PortAllowed(before + [r] + after, port) ==>
              (before != [] && PortAllowed(before, port)) || (after != [] && PortAllowed(after, port))
  {
    var all := before + [r] + after;
    assert r in all;
    if x :| x in all && Contains(x, port) {
      assert x in before || x == r || x in after;
    }
  }
}
