/** The text of a request: lines, the blank line, words and header fields, and what `read_request`
    makes of a request written this way. */
module RequestText {
  import opened Common
  import opened Seqs
  import opened Http1
  import Text
  import Numbers

  predicate NoBreaks(s: string) {
    forall i | 0 <= i < |s| :: s[i] != '\r' && s[i] != '\n'
  }

  // ----- Lines and the blank line -----

  lemma {:induction false} LinesHead(l: string, rest: string)
    requires NoBreaks(l)
    ensures Lines(l) == [l]
    ensures Lines(l + CRLF + rest) == [l] + Lines(rest)
  {
    var s := l + CRLF + rest;
    if l == "" {
      assert s[2..] == rest;
    } else {
      LinesHead(l[1..], rest);
      assert s[1..] == l[1..] + CRLF + rest;
      assert [l[0]] + l[1..] == l;
    }
  }

  lemma {:induction false} LinesOfJoin(lines: seq<string>)
    requires lines != [] && forall i | 0 <= i < |lines| :: NoBreaks(lines[i])
    ensures Lines(Join(lines, CRLF)) == lines
  {
    hide Lines;
    LinesHead(lines[0], Join(lines[1..], CRLF));
    if |lines| > 1 {
      LinesOfJoin(lines[1..]);
    }
    assert [lines[0]] + lines[1..] == lines;
  }

  /** No blank line starts inside text without line breaks. */
  lemma {:induction false} BlankAfter(l: string, rest: string)
    requires NoBreaks(l)
    ensures FindBlank(l + rest) == match FindBlank(rest) case None => None case Some(i) => Some(i + |l|)
  {
    hide FindBlank;
    if l == "" {
      assert l + rest == rest;
    } else {
      BlankAfter(l[1..], rest);
      assert (l + rest)[1..] == l[1..] + rest;
      assert (l + rest)[0] == l[0];
      if |l + rest| < 4 {
        TooShort(rest);
      } else {
        BlankStep(l + rest);
      }
    }
  }

  lemma BlankStep(s: string)
    requires |s| >= 4 && !AtBlank(s)
    ensures FindBlank(s) == match FindBlank(s[1..]) case None => None case Some(i) => Some(i + 1)
  {
    hide AtBlank, BLANK;
  }

  lemma BlankItself()
    ensures FindBlank(BLANK) == Some(0)
  {
  }

  lemma BreakStep(more: string)
    requires |more| >= 2 && more[0] != '\r'
    ensures FindBlank(CRLF + more) == match FindBlank(more) case None => None case Some(i) => Some(i + 2)
  {
    hide FindBlank;
    var s := CRLF + more;
    assert s[2] == more[0];
    BlankStep(s);
    var t := s[1..];
    if |t| >= 4 {
      assert t[0] == '\n';
      BlankStep(t);
      assert t[1..] == more;
    } else {
      TooShort(t);
      TooShort(more);
    }
  }

  lemma TooShort(s: string)
    requires |s| < 4
    ensures FindBlank(s) == None
  {
  }

  /** Nonempty lines without line breaks, then an empty one: the only blank line is at the end. */
  lemma {:induction false} BlankAtEnd(lines: seq<string>)
    requires lines != [] && forall i | 0 <= i < |lines| :: NoBreaks(lines[i]) && lines[i] != ""
    ensures FindBlank(Join(lines, CRLF) + BLANK) == Some(|Join(lines, CRLF)|)
  {
    hide FindBlank;
    var l := lines[0];
    if |lines| == 1 {
      BlankAfter(l, BLANK);
      BlankItself();
      assert Join(lines, CRLF) == l;
    } else {
      var more := Join(lines[1..], CRLF) + BLANK;
      BlankAtEnd(lines[1..]);
      assert more[0] == lines[1][0] by {
        assert lines[1..][0] == lines[1] && lines[1] != "";
      }
      assert more[0] != '\r' by {
        assert NoBreaks(lines[1]);
      }
      BreakStep(more);
      BlankAfter(l, CRLF + more);
      assert Join(lines, CRLF) + BLANK == l + (CRLF + more);
    }
  }

  // ----- Words -----

  lemma Shifted(w: string, c: char, rest: string)
    requires |w| > 1
    ensures var s := w + [c] + rest; s[1..] == w[1..] + [c] + rest && s[0] == w[0] && s[1] == w[1]
  {
  }

  lemma OneLetter(x: char, c: char, rest: string)
    requires !Text.IsWhite(x) && Text.IsWhite(c)
    ensures Words([x]) == [[x]]
    ensures Words([x] + ([c] + rest)) == [[x]] + Words(rest)
  {
    SpaceSkipped(c, rest);
    assert ([x] + ([c] + rest))[1..] == [c] + rest && [x][1..] == "" && ([c] + rest)[0] == c;
  }

  lemma SpaceSkipped(c: char, rest: string)
    requires Text.IsWhite(c)
    ensures Words([c] + rest) == Words(rest)
  {
    assert ([c] + rest)[1..] == rest;
  }

  lemma LongerWord(s: string)
    requires |s| > 1 && !Text.IsWhite(s[0]) && !Text.IsWhite(s[1]) && Words(s[1..]) != []
    ensures Words(s) == [[s[0]] + Words(s[1..])[0]] + Words(s[1..])[1..]
  {
    hide Text.IsWhite;
  }

  lemma {:induction false} WordsHead(w: string, c: char, rest: string)
    requires w != "" && Text.IsWhite(c) && forall i | 0 <= i < |w| :: !Text.IsWhite(w[i])
    ensures Words(w) == [w]
    ensures Words(w + [c] + rest) == [w] + Words(rest)
    decreases |w|
  {
    hide Text.IsWhite;
    hide Words;
    if |w| == 1 {
      OneLetter(w[0], c, rest);
      assert w == [w[0]] && w + [c] + rest == [w[0]] + ([c] + rest);
    } else {
      WordsHead(w[1..], c, rest);
      WordGrows(w, c, rest);
    }
  }

  lemma WordGrows(w: string, c: char, rest: string)
    requires |w| > 1 && !Text.IsWhite(w[0]) && !Text.IsWhite(w[1])
    requires Words(w[1..]) == [w[1..]] && Words(w[1..] + [c] + rest) == [w[1..]] + Words(rest)
    ensures Words(w) == [w] && Words(w + [c] + rest) == [w] + Words(rest)
  {
    hide Text.IsWhite;
    hide Words;
    Shifted(w, c, rest);
    LongerWord(w + [c] + rest);
    LongerWord(w);
    assert [w[0]] + w[1..] == w;
    assert ([w[1..]] + Words(rest))[1..] == Words(rest) && [w[1..]][1..] == [];
  }

  // ----- The scanners, exactly -----

  predicate BlankAt(s: string, i: nat) {
    i + 4 <= |s| && s[i] == '\r' && s[i + 1] == '\n' && s[i + 2] == '\r' && s[i + 3] == '\n'
  }

  lemma BlankShifted(s: string, i: nat)
    requires s != ""
    ensures BlankAt(s, i + 1) <==> BlankAt(s[1..], i)
  {
  }

  lemma BlankHere(s: string)
    ensures BlankAt(s, 0) <==> |s| >= 4 && AtBlank(s)
  {
  }

  lemma {:induction false} FirstBlank(s: string)
    ensures match FindBlank(s)
            case None => forall j: nat :: !BlankAt(s, j)
            case Some(i) => BlankAt(s, i) && forall j: nat :: j < i ==> !BlankAt(s, j)
  {
    if |s| >= 4 {
      BlankHere(s);
      if AtBlank(s) {
        BlankItselfFirst(s);
      } else {
        FirstBlank(s[1..]);
        BlankStep(s);
        hide FindBlank, BlankAt, AtBlank;
        forall j: nat | BlankAt(s, j) ensures j > 0 && BlankAt(s[1..], j - 1) {
          if j > 0 {
            BlankShifted(s, j - 1);
          }
        }
        forall j: nat ensures BlankAt(s, j + 1) <==> BlankAt(s[1..], j) {
          BlankShifted(s, j);
        }
      }
    }
  }

  lemma BlankItselfFirst(s: string)
    requires |s| >= 4 && AtBlank(s)
    ensures FindBlank(s) == Some(0)
  {
  }

  /** The blank line found is the first one. */
  lemma FindBlankExactly(s: string, i: nat)
    ensures FindBlank(s) == Some(i) <==> BlankAt(s, i) && forall j: nat :: j < i ==> !BlankAt(s, j)
  {
    FirstBlank(s);
    hide BlankAt, FindBlank;
    var r := FindBlank(s);
    assert r.Some? && r.value < i ==> BlankAt(s, r.value);
  }

  /** No line break lies inside. */
  predicate Unbroken(line: string) {
    forall i | 0 <= i < |line| - 1 :: line[i] == '\r' ==> line[i + 1] != '\n'
  }

  lemma UnbrokenLonger(c: char, line: string)
    requires Unbroken(line) && (c == '\r' && line != "" ==> line[0] != '\n')
    ensures Unbroken([c] + line)
  {
  }

  lemma LinesStep(s: string)
    requires s != ""
    ensures Lines(s) == if |s| >= 2 && s[0] == '\r' && s[1] == '\n' then [""] + Lines(s[2..])
                        else [[s[0]] + Lines(s[1..])[0]] + Lines(s[1..])[1..]
  {
  }

  lemma FirstOfJoin(lines: seq<string>)
    requires lines != []
    ensures lines[0] <= Join(lines, "\r\n")
  {
  }

  /** A text is its lines with a line break between them, and no line holds one. */
  lemma {:induction false} LinesExactly(s: string)
    ensures Join(Lines(s), "\r\n") == s
    ensures forall k | 0 <= k < |Lines(s)| :: Unbroken(Lines(s)[k])
  {
    if s != "" {
      LinesStep(s);
      if |s| >= 2 && s[0] == '\r' && s[1] == '\n' {
        LinesExactly(s[2..]);
        hide Lines, Unbroken;
        JoinEmptyFirst(Lines(s[2..]), "\r\n");
        NothingBroken();
        assert s == "\r\n" + s[2..];
      } else {
        LinesExactly(s[1..]);
        hide Lines, Unbroken;
        var rest := Lines(s[1..]);
        FirstOfJoin(rest);
        UnbrokenLonger(s[0], rest[0]);
        JoinLonger(s[0], rest, "\r\n");
        assert s == [s[0]] + s[1..];
      }
    } else {
      NothingBroken();
    }
  }

  lemma NothingBroken()
    ensures Unbroken("")
  {
  }

  predicate Solid(w: string) {
    w != "" && forall i | 0 <= i < |w| :: !Text.IsWhite(w[i])
  }

  /** Words between stretches of white space; the first and the last stretch may be empty. */
  predicate Spaced(words: seq<string>, gaps: seq<string>) {
    && |gaps| == |words| + 1
    && (forall i | 0 <= i < |gaps| :: Text.Blank(gaps[i]) && (0 < i < |words| ==> gaps[i] != ""))
    && (forall i | 0 <= i < |words| :: Solid(words[i]))
  }

  function Spread(words: seq<string>, gaps: seq<string>): string
    requires |gaps| == |words| + 1
  {
    if words == [] then gaps[0] else gaps[0] + (words[0] + Spread(words[1..], gaps[1..]))
  }

  lemma {:induction false} GapSkipped(gap: string, s: string)
    requires Text.Blank(gap)
    ensures Words(gap + s) == Words(s)
  {
    hide Text.IsWhite;
    hide Words;
    if gap == "" {
      assert gap + s == s;
    } else {
      assert gap[0] in gap && gap == [gap[0]] + gap[1..];
      GapSkipped(gap[1..], s);
      SpaceSkipped(gap[0], gap[1..] + s);
      assert gap + s == [gap[0]] + (gap[1..] + s);
    }
  }

  lemma FewerWords(words: seq<string>, gaps: seq<string>)
    requires Spaced(words, gaps) && words != []
    ensures Spaced(words[1..], gaps[1..]) && Text.Blank(gaps[0]) && Solid(words[0])
    ensures |words| > 1 ==> gaps[1] != "" && Text.IsWhite(gaps[1][0])
    ensures gaps[1] != "" ==> Text.IsWhite(gaps[1][0])
  {
    hide Text.IsWhite, Solid;
    assert gaps[1] != "" ==> gaps[1][0] in gaps[1];
  }

  lemma NoWords()
    ensures Words("") == []
  {
  }

  /** The words of a text are what stands between its stretches of white space. */
  lemma {:induction false} WordsExactly(words: seq<string>, gaps: seq<string>)
    requires Spaced(words, gaps)
    ensures Words(Spread(words, gaps)) == words
    decreases |words|
  {
    hide Text.IsWhite, Text.Blank;
    hide Words;
    if words == [] {
      assert Text.Blank(gaps[0]);
      GapSkipped(gaps[0], "");
      NoWords();
      assert gaps[0] + "" == gaps[0];
    } else {
      FewerWords(words, gaps);
      hide Spaced;
      WordsExactly(words[1..], gaps[1..]);
      var w, rest := words[0], Spread(words[1..], gaps[1..]);
      GapSkipped(gaps[0], w + rest);
      if rest != "" {
        GapFirst(words, gaps);
      }
      WordThen(w, rest);
      assert words == [w] + words[1..];
    }
  }

  /** A word ends at the end of the text or before white space. */
  lemma WordThen(w: string, rest: string)
    requires Solid(w) && (rest != "" ==> Text.IsWhite(rest[0]))
    ensures Words(w + rest) == [w] + Words(rest)
  {
    hide Words;
    if rest == "" {
      NoWords();
      WordsHead(w, ' ', "");
      assert w + rest == w;
    } else {
      WordsHead(w, rest[0], rest[1..]);
      SpaceSkipped(rest[0], rest[1..]);
      assert rest == [rest[0]] + rest[1..] && w + rest == w + [rest[0]] + rest[1..];
    }
  }

  lemma GapFirst(words: seq<string>, gaps: seq<string>)
    requires |gaps| == |words| + 1 && words != [] && Spread(words[1..], gaps[1..]) != ""
    requires |words| > 1 ==> gaps[1] != "" && Text.IsWhite(gaps[1][0])
    requires gaps[1] != "" ==> Text.IsWhite(gaps[1][0])
    ensures Text.IsWhite(Spread(words[1..], gaps[1..])[0])
  {
    hide Text.IsWhite;
  }

  // ----- Header fields -----

  /** The same letter, or the two cases of one letter of the alphabet. */
  predicate SameLetter(a: char, b: char) {
    || a == b
    || ('a' <= a <= 'z' && a as int == b as int + 32)
    || ('a' <= b <= 'z' && b as int == a as int + 32)
  }

  predicate SameLetters(a: string, b: string) {
    |a| == |b| && forall i | 0 <= i < |a| :: SameLetter(a[i], b[i])
  }

  lemma LowerLetter(a: char, b: char)
    ensures LowerChar(a) == LowerChar(b) <==> SameLetter(a, b)
  {
  }

  /** Names are compared without regard to the case of the letters a to z. */
  lemma SameNameExactly(a: string, b: string)
    ensures SameName(a, b) <==> SameLetters(a, b)
  {
    var x, y := Lower(a), Lower(b);
    if |a| == |b| {
      forall i | 0 <= i < |a| ensures x[i] == y[i] <==> SameLetter(a[i], b[i]) {
        LowerLetter(a[i], b[i]);
      }
      assert x == y <==> forall i | 0 <= i < |a| :: x[i] == y[i];
    }
  }

  /** `u` is `s` without small letters. */
  predicate Capitals(u: string, s: string) {
    SameLetters(u, s) && forall i | 0 <= i < |u| :: !('a' <= u[i] <= 'z')
  }

  lemma UpperIsCapitals(s: string)
    ensures Capitals(Upper(s), s)
  {
  }

  /** A header line: the name, a colon and the value, with white space around either. */
  datatype Field = Field(before: string, key: string, after: string, space: string, value: string, end: string)

  predicate FieldOk(f: Field) {
    && Text.Blank(f.before) && Text.Blank(f.after) && Text.Blank(f.space) && Text.Blank(f.end)
    && Text.Tight(f.key) && Text.Tight(f.value) && ':' !in f.key
  }

  function Written(f: Field): string {
    (f.before + f.key + f.after) + ":" + (f.space + f.value + f.end)
  }

  ghost predicate Names(line: string, name: string) {
    exists f: Field :: FieldOk(f) && line == Written(f) && SameLetters(f.key, name)
  }

  lemma NoColon(s: string)
    requires Text.Blank(s)
    ensures ':' !in s
  {
  }

  lemma FieldRead(f: Field, name: string)
    requires FieldOk(f)
    ensures ':' in Written(f) && HeaderValue(Written(f)) == f.value
    ensures IsHeader(Written(f), name) <==> SameLetters(f.key, name)
  {
    hide Text.Trim, Text.IsWhite, Text.Blank, Text.Tight;
    hide SameName, SameLetters, SplitOnce;
    var left, right := f.before + f.key + f.after, f.space + f.value + f.end;
    NoColon(f.before);
    NoColon(f.after);
    SplitOnceAt(left, ':', right);
    Text.TrimExactly(f.before, f.key, f.after);
    Text.TrimExactly(f.space, f.value, f.end);
    SameNameExactly(f.key, name);
    assert Written(f) == left + [':'] + right;
  }

  lemma FieldFound(line: string, name: string) returns (f: Field)
    requires IsHeader(line, name)
    ensures FieldOk(f) && line == Written(f) && SameLetters(f.key, name)
  {
    hide Text.Trim, Text.IsWhite, Text.Blank, Text.Tight;
    hide SameName, SameLetters, SplitOnce;
    var (left, right) := SplitOnce(line, ':').value;
    var a, b := Text.TrimParts(left);
    var c, d := Text.TrimParts(right);
    f := Field(a, Text.Trim(left), b, c, Text.Trim(right), d);
    SameNameExactly(f.key, name);
    assert line == left + [':'] + right;
  }

  /** A line is the header `name` exactly when it is written as a field of that name, in any case. */
  lemma HeaderExactly(line: string, name: string)
    ensures IsHeader(line, name) <==> Names(line, name)
  {
    hide IsHeader, FieldOk, Written, SameLetters;
    if IsHeader(line, name) {
      var f := FieldFound(line, name);
    }
    if Names(line, name) {
      var f: Field :| FieldOk(f) && line == Written(f) && SameLetters(f.key, name);
      FieldRead(f, name);
    }
  }

  /** The line at `k` is the first one of that name, and `value` its value. */
  ghost predicate FirstIs(lines: seq<string>, name: string, k: nat, value: string) {
    && k < |lines| && (forall i | 0 <= i < k :: !Names(lines[i], name))
    && exists f: Field :: FieldOk(f) && lines[k] == Written(f) && SameLetters(f.key, name) && f.value == value
  }

  lemma {:induction false} FirstFound(lines: seq<string>, name: string, k: nat, value: string)
    requires FirstIs(lines, name, k, value)
    ensures FirstHeader(lines, name) == Some(value)
    decreases k
  {
    if k > 0 {
      FirstLater(lines, name, k, value);
      hide *;
      FirstFound(lines[1..], name, k - 1, value);
      HeaderSkipped(lines, name);
    } else {
      FirstHere(lines, name, value);
    }
  }

  lemma HeaderSkipped(lines: seq<string>, name: string)
    requires lines != [] && !IsHeader(lines[0], name)
    ensures FirstHeader(lines, name) == FirstHeader(lines[1..], name)
  {
  }

  lemma FirstLater(lines: seq<string>, name: string, k: nat, value: string)
    requires k > 0 && FirstIs(lines, name, k, value)
    ensures !IsHeader(lines[0], name) && FirstIs(lines[1..], name, k - 1, value)
  {
    HeaderExactly(lines[0], name);
    hide IsHeader, FieldOk, Written, SameLetters, Names;
    var f: Field :| FieldOk(f) && lines[k] == Written(f) && SameLetters(f.key, name) && f.value == value;
    assert !Names(lines[0], name) && lines[1..][k - 1] == lines[k];
  }

  lemma FirstHere(lines: seq<string>, name: string, value: string)
    requires FirstIs(lines, name, 0, value)
    ensures FirstHeader(lines, name) == Some(value)
  {
    hide IsHeader, FieldOk, Written, SameLetters, HeaderValue, Names;
    var f: Field :| FieldOk(f) && lines[0] == Written(f) && SameLetters(f.key, name) && f.value == value;
    FieldRead(f, name);
  }

  lemma {:induction false} NoneFound(lines: seq<string>, name: string)
    requires forall i | 0 <= i < |lines| :: !Names(lines[i], name)
    ensures FirstHeader(lines, name) == None
  {
    hide IsHeader, HeaderValue, Names;
    if lines != [] {
      HeaderExactly(lines[0], name);
      NoneFound(lines[1..], name);
    }
  }

  // ----- Requests read from the wire -----

  /** The length that the header lines declare: the number of the first content-length line, or 0 when
      there is none or when it holds no number of 64 bits. */
  ghost predicate Declares(lines: seq<string>, n: nat) {
    || (exists k, value :: FirstIs(lines, "content-length", k, value) && Reads(value, n))
    || (n == 0 && forall i | 0 <= i < |lines| :: !Names(lines[i], "content-length"))
  }

  ghost predicate Reads(value: string, n: nat) {
    || (n < 0x1_0000_0000_0000_0000 && Numbers.Writes(value, n))
    || (n == 0 && forall m: nat | m < 0x1_0000_0000_0000_0000 :: !Numbers.Writes(value, m))
  }

  /** A request on the wire: request line, header lines, empty line, body. */
  datatype Message = Message(verb: string, path: string, query: Option<string>, version: string,
                             headers: seq<string>, body: string)

  function TargetOf(m: Message): string {
    m.path + match m.query case None => "" case Some(q) => "?" + q
  }

  function LinesOf(m: Message): seq<string> {
    [m.verb + " " + TargetOf(m) + " " + m.version] + m.headers
  }

  function Wire(m: Message): string {
    Join(LinesOf(m), "\r\n") + "\r\n\r\n" + m.body
  }

  predicate MessageOk(m: Message) {
    && Solid(m.verb) && Solid(TargetOf(m)) && Solid(m.version) && '?' !in m.path
    && (forall i | 0 <= i < |m.headers| :: NoBreaks(m.headers[i]) && m.headers[i] != "")
    && |Wire(m)| <= 262144
  }

  lemma WantedReads(head: string, value: string, n: nat)
    requires HeaderInHead(head, "content-length") == Some(value) && Reads(value, n)
    ensures Wanted(head) == n
  {
    hide Numbers.ParseUint, HeaderInHead;
    Numbers.ParseUintExactly(value, n, MAX_USIZE);
    var r := Numbers.ParseUint(value, MAX_USIZE);
    if r.Some? {
      Numbers.ParseUintExactly(value, r.value, MAX_USIZE);
    }
  }

  lemma NotNamed(name: string)
    requires name != ""
    ensures !Names("", name)
  {
  }

  lemma LinesOfHead(lines: seq<string>)
    requires lines != [] && forall i | 0 <= i < |lines| :: NoBreaks(lines[i])
    ensures Lines(Join(lines, CRLF) + BLANK) == lines + ["", ""]
  {
    hide Lines, Join, CRLF, BLANK;
    JoinEnds(lines);
    LinesOfJoin(lines + ["", ""]);
  }

  lemma {:induction false} JoinEnds(lines: seq<string>)
    requires lines != []
    ensures Join(lines + ["", ""], CRLF) == Join(lines, CRLF) + BLANK
  {
    var all := lines + ["", ""];
    if |lines| == 1 {
      assert all[1..] == ["", ""] && ["", ""][1..] == [""];
    } else {
      JoinEnds(lines[1..]);
      assert all[1..] == lines[1..] + ["", ""];
    }
  }

  /** The declared length of a head is the number in its first content-length line. */
  lemma WantedExactly(lines: seq<string>, n: nat)
    requires lines != [] && forall i | 0 <= i < |lines| :: NoBreaks(lines[i])
    requires Declares(lines[1..], n)
    ensures Wanted(Join(lines, "\r\n") + "\r\n\r\n") == n
  {
    hide Lines, Wanted, FirstHeader, Names, Reads, Join, FirstIs;
    var head := Join(lines, CRLF) + BLANK;
    LinesOfHead(lines);
    if k, value :| FirstIs(lines[1..], "content-length", k, value) && Reads(value, n) {
      FirstInHead(lines, head, "content-length", k, value);
      WantedReads(head, value, n);
    } else {
      NoneInHead(lines, head, "content-length");
      NothingWanted(head);
    }
  }

  lemma FirstInHead(lines: seq<string>, head: string, name: string, k: nat, value: string)
    requires lines != [] && Lines(head) == lines + ["", ""] && FirstIs(lines[1..], name, k, value)
    ensures HeaderInHead(head, name) == Some(value)
  {
    hide Lines, FirstHeader, FirstIs;
    FirstExtended(lines[1..], ["", ""], name, k, value);
    FirstFound(lines[1..] + ["", ""], name, k, value);
    assert Lines(head)[1..] == lines[1..] + ["", ""];
  }

  lemma NoneInHead(lines: seq<string>, head: string, name: string)
    requires lines != [] && Lines(head) == lines + ["", ""] && name != ""
    requires forall i | 0 <= i < |lines[1..]| :: !Names(lines[1..][i], name)
    ensures HeaderInHead(head, name) == None
  {
    hide Lines, FirstHeader, Names;
    NotNamed(name);
    NoneFound(lines[1..] + ["", ""], name);
    assert Lines(head)[1..] == lines[1..] + ["", ""];
  }

  lemma FirstExtended(lines: seq<string>, more: seq<string>, name: string, k: nat, value: string)
    requires FirstIs(lines, name, k, value)
    ensures FirstIs(lines + more, name, k, value)
  {
    hide Names, FieldOk, Written, SameLetters;
  }

  lemma NothingWanted(head: string)
    requires HeaderInHead(head, "content-length") == None
    ensures Wanted(head) == 0
  {
  }

  lemma LinesOk(m: Message)
    requires MessageOk(m)
    ensures forall i | 0 <= i < |LinesOf(m)| :: NoBreaks(LinesOf(m)[i]) && LinesOf(m)[i] != ""
  {
    hide Text.IsWhite;
    SolidNoBreaks(m.verb);
    SolidNoBreaks(TargetOf(m));
    SolidNoBreaks(m.version);
  }

  lemma SolidNoBreaks(w: string)
    requires Solid(w)
    ensures NoBreaks(w)
  {
  }

  /** The only blank line between head and body is where the head ends. */
  lemma BlankBeforeBody(m: Message)
    requires MessageOk(m)
    ensures FindBlank(Wire(m)) == Some(|Join(LinesOf(m), CRLF)|)
  {
    hide FindBlank, Join, MessageOk, LinesOf;
    LinesOk(m);
    assert LinesOf(m) != [] by { HasLines(m); }
    BlankAtEnd(LinesOf(m));
    BlankStable(Join(LinesOf(m), CRLF) + BLANK, m.body);
  }

  lemma HasLines(m: Message)
    ensures LinesOf(m) != [] && LinesOf(m)[1..] == m.headers
    ensures LinesOf(m)[0] == m.verb + " " + TargetOf(m) + " " + m.version
  {
    hide TargetOf;
  }

  lemma WireComplete(m: Message)
    requires MessageOk(m) && Declares(m.headers, |m.body|)
    ensures Complete(Wire(m)) && Wire(m) != ""
  {
    BlankBeforeBody(m);
    LinesOk(m);
    HasLines(m);
    hide FindBlank, Join, LinesOf, Wanted, Declares;
    WantedExactly(LinesOf(m), |m.body|);
    var head := Join(LinesOf(m), CRLF) + BLANK;
    assert Wire(m)[..|head|] == head;
  }

  lemma WordsOfLine(m: Message)
    requires MessageOk(m)
    ensures Words(LinesOf(m)[0]) == [m.verb, TargetOf(m), m.version]
  {
    HasLines(m);
    hide TargetOf, LinesOf, Words, Solid;
    var gaps := ["", " ", " ", ""];
    var words := [m.verb, TargetOf(m), m.version];
    assert Spaced(words, gaps) by { Text.AsciiWhite(' '); }
    SpreadThree(m.verb, TargetOf(m), m.version);
    WordsExactly(words, gaps);
  }

  lemma SpreadStep(gap: string, w: string, words: seq<string>, gaps: seq<string>)
    requires |gaps| == |words| + 1
    ensures Spread([w] + words, [gap] + gaps) == gap + (w + Spread(words, gaps))
  {
    assert ([w] + words)[1..] == words && ([gap] + gaps)[1..] == gaps;
  }

  lemma SpreadNone(gap: string)
    ensures Spread([], [gap]) == gap
  {
  }

  lemma SpreadThree(a: string, b: string, c: string)
    ensures Spread([a, b, c], ["", " ", " ", ""]) == a + " " + b + " " + c
  {
    hide Spread;
    SpreadStep("", a, [b, c], [" ", " ", ""]);
    SpreadStep(" ", b, [c], [" ", ""]);
    SpreadStep(" ", c, [], [""]);
    SpreadNone("");
    assert [a] + [b, c] == [a, b, c] && [b] + [c] == [b, c] && [c] + [] == [c];
    assert [""] + [" ", " ", ""] == ["", " ", " ", ""];
    assert [" "] + [" ", ""] == [" ", " ", ""] && [" "] + [""] == [" ", ""];
  }

  lemma TargetSplit(m: Message)
    requires MessageOk(m)
    ensures SplitOnce(TargetOf(m), '?') == match m.query case None => None case Some(q) => Some((m.path, q))
  {
    if m.query.Some? {
      SplitOnceAt(m.path, '?', m.query.value);
      assert TargetOf(m) == m.path + ['?'] + m.query.value;
    } else {
      assert TargetOf(m) == m.path;
    }
  }

  /** What `parse_str` makes of a message: the verb in capitals, path and query of the target, exactly
      the body, and the lines of the head. */
  lemma MessageParsed(m: Message)
    requires MessageOk(m)
    ensures var r := ParseRequest(Wire(m));
            && Capitals(r.verb, m.verb) && r.path == (if m.path == "" then "/" else m.path)
            && r.query == (if m.query.Some? then m.query.value else "")
            && r.body == m.body && r.head == Join(LinesOf(m), "\r\n") && Lines(r.head) == LinesOf(m)
  {
    BlankBeforeBody(m);
    LinesOk(m);
    HasLines(m);
    WordsOfLine(m);
    TargetSplit(m);
    UpperIsCapitals(m.verb);
    LinesOfJoin(LinesOf(m));
    hide FindBlank, Join, LinesOf, Words, Lines, SplitOnce, Capitals, TargetOf, MessageOk, Upper;
    var head := Join(LinesOf(m), CRLF);
    assert Wire(m)[..|head|] == head;
    assert Wire(m)[|head| + 4..] == m.body;
  }

  /** `read_request` on the wire: however the bytes of a message arrive, and whatever follows them, it
      reads up to the end of the declared body, no less and nothing more, and finds the parts the
      message was written from. */
  lemma RequestRead(m: Message, chunks: seq<string>, later: seq<string>)
    requires MessageOk(m) && Declares(m.headers, |m.body|)
    requires Concat(chunks) == Wire(m) && forall i | 0 <= i < |chunks| :: chunks[i] != ""
    ensures Received("", chunks + later) == Wire(m)
    ensures var r := ParseRequest(Received("", chunks + later));
            && Capitals(r.verb, m.verb) && r.path == (if m.path == "" then "/" else m.path)
            && r.query == (if m.query.Some? then m.query.value else "")
            && r.body == m.body && r.head == Join(LinesOf(m), "\r\n")
  {
    WireComplete(m);
    hide Complete, Wire, LinesOf, MessageOk, Declares, Capitals;
    assert "" + Concat(chunks) == Wire(m);
    ReceivesAll("", chunks, later, Wire(m));
    MessageParsed(m);
  }

  /** `Content-Length` in any case with the decimal digits of the length, after lines of other names,
      declares that length. */
  lemma LengthDeclared(m: Message, k: nat, f: Field)
    requires k < |m.headers| && FieldOk(f) && m.headers[k] == Written(f)
    requires SameLetters(f.key, "content-length") && f.value == Numbers.Digits(|m.body|)
    requires forall i | 0 <= i < k :: !Names(m.headers[i], "content-length")
    requires |m.body| <= 262144
    ensures Declares(m.headers, |m.body|)
  {
    hide FieldOk, Written, SameLetters, Names, Numbers.Digits;
    Itself(f.value, |m.body|);
    assert FirstIs(m.headers, "content-length", k, f.value) && Reads(f.value, |m.body|);
  }

  lemma Itself(v: string, n: nat)
    requires v == Numbers.Digits(n)
    ensures Numbers.Writes(v, n)
  {
    hide Numbers.Digits;
    assert v == "" + ("" + Numbers.Digits(n)) && Numbers.AllZeros("");
  }

  /** A lookup in the head of a message gives the value of the first line of that name. */
  lemma HeaderOfMessage(m: Message, name: string, k: nat, value: string)
    requires MessageOk(m)
    ensures var head := ParseRequest(Wire(m)).head;
            && (FirstIs(m.headers, name, k, value) ==> HeaderInHead(head, name) == Some(value))
            && ((forall i | 0 <= i < |m.headers| :: !Names(m.headers[i], name)) ==> HeaderInHead(head, name) == None)
  {
    MessageParsed(m);
    HasLines(m);
    hide ParseRequest, Wire, MessageOk, Capitals, LinesOf, FirstIs, FirstHeader, Names, Lines, Join;
    if FirstIs(m.headers, name, k, value) {
      FirstFound(m.headers, name, k, value);
    }
    if forall i | 0 <= i < |m.headers| :: !Names(m.headers[i], name) {
      NoneFound(m.headers, name);
    }
  }

  // ----- When reading stops -----

  /** More than 262144 bytes, or a head with at least the declared number of bytes after it. */
  predicate Enough(s: string) {
    || |s| > 262144
    || (FindBlank(s).Some?
        && var body := FindBlank(s).value + 4; |s| >= body + Wanted(s[..body]))
  }

  /** Reading goes on until there is enough, or until the stream ends: for every stream, whether or not
      it holds a message. */
  lemma {:induction false} ReceivedExactly(buf: string, chunks: seq<string>) returns (k: nat)
    ensures k <= |chunks| && Received(buf, chunks) == buf + Concat(chunks[..k])
    ensures forall i | 0 < i < k :: !Enough(buf + Concat(chunks[..i]))
    ensures k == |chunks| || (k > 0 && Enough(Received(buf, chunks)))
    decreases |chunks|
  {
    hide Wanted, FindBlank;
    if chunks == [] {
      k := 0;
      assert buf + "" == buf;
    } else {
      var now := buf + chunks[0];
      OneChunk(buf, chunks);
      if Enough(now) {
        k := 1;
      } else {
        var later := ReceivedExactly(now, chunks[1..]);
        k := later + 1;
        hide Enough, Concat;
        NextChunks(buf, chunks, later);
        forall i | 0 < i < k ensures !Enough(buf + Concat(chunks[..i])) {
          if i > 1 {
            NextChunks(buf, chunks, i - 1);
          }
        }
      }
    }
  }

  lemma OneChunk(buf: string, chunks: seq<string>)
    requires chunks != []
    ensures buf + Concat(chunks[..1]) == buf + chunks[0]
  {
    assert chunks[..1][1..] == [];
  }

  lemma NextChunks(buf: string, chunks: seq<string>, i: nat)
    requires i < |chunks|
    ensures buf + Concat(chunks[..i + 1]) == (buf + chunks[0]) + Concat(chunks[1..][..i])
  {
    assert chunks[..i + 1][1..] == chunks[1..][..i];
  }
}
