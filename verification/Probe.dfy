/** The HTTP health probe: the request the client writes by hand, read back with the repository's own
    request parser. */
module Probe {
  import opened Common
  import opened Seqs
  import opened Http1
  import opened RequestText
  import Text

  datatype Header = Header(name: string, value: string)

  /** `replace(['\r', '\n'], "")`. */
  function Strip(s: string): (r: string)
    ensures NoBreaks(r) && (forall c :: c in r ==> c in s)
  {
    if s == "" then ""
    else
      var rest := Strip(s[1..]);
      if s[0] == '\r' || s[0] == '\n' then rest else [s[0]] + rest
  }

  function CleanName(h: Header): string {
    Strip(Text.Trim(h.name))
  }

  function LineOf(h: Header): string {
    (if SameName(CleanName(h), "host") then "Host" else CleanName(h)) + ":" + (" " + Strip(h.value))
  }

  /** The lines for the configured headers whose name is not empty. */
  function HeaderLines(headers: seq<Header>): seq<string> {
    if headers == [] then []
    else if CleanName(headers[0]) == "" then HeaderLines(headers[1..])
    else [LineOf(headers[0])] + HeaderLines(headers[1..])
  }

  function HasHost(headers: seq<Header>): bool {
    headers != [] && (SameName(CleanName(headers[0]), "host") || HasHost(headers[1..]))
  }

  const FALLBACK := "Host: healthcheck"
  const CLOSE := "Connection: close"

  function Tail(headers: seq<Header>): seq<string> {
    if HasHost(headers) then [CLOSE] else [FALLBACK, CLOSE]
  }

  function RequestLine(path: string): string {
    "GET" + " " + (path + " " + "HTTP/1.1")
  }

  /** All the lines of the probe. */
  function ProbeLines(path: string, headers: seq<Header>): seq<string> {
    [RequestLine(if path == "" then "/" else path)] + (HeaderLines(headers) + Tail(headers))
  }

  /** Lines, each ended by a line break. */
  function Ended(lines: seq<string>): string {
    if lines == [] then "" else lines[0] + CRLF + Ended(lines[1..])
  }

  lemma NothingEnded()
    ensures Ended([]) == ""
  {
  }

  lemma EndedHead(lines: seq<string>)
    requires lines != []
    ensures Ended(lines) == (lines[0] + CRLF) + Ended(lines[1..])
  {
  }

  lemma Reassociate(a: string, b: string, c: string)
    ensures (a + b) + c == a + (b + c)
  {
  }

  lemma {:induction false} EndedAppend(a: seq<string>, b: seq<string>)
    ensures Ended(a + b) == Ended(a) + Ended(b)
  {
    if a == [] {
      NothingEnded();
      assert a + b == b && "" + Ended(b) == Ended(b);
    } else {
      EndedAppend(a[1..], b);
      EndedHead(a);
      EndedHead(a + b);
      hide Ended;
      assert (a + b)[1..] == a[1..] + b;
      Reassociate(a[0] + CRLF, Ended(a[1..]), Ended(b));
    }
  }

  lemma EndedOne(l: string)
    ensures Ended([l]) == l + CRLF
  {
    assert [l][1..] == [];
  }

  lemma {:induction false} HeaderLinesStep(headers: seq<Header>, i: nat)
    requires i < |headers|
    ensures HeaderLines(headers[..i + 1])
            == HeaderLines(headers[..i]) + if CleanName(headers[i]) == "" then [] else [LineOf(headers[i])]
    ensures HasHost(headers[..i + 1]) <==> HasHost(headers[..i]) || SameName(CleanName(headers[i]), "host")
    decreases i
  {
    hide SameName, CleanName, LineOf;
    var all := headers[..i + 1];
    assert all[0] == headers[0];
    assert headers[..i + 1][1..] == headers[1..][..i];
    if i > 0 {
      HeaderLinesStep(headers[1..], i - 1);
      assert headers[..i][1..] == headers[1..][..i - 1];
      assert headers[..i][0] == headers[0];
    }
  }

  lemma NoLines()
    ensures HeaderLines([]) == [] && !HasHost([])
  {
  }

  lemma NotHost()
    ensures !SameName("", "host")
  {
    assert |Lower("")| != |Lower("host")|;
  }

  lemma EndedSnoc(a: seq<string>, l: string)
    ensures Ended(a + [l]) == Ended(a) + l + CRLF
  {
    EndedAppend(a, [l]);
    EndedOne(l);
  }

  /** What one header adds to the text written so far. */
  lemma WriteHeader(first: seq<string>, headers: seq<Header>, i: nat)
    requires i < |headers|
    ensures Ended(first + HeaderLines(headers[..i + 1]))
            == Ended(first + HeaderLines(headers[..i]))
               + if CleanName(headers[i]) == "" then "" else LineOf(headers[i]) + CRLF
  {
    hide SameName, CleanName, LineOf, Ended, HeaderLines, HasHost;
    HeaderLinesStep(headers, i);
    var before := first + HeaderLines(headers[..i]);
    if CleanName(headers[i]) == "" {
      assert HeaderLines(headers[..i]) + [] == HeaderLines(headers[..i]);
    } else {
      EndedSnoc(before, LineOf(headers[i]));
      assert first + (HeaderLines(headers[..i]) + [LineOf(headers[i])]) == before + [LineOf(headers[i])];
    }
  }

  lemma WriteTail(before: seq<string>, headers: seq<Header>)
    ensures Ended(before + Tail(headers))
            == Ended(before) + (if HasHost(headers) then "" else FALLBACK + CRLF) + (CLOSE + CRLF)
  {
    hide Ended, HasHost;
    if HasHost(headers) {
      EndedSnoc(before, CLOSE);
    } else {
      EndedSnoc(before, FALLBACK);
      EndedSnoc(before + [FALLBACK], CLOSE);
      assert before + [FALLBACK] + [CLOSE] == before + [FALLBACK, CLOSE];
    }
  }

  lemma FirstWritten(path: string, headers: seq<Header>)
    ensures "GET " + path + " HTTP/1.1" + CRLF == Ended([RequestLine(path)] + HeaderLines(headers[..0]))
    ensures !HasHost(headers[..0])
  {
    hide Ended, HeaderLines, HasHost;
    NoLines();
    EndedOne(RequestLine(path));
    assert headers[..0] == [] && [RequestLine(path)] + [] == [RequestLine(path)];
  }

  /** `build_probe_request`. */
  method BuildProbeRequest(path0: string, headers: seq<Header>) returns (req: string)
    ensures req == Ended(ProbeLines(path0, headers)) + CRLF
  {
    hide Ended, HeaderLines, HasHost, Strip, SameName;
    hide Text.Trim;
    var path := if path0 == "" then "/" else path0;
    req := "GET " + path + " HTTP/1.1" + CRLF;
    ghost var first := [RequestLine(path)];
    FirstWritten(path, headers);
    hide RequestLine, FALLBACK, CLOSE, CRLF;
    var hostWritten := false;
    for i := 0 to |headers|
      invariant req == Ended(first + HeaderLines(headers[..i]))
      invariant hostWritten == HasHost(headers[..i])
    {
      var h := headers[i];
      HeaderLinesStep(headers, i);
      WriteHeader(first, headers, i);
      var name := Strip(Text.Trim(h.name));
      if name == "" {
        NotHost();
        continue;
      }
      var value := Strip(h.value);
      assert LineOf(h) == (if SameName(name, "host") then "Host" else name) + ":" + (" " + value);
      if SameName(name, "host") {
        req := req + ("Host" + ":" + (" " + value) + CRLF);
        hostWritten := true;
      } else {
        req := req + (name + ":" + (" " + value) + CRLF);
      }
    }
    assert headers[..|headers|] == headers;
    WriteTail(first + HeaderLines(headers), headers);
    assert first + HeaderLines(headers) + Tail(headers) == ProbeLines(path0, headers);
    if !hostWritten {
      req := req + (FALLBACK + CRLF);
    }
    req := req + (CLOSE + CRLF);
    req := req + CRLF;
  }

  lemma {:induction false} HeaderLinesAppend(a: seq<Header>, b: seq<Header>)
    ensures HeaderLines(a + b) == HeaderLines(a) + HeaderLines(b) && (HasHost(a + b) <==> HasHost(a) || HasHost(b))
    decreases |a|
  {
    hide CleanName, LineOf, SameName;
    if a == [] {
      assert a + b == b;
    } else {
      HeaderLinesAppend(a[1..], b);
      assert (a + b)[1..] == a[1..] + b && (a + b)[0] == a[0];
    }
  }

  /** What one configured header becomes. */
  lemma OneHeader(h: Header)
    ensures var name, value := Strip(Text.Trim(h.name)), Strip(h.value);
            && HeaderLines([h]) == (if name == "" then []
                                    else if SameLetters(name, "host") then ["Host: " + value]
                                    else [name + ": " + value])
            && (HasHost([h]) <==> SameLetters(name, "host"))
  {
    hide Strip, SameName, SameLetters;
    hide Text.Trim;
    SameNameExactly(Strip(Text.Trim(h.name)), "host");
    assert [h][1..] == [];
    var name, value := Strip(Text.Trim(h.name)), Strip(h.value);
    assert name + ":" + (" " + value) == name + ": " + value;
    assert "Host" + ":" + (" " + value) == "Host: " + value;
  }

  /** The lines in order: the request line, one line for each configured header whose name is not empty,
      a Host line of its own only when none is configured, and the line that closes the connection. */
  lemma LinesInOrder(path: string, before: seq<Header>, h: Header, after: seq<Header>)
    ensures var all, name, value := before + [h] + after, Strip(Text.Trim(h.name)), Strip(h.value);
            && HeaderLines(all) == HeaderLines(before)
                                   + (if name == "" then []
                                      else if SameLetters(name, "host") then ["Host: " + value]
                                      else [name + ": " + value])
                                   + HeaderLines(after)
            && (HasHost(all) <==> HasHost(before) || SameLetters(name, "host") || HasHost(after))
            && ProbeLines(path, all) == ["GET " + (if path == "" then "/" else path) + " HTTP/1.1"]
                                        + HeaderLines(all)
                                        + (if HasHost(all) then [] else ["Host: healthcheck"])
                                        + ["Connection: close"]
  {
    hide Strip, HeaderLines, HasHost, SameLetters;
    hide Text.Trim;
    HeaderLinesAppend(before + [h], after);
    HeaderLinesAppend(before, [h]);
    OneHeader(h);
    var target := if path == "" then "/" else path;
    assert RequestLine(target) == "GET " + target + " HTTP/1.1";
  }

  // ----- Names and values -----

  lemma {:induction false} EndedIsJoin(lines: seq<string>)
    requires lines != []
    ensures Ended(lines) == Join(lines, CRLF) + CRLF
  {
    if |lines| > 1 {
      EndedIsJoin(lines[1..]);
    }
  }

  lemma {:induction false} StripKeepsEnds(s: string)
    requires s != "" && !Text.IsWhite(s[0]) && !Text.IsWhite(s[|s| - 1])
    ensures Strip(s) != "" && Strip(s)[0] == s[0] && Strip(s)[|Strip(s)| - 1] == s[|s| - 1]
  {
    StripKeepsLast(s);
  }

  lemma StripStep(s: string)
    requires s != ""
    ensures Strip(s) == (if s[0] == '\r' || s[0] == '\n' then "" else [s[0]]) + Strip(s[1..])
  {
  }

  lemma {:induction false} StripKeepsLast(s: string)
    requires s != "" && !Text.IsWhite(s[|s| - 1])
    ensures Strip(s) != "" && Strip(s)[|Strip(s)| - 1] == s[|s| - 1]
  {
    if |s| > 1 {
      StripKeepsLast(s[1..]);
      StripStep(s);
      hide Strip;
      hide Text.IsWhite;
    }
  }

  lemma TrimEnds(s: string)
    ensures Text.Trim(s) != "" ==> !Text.IsWhite(Text.Trim(s)[0]) && !Text.IsWhite(Text.Trim(s)[|Text.Trim(s)| - 1])
  {
  }

  lemma NothingStripped()
    ensures Strip("") == ""
  {
  }

  lemma StripTight(s: string)
    requires s != "" ==> !Text.IsWhite(s[0]) && !Text.IsWhite(s[|s| - 1])
    ensures Text.Trim(Strip(s)) == Strip(s)
  {
    hide Strip;
    hide Text.Trim;
    if s == "" {
      NothingStripped();
    } else {
      StripKeepsEnds(s);
    }
    Text.TrimTight(Strip(s));
  }

  lemma CleanNameTight(h: Header)
    ensures Text.Trim(CleanName(h)) == CleanName(h)
  {
    TrimEnds(h.name);
    hide Strip;
    hide Text.Trim;
    StripTight(Text.Trim(h.name));
  }

  lemma TrimKeeps(s: string, c: char)
    requires c !in s
    ensures c !in Text.Trim(s)
  {
  }

  lemma LowerHost()
    ensures Lower("Host") == Lower("host")
  {
    assert Lower("Host") == "host" == Lower("host");
  }

  lemma KeyLine(key: string, value: string, name: string)
    requires ':' !in key && Text.Trim(key) == key
    ensures var line := key + ":" + (" " + value);
            ':' in line && HeaderValue(line) == Text.Trim(value) && (IsHeader(line, name) <==> SameName(key, name))
  {
    hide SameName;
    hide Text.Trim;
    SplitOnceAt(key, ':', " " + value);
    assert [' '] + value == " " + value;
    assert key + ":" + (" " + value) == key + [':'] + (" " + value);
    assert (key + ":" + (" " + value))[|key|] == ':';
    Text.TrimSpace(' ', value);
  }

  /** A written header line is read back as the header it was written for. */
  lemma LineReadBack(h: Header, name: string)
    requires ':' !in h.name
    ensures ':' in LineOf(h) && HeaderValue(LineOf(h)) == Text.Trim(Strip(h.value))
    ensures IsHeader(LineOf(h), name) <==> SameName(CleanName(h), name)
  {
    hide Lower, Strip, IsHeader, HeaderValue;
    hide Text.Trim;
    LowerHost();
    if SameName(CleanName(h), "host") {
      Text.TrimTight("Host");
      KeyLine("Host", Strip(h.value), name);
    } else {
      TrimKeeps(h.name, ':');
      CleanNameTight(h);
      KeyLine(CleanName(h), Strip(h.value), name);
    }
  }

  /** The value of the first configured header of that name, sanitised and trimmed. */
  function FirstConfigured(headers: seq<Header>, name: string): Option<string> {
    if headers == [] then None
    else if CleanName(headers[0]) != "" && SameName(CleanName(headers[0]), name)
    then Some(Text.Trim(Strip(headers[0].value)))
    else FirstConfigured(headers[1..], name)
  }

  lemma {:induction false} HeadersReadBack(headers: seq<Header>, tail: seq<string>, name: string)
    requires forall i | 0 <= i < |headers| :: ':' !in headers[i].name
    ensures FirstHeader(HeaderLines(headers) + tail, name)
            == if FirstConfigured(headers, name).Some? then FirstConfigured(headers, name) else FirstHeader(tail, name)
  {
    hide Strip, SameName, CleanName, LineOf, IsHeader, HeaderValue;
    hide Text.Trim;
    if headers == [] {
      assert HeaderLines(headers) + tail == tail;
    } else if CleanName(headers[0]) == "" {
      HeadersReadBack(headers[1..], tail, name);
    } else {
      HeadersReadBack(headers[1..], tail, name);
      LineReadBack(headers[0], name);
      var more := HeaderLines(headers[1..]) + tail;
      assert [LineOf(headers[0])] + HeaderLines(headers[1..]) + tail == [LineOf(headers[0])] + more;
      assert ([LineOf(headers[0])] + more)[1..] == more;
    }
  }

  // ----- The whole request, read back -----

  lemma RequestLineWords(path: string)
    requires path != "" && forall i | 0 <= i < |path| :: !Text.IsWhite(path[i])
    ensures Words(RequestLine(path)) == ["GET", path, "HTTP/1.1"]
  {
    hide Words;
    WordsHead("GET", ' ', path + " " + "HTTP/1.1");
    WordsHead(path, ' ', "HTTP/1.1");
    WordsHead("HTTP/1.1", ' ', "");
  }

  lemma {:induction false} HeaderLinesClean(headers: seq<Header>)
    ensures forall i | 0 <= i < |HeaderLines(headers)| ::
              NoBreaks(HeaderLines(headers)[i]) && HeaderLines(headers)[i] != ""
  {
    hide CleanName, SameName;
    if headers != [] {
      HeaderLinesClean(headers[1..]);
      CleanKey(headers[0]);
    }
  }

  lemma CleanKey(h: Header)
    ensures NoBreaks(LineOf(h)) && LineOf(h) != ""
  {
    hide SameName;
    hide Text.Trim;
  }

  lemma LinesClean(path: string, headers: seq<Header>)
    requires forall i | 0 <= i < |path| :: !Text.IsWhite(path[i])
    ensures var lines := ProbeLines(path, headers);
            forall i | 0 <= i < |lines| :: NoBreaks(lines[i]) && lines[i] != ""
  {
    HeaderLinesClean(headers);
    hide HeaderLines, HasHost;
    assert forall i | 0 <= i < |Tail(headers)| :: NoBreaks(Tail(headers)[i]) && Tail(headers)[i] != "";
  }

  /** What the far end must find under a header name. */
  function Expected(headers: seq<Header>, name: string): Option<string> {
    if FirstConfigured(headers, name).Some? then FirstConfigured(headers, name)
    else if SameName("host", name) then Some("healthcheck")
    else if SameName("connection", name) then Some("close")
    else None
  }

  lemma {:induction false} HostIsConfigured(headers: seq<Header>, name: string)
    requires HasHost(headers) && SameName("host", name)
    ensures FirstConfigured(headers, name).Some?
  {
    if SameName(CleanName(headers[0]), "host") {
      NotHost();
    } else {
      HostIsConfigured(headers[1..], name);
    }
  }

  predicate Tight(s: string) {
    s != "" && !Text.IsWhite(s[0]) && !Text.IsWhite(s[|s| - 1])
  }

  lemma FixedLine(line: string, key: string, value: string, name: string)
    requires Tight(key) && Tight(value) && ':' !in key && line == key + ":" + (" " + value)
    ensures ':' in line && HeaderValue(line) == value && (IsHeader(line, name) <==> SameName(key, name))
  {
    hide SameName, IsHeader, HeaderValue;
    Text.TrimTight(key);
    Text.TrimTight(value);
    hide Text.Trim;
    KeyLine(key, value, name);
  }

  lemma FallbackLine(name: string)
    ensures ':' in FALLBACK && HeaderValue(FALLBACK) == "healthcheck"
    ensures IsHeader(FALLBACK, name) <==> SameName("host", name)
  {
    hide SameName, IsHeader, HeaderValue;
    hide Text.Trim;
    FixedLine(FALLBACK, "Host", "healthcheck", name);
    SameFixed(name);
  }

  lemma CloseLine(name: string)
    ensures ':' in CLOSE && HeaderValue(CLOSE) == "close"
    ensures IsHeader(CLOSE, name) <==> SameName("connection", name)
  {
    hide SameName, IsHeader, HeaderValue;
    hide Text.Trim;
    FixedLine(CLOSE, "Connection", "close", name);
    SameFixed(name);
  }

  lemma FirstOfOne(line: string, name: string)
    ensures FirstHeader([line], name) == if IsHeader(line, name) then Some(HeaderValue(line)) else None
  {
    hide IsHeader, HeaderValue;
    assert [line][1..] == [];
  }

  lemma FirstOfTwo(line: string, other: string, name: string)
    ensures FirstHeader([line, other], name)
            == if IsHeader(line, name) then Some(HeaderValue(line))
               else if IsHeader(other, name) then Some(HeaderValue(other))
               else None
  {
    hide IsHeader, HeaderValue;
    FirstOfOne(other, name);
    assert [line, other][1..] == [other];
  }

  lemma TailReadBack(headers: seq<Header>, name: string)
    ensures FirstHeader(Tail(headers), name)
            == if !HasHost(headers) && SameName("host", name) then Some("healthcheck")
               else if SameName("connection", name) then Some("close")
               else None
  {
    FallbackLine(name);
    CloseLine(name);
    hide SameName, IsHeader, HeaderValue, HasHost, Lower, FirstHeader, FALLBACK, CLOSE;
    FirstOfOne(CLOSE, name);
    FirstOfTwo(FALLBACK, CLOSE, name);
  }

  lemma SameFixed(name: string)
    ensures SameName("Host", name) <==> SameName("host", name)
    ensures SameName("Connection", name) <==> SameName("connection", name)
  {
    assert Lower("Host") == Lower("host");
    assert Lower("Connection") == Lower("connection");
  }

  lemma HeadReadBack(path: string, headers: seq<Header>, name: string)
    requires forall i | 0 <= i < |headers| :: ':' !in headers[i].name
    ensures FirstHeader(ProbeLines(path, headers)[1..], name) == Expected(headers, name)
  {
    hide SameName, HeaderLines, Tail, FirstHeader, FirstConfigured, HasHost, RequestLine;
    HeadersReadBack(headers, Tail(headers), name);
    TailReadBack(headers, name);
    if HasHost(headers) && SameName("host", name) {
      HostIsConfigured(headers, name);
    }
    LinesAfterFirst(path, headers);
  }

  /** The repository's own parser recovers what the probe was built from, whatever the configured
      headers hold: the request line, an empty body, and under every name the first configured value,
      with line breaks removed. The only blank line of the text is at its end. */
  lemma ProbeReadBack(path: string, headers: seq<Header>, name: string)
    requires forall i | 0 <= i < |path| :: !Text.IsWhite(path[i]) && path[i] != '?'
    requires forall i | 0 <= i < |headers| :: ':' !in headers[i].name
    ensures var raw := Ended(ProbeLines(path, headers)) + CRLF;
            var r := ParseRequest(raw);
            && FindBlank(raw) == Some(|raw| - 4)
            && r.verb == "GET" && r.path == (if path == "" then "/" else path) && r.query == "" && r.body == ""
            && HeaderInHead(r.head, name) == Expected(headers, name)
  {
    hide ProbeLines, Ended, FindBlank, Lines, Words, Expected, FirstHeader, Lower;
    var target := if path == "" then "/" else path;
    var lines := ProbeLines(path, headers);
    FirstLine(path, headers);
    LinesClean(path, headers);
    var head := Join(lines, CRLF);
    EndedIsJoin(lines);
    var raw := Ended(lines) + CRLF;
    assert raw == head + BLANK;
    BlankAtEnd(lines);
    LinesOfJoin(lines);
    assert raw[..|head|] == head && raw[|head| + 4..] == "";
    RequestLineWords(target);
    assert '?' !in target;
    NoSplit(target);
    UpperGet();
    HeadReadBack(path, headers, name);
  }

  lemma FirstLine(path: string, headers: seq<Header>)
    ensures ProbeLines(path, headers) != []
    ensures ProbeLines(path, headers)[0] == RequestLine(if path == "" then "/" else path)
  {
    hide HeaderLines, Tail, RequestLine;
  }

  lemma NoSplit(s: string)
    requires '?' !in s
    ensures SplitOnce(s, '?') == None
  {
  }

  lemma UpperGet()
    ensures Upper("GET") == "GET"
  {
  }

  function CountHosts(lines: seq<string>): nat {
    if lines == [] then 0 else (if IsHeader(lines[0], "host") then 1 else 0) + CountHosts(lines[1..])
  }

  function ConfiguredHosts(headers: seq<Header>): (n: nat)
    ensures n > 0 <==> HasHost(headers)
  {
    if headers == [] then 0
    else (if SameName(CleanName(headers[0]), "host") then 1 else 0) + ConfiguredHosts(headers[1..])
  }

  lemma {:induction false} HostsOfHeaders(headers: seq<Header>, tail: seq<string>)
    requires forall i | 0 <= i < |headers| :: ':' !in headers[i].name
    ensures CountHosts(HeaderLines(headers) + tail) == ConfiguredHosts(headers) + CountHosts(tail)
  {
    hide Strip, SameName, CleanName, LineOf, IsHeader, HasHost, CountHosts;
    if headers == [] {
      assert HeaderLines(headers) + tail == tail;
    } else {
      HostsOfHeaders(headers[1..], tail);
      LineReadBack(headers[0], "host");
      NotHost();
      OneMoreLine(headers, tail);
    }
  }

  lemma OneMoreLine(headers: seq<Header>, tail: seq<string>)
    requires headers != []
    ensures var more, line := HeaderLines(headers[1..]) + tail, LineOf(headers[0]);
            CountHosts(HeaderLines(headers) + tail)
            == CountHosts(more) + if CleanName(headers[0]) != "" && IsHeader(line, "host") then 1 else 0
  {
    hide CleanName, LineOf, IsHeader, CountHosts;
    if CleanName(headers[0]) != "" {
      var more := HeaderLines(headers[1..]) + tail;
      assert [LineOf(headers[0])] + HeaderLines(headers[1..]) + tail == [LineOf(headers[0])] + more;
      CountAppend(more, LineOf(headers[0]));
    }
  }

  /** Every configured Host line is written, and exactly one when none is configured. */
  lemma HostLineCount(path: string, headers: seq<Header>)
    requires forall i | 0 <= i < |headers| :: ':' !in headers[i].name
    ensures CountHosts(ProbeLines(path, headers)[1..])
            == if ConfiguredHosts(headers) > 0 then ConfiguredHosts(headers) else 1
  {
    hide RequestLine, SameName, CleanName, Lower, FALLBACK, CLOSE, IsHeader, Strip;
    HostsOfHeaders(headers, Tail(headers));
    TailHosts(headers);
    LinesAfterFirst(path, headers);
    hide HeaderLines, HasHost, CountHosts, Tail, ProbeLines;
  }

  lemma LinesAfterFirst(path: string, headers: seq<Header>)
    ensures ProbeLines(path, headers)[1..] == HeaderLines(headers) + Tail(headers)
  {
    hide HeaderLines, Tail, RequestLine;
  }

  lemma CountAppend(a: seq<string>, line: string)
    ensures CountHosts([line] + a) == CountHosts(a) + if IsHeader(line, "host") then 1 else 0
  {
    hide IsHeader;
    assert ([line] + a)[1..] == a;
  }

  lemma CountOne(line: string)
    ensures CountHosts([line]) == if IsHeader(line, "host") then 1 else 0
  {
    hide IsHeader;
    CountAppend([], line);
    assert [line] + [] == [line];
  }

  lemma CountTwo(line: string, other: string)
    ensures CountHosts([line, other])
            == (if IsHeader(line, "host") then 1 else 0) + if IsHeader(other, "host") then 1 else 0
  {
    hide IsHeader;
    CountOne(other);
    CountAppend([other], line);
    assert [line] + [other] == [line, other];
  }

  lemma ConnectionIsNotHost()
    ensures !SameName("connection", "host")
  {
    assert |Lower("connection")| != |Lower("host")|;
  }

  lemma TailHosts(headers: seq<Header>)
    ensures CountHosts(Tail(headers)) == if HasHost(headers) then 0 else 1
  {
    hide IsHeader, HasHost, FALLBACK, CLOSE, SameName, HeaderValue, CountHosts;
    FallbackLine("host");
    CloseLine("host");
    ConnectionIsNotHost();
    assert SameName("host", "host") by { Same("host"); }
    CountOne(CLOSE);
    CountTwo(FALLBACK, CLOSE);
  }

  lemma Same(s: string)
    ensures SameName(s, s)
  {
  }
}
