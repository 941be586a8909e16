/** Reading and parsing HTTP/1 requests; text is a sequence of characters, one for each byte. */
module Http1 {
  import opened Common
  import opened Seqs
  import Text
  import Numbers

  const CRLF := "\r\n"
  const BLANK := "\r\n\r\n"

  const MAX_HEAD := 64 * 1024
  const MAX_USIZE := 0xffff_ffff_ffff_ffff

  predicate AtBlank(s: string) {
    |s| >= 4 && s[0] == '\r' && s[1] == '\n' && s[2] == '\r' && s[3] == '\n'
  }

  /** The first position of the blank line. */
  function FindBlank(s: string): (r: Option<nat>)
    ensures r.Some? ==> r.value + 4 <= |s| && s[r.value..r.value + 4] == BLANK
  {
    if |s| < 4 then None
    else if AtBlank(s) then Some(0)
    else
      match FindBlank(s[1..])
      case None => None
      case Some(i) => Some(i + 1)
  }

  /** `body_offset`: the first position after the blank line. */
  function BodyOffset(buf: string): (r: Option<nat>)
    ensures r.Some? ==> 4 <= r.value <= |buf|
  {
    match FindBlank(buf)
    case None => None
    case Some(i) => Some(i + 4)
  }

  /** `split("\r\n")`. */
  function Lines(s: string): (lines: seq<string>)
    ensures |lines| > 0
  {
    if s == "" then [""]
    else if |s| >= 2 && s[0] == '\r' && s[1] == '\n' then [""] + Lines(s[2..])
    else
      var rest := Lines(s[1..]);
      [[s[0]] + rest[0]] + rest[1..]
  }

  function LowerChar(c: char): char {
    if 'A' <= c <= 'Z' then (c as int + 32) as char else c
  }

  function Lower(s: string): string {
    seq(|s|, i requires 0 <= i < |s| => LowerChar(s[i]))
  }

  function UpperChar(c: char): char {
    if 'a' <= c <= 'z' then (c as int - 32) as char else c
  }

  function Upper(s: string): string {
    seq(|s|, i requires 0 <= i < |s| => UpperChar(s[i]))
  }

  /** `eq_ignore_ascii_case`. */
  predicate SameName(a: string, b: string) {
    Lower(a) == Lower(b)
  }

  /** The name before the first colon is `name`, white space and letter case aside. */
  predicate IsHeader(line: string, name: string) {
    var kv := SplitOnce(line, ':');
    kv.Some? && SameName(Text.Trim(kv.value.0), name)
  }

  function HeaderValue(line: string): string
    requires ':' in line
  {
    Text.Trim(SplitOnce(line, ':').value.1)
  }

  function FirstHeader(lines: seq<string>, name: string): Option<string> {
    if lines == [] then None
    else if IsHeader(lines[0], name) then Some(HeaderValue(lines[0]))
    else FirstHeader(lines[1..], name)
  }

  /** `header_in_head`: the first line after the request line with that name. */
  function HeaderInHead(head: string, name: string): Option<string> {
    FirstHeader(Lines(head)[1..], name)
  }

  /** The body length a head declares; anything unreadable counts as 0. */
  function Wanted(head: string): nat {
    match HeaderInHead(head, "content-length")
    case None => 0
    case Some(v) =>
      match Numbers.ParseUint(v, MAX_USIZE)
      case None => 0
      case Some(n) => n
  }

  // ----- Parsing -----

  datatype Request = Request(verb: string, path: string, query: string, body: string, head: string)

  /** `split_whitespace`. */
  function Words(s: string): seq<string> {
    if s == "" then []
    else if Text.IsWhite(s[0]) then Words(s[1..])
    else
      var rest := Words(s[1..]);
      if |s| > 1 && !Text.IsWhite(s[1]) && rest != [] then [[s[0]] + rest[0]] + rest[1..] else [[s[0]]] + rest
  }

  /** `parse_str`. */
  function ParseRequest(raw: string): Request {
    var blank := FindBlank(raw);
    var head := if blank.Some? then raw[..blank.value] else raw;
    var body := if blank.Some? then raw[blank.value + 4..] else "";
    var words := Words(Lines(head)[0]);
    var target := if |words| > 1 then words[1] else "/";
    var (path, query) := match SplitOnce(target, '?') case Some((p, q)) => (p, q) case None => (target, "");
    Request(Upper(if words != [] then words[0] else ""), if path == "" then "/" else path, query, body, head)
  }

  // ----- Reading from a segmented stream -----

  /** What has been received when `read_request` stops, starting from `buf`. */
  function Received(buf: string, chunks: seq<string>): string
    decreases |chunks|
  {
    if chunks == [] then buf
    else
      var now := buf + chunks[0];
      if |now| > MAX_HEAD * 4 then now
      else
        match BodyOffset(now)
        case None => Received(now, chunks[1..])
        case Some(off) => if |now| - off >= Wanted(now[..off]) then now else Received(now, chunks[1..])
  }

  function Concat(chunks: seq<string>): string {
    if chunks == [] then "" else chunks[0] + Concat(chunks[1..])
  }

  /** What has been found stays found: later bytes do not move the blank line. */
  lemma {:induction false} BlankStable(s: string, more: string)
    requires FindBlank(s).Some?
    ensures FindBlank(s + more) == FindBlank(s)
  {
    if !AtBlank(s) {
      BlankStable(s[1..], more);
      assert (s + more)[1..] == s[1..] + more;
    }
  }

  lemma OffsetStable(s: string, more: string)
    requires BodyOffset(s).Some?
    ensures BodyOffset(s + more) == BodyOffset(s) && (s + more)[..BodyOffset(s).value] == s[..BodyOffset(s).value]
  {
    BlankStable(s, more);
  }

  /** `read_request`: the chunks are what the successive reads return; after them the stream has ended. */
  method ReadRequest(chunks: seq<string>) returns (r: Request)
    requires forall i | 0 <= i < |chunks| :: chunks[i] != ""
    ensures r == ParseRequest(Received("", chunks))
  {
    var buf := "";
    var wantBody := 0;
    var i := 0;
    while i < |chunks|
      invariant 0 <= i <= |chunks|
      invariant Received("", chunks) == Received(buf, chunks[i..])
      invariant wantBody > 0 ==> BodyOffset(buf).Some? && wantBody == Wanted(buf[..BodyOffset(buf).value])
    {
      ghost var before := buf;
      if BodyOffset(before).Some? {
        OffsetStable(before, chunks[i]);
      }
      buf := buf + chunks[i];
      assert chunks[i..][1..] == chunks[i + 1..];
      i := i + 1;
      if |buf| > MAX_HEAD * 4 {
        break;
      }
      var off := BodyOffset(buf);
      if off.None? {
        continue;
      }
      if wantBody == 0 {
        wantBody := Wanted(buf[..off.value]);
      }
      if |buf| - off.value >= wantBody {
        break;
      }
    }
    r := ParseRequest(buf);
  }

  /** A complete message: the blank line, then exactly as many bytes as the head declares. */
  predicate Complete(whole: string) {
    var off := BodyOffset(whole);
    off.Some? && |whole| - off.value == Wanted(whole[..off.value]) && |whole| <= MAX_HEAD * 4
  }

  /** All of a complete message is received, and nothing is read after it. */
  lemma {:induction false} ReceivesAll(buf: string, chunks: seq<string>, later: seq<string>, whole: string)
    requires chunks != [] && whole == buf + Concat(chunks) && Complete(whole)
    requires forall i | 0 <= i < |chunks| :: chunks[i] != ""
    ensures Received(buf, chunks + later) == whole
    decreases |chunks|
  {
    hide Wanted, BodyOffset;
    var now, all := buf + chunks[0], chunks + later;
    assert whole == now + Concat(chunks[1..]);
    assert all[0] == chunks[0] && all[1..] == chunks[1..] + later;
    if BodyOffset(now).Some? {
      OffsetStable(now, Concat(chunks[1..]));
    }
    if |chunks| == 1 {
      assert now == whole;
    } else {
      assert chunks[1..][0] != "";
      ReceivesAll(now, chunks[1..], later, whole);
    }
  }

  /** `read_request` does not depend on how TCP cuts the stream: every division of a complete message
      into nonempty chunks gives the parse of the whole, whatever may follow. */
  lemma SegmentationIndependent(whole: string, chunks: seq<string>, later: seq<string>)
    requires Complete(whole) && whole == Concat(chunks)
    requires forall i | 0 <= i < |chunks| :: chunks[i] != ""
    ensures ParseRequest(Received("", chunks + later)) == ParseRequest(whole)
  {
    assert "" + Concat(chunks) == whole;
    ReceivesAll("", chunks, later, whole);
  }
}
