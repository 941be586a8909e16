/** DNS queries and answers on the wire (RFC 1035 section 4.1). */
module Dns {
  import opened Common
  import opened Seqs

  const DOT: Byte := 46

  // ----- Names -----

  function TrimDots(name: seq<Byte>): (r: seq<Byte>)
    ensures r <= name && (r != [] ==> r[|r| - 1] != DOT)
  {
    if name != [] && name[|name| - 1] == DOT then TrimDots(name[..|name| - 1]) else name
  }

  predicate LabelOk(l: seq<Byte>) {
    1 <= |l| <= 63
  }

  predicate LabelsOk(labels: seq<seq<Byte>>) {
    forall i | 0 <= i < |labels| :: LabelOk(labels[i])
  }

  function EncodeLabels(labels: seq<seq<Byte>>): seq<Byte>
    requires LabelsOk(labels)
  {
    if labels == [] then [] else assert LabelOk(labels[0]); [|labels[0]|] + labels[0] + EncodeLabels(labels[1..])
  }

  /** The query for a list of labels. */
  function Query(id: nat, labels: seq<seq<Byte>>, qtype: nat): seq<Byte>
    requires LabelsOk(labels)
  {
    U16(id) + [1, 0, 0, 1, 0, 0, 0, 0, 0, 0] + EncodeLabels(labels) + [0] + U16(qtype) + [0, 1]
  }

  predicate Encodable(name: seq<Byte>) {
    TrimDots(name) != [] && LabelsOk(Split(TrimDots(name), DOT))
  }

  lemma {:induction false} EncodeLabelsAppend(labels: seq<seq<Byte>>, l: seq<Byte>)
    requires LabelOk(l) && LabelsOk(labels)
    ensures LabelsOk(labels + [l]) && EncodeLabels(labels + [l]) == EncodeLabels(labels) + [|l|] + l
  {
    if labels == [] {
      assert [l][1..] == [];
      assert [] + [l] == [l];
    } else {
      FirstLabel(labels);
      FirstLabel(labels + [l]);
      hide EncodeLabels;
      EncodeLabelsAppend(labels[1..], l);
      assert (labels + [l])[1..] == labels[1..] + [l] && (labels + [l])[0] == labels[0];
      Reassociate([|labels[0]|] + labels[0], EncodeLabels(labels[1..]), [|l|], l);
    }
  }

  lemma NoLabels()
    ensures EncodeLabels([]) == []
  {
  }

  /** `build_query`: a query exactly for the names whose labels all have 1 to 63 bytes. */
  method BuildQuery(id: nat, name: seq<Byte>, qtype: nat) returns (r: Option<seq<Byte>>)
    ensures r.Some? <==> Encodable(name)
    ensures r.Some? ==> r.value == Query(id, Split(TrimDots(name), DOT), qtype)
  {
    hide EncodeLabels, TrimDots, Split;
    var buf := U16(id) + [1, 0] + [0, 1] + [0, 0] + [0, 0] + [0, 0];
    ghost var header := U16(id) + [1, 0, 0, 1, 0, 0, 0, 0, 0, 0];
    assert buf == header;
    var trimmed := TrimDots(name);
    if trimmed == [] {
      return None;
    }
    var labels := Split(trimmed, DOT);
    NoLabels();
    assert labels[..0] == [];
    for i := 0 to |labels|
      invariant LabelsOk(labels[..i])
      invariant buf == header + EncodeLabels(labels[..i])
    {
      var part := labels[i];
      if part == [] || |part| > 63 {
        return None;
      }
      assert labels[..i + 1] == labels[..i] + [part];
      EncodeLabelsAppend(labels[..i], part);
      assert buf + [|part|] + part == header + (EncodeLabels(labels[..i]) + [|part|] + part);
      buf := buf + [|part|] + part;
    }
    assert labels[..|labels|] == labels;
    buf := buf + [0] + U16(qtype) + [0, 1];
    return Some(buf);
  }

  /** Where a name that starts at `pos` ends: after its zero byte or its compression pointer. */
  function NameEnd(buf: seq<Byte>, pos: nat): (r: Option<nat>)
    ensures r.Some? ==> pos < r.value <= |buf|
    decreases |buf| - pos
  {
    if pos >= |buf| then None
    else
      var len: int := buf[pos];
      if len == 0 then Some(pos + 1)
      else if len >= 192 then if pos + 2 > |buf| then None else Some(pos + 2)
      else if len >= 64 then None
      else NameEnd(buf, pos + 1 + len)
  }

  /** `skip_name`: total and in bounds on every buffer. */
  method SkipName(buf: seq<Byte>, start: nat) returns (r: Option<nat>)
    ensures r == NameEnd(buf, start)
  {
    var pos := start;
    while true
      invariant NameEnd(buf, pos) == NameEnd(buf, start)
      decreases |buf| - pos
    {
      if pos >= |buf| {
        return None;
      }
      var len: int := buf[pos];
      if len == 0 {
        return Some(pos + 1);
      }
      if len / 64 % 4 == 3 {
        if pos + 2 > |buf| {
          return None;
        }
        return Some(pos + 2);
      }
      if len / 64 % 4 != 0 {
        return None;
      }
      pos := pos + 1 + len;
    }
  }

  // ----- Reading a query back -----

  /** The labels of an uncompressed name at `pos`, with the position after it. */
  function ReadLabels(buf: seq<Byte>, pos: nat): Option<(seq<seq<Byte>>, nat)>
    decreases |buf| - pos
  {
    if pos >= |buf| then None
    else
      var len: int := buf[pos];
      if len == 0 then Some(([], pos + 1))
      else if len >= 64 || pos + 1 + len > |buf| then None
      else
        match ReadLabels(buf, pos + 1 + len)
        case None => None
        case Some((rest, next)) => Some(([buf[pos + 1..pos + 1 + len]] + rest, next))
  }

  /** A chunk lies in the buffer at a position. */
  predicate At(buf: seq<Byte>, pos: nat, chunk: seq<Byte>) {
    pos + |chunk| <= |buf| && buf[pos..pos + |chunk|] == chunk
  }

  lemma AtSplit(buf: seq<Byte>, pos: nat, a: seq<Byte>, b: seq<Byte>)
    requires At(buf, pos, a + b)
    ensures At(buf, pos, a) && At(buf, pos + |a|, b)
  {
    var c := buf[pos..pos + |a + b|];
    assert buf[pos..pos + |a|] == c[..|a|] == a;
    assert buf[pos + |a|..pos + |a| + |b|] == c[|a|..] == b;
  }

  lemma AtInside(buf: seq<Byte>, pos: nat, a: seq<Byte>, b: seq<Byte>)
    requires At(buf, pos, a + b)
    ensures At(buf, pos, a) && At(buf, pos + |a|, b) && pos + |a| + |b| <= |buf|
  {
    AtSplit(buf, pos, a, b);
  }

  lemma AtByte(buf: seq<Byte>, pos: nat, b: Byte, rest: seq<Byte>)
    requires At(buf, pos, [b] + rest)
    ensures pos < |buf| && buf[pos] == b && At(buf, pos + 1, rest)
  {
    AtSplit(buf, pos, [b], rest);
    assert buf[pos..pos + 1][0] == buf[pos];
  }

  lemma LabelStep(buf: seq<Byte>, pos: nat, l: seq<Byte>, more: seq<Byte>)
    requires LabelOk(l) && At(buf, pos, [|l|] + (l + more))
    ensures At(buf, pos + 1 + |l|, more) && NameEnd(buf, pos) == NameEnd(buf, pos + 1 + |l|)
    ensures ReadLabels(buf, pos) == match ReadLabels(buf, pos + 1 + |l|)
                                    case None => None
                                    case Some((rest, next)) => Some(([l] + rest, next))
  {
    AtByte(buf, pos, |l|, l + more);
    AtSplit(buf, pos + 1, l, more);
  }

  lemma NoLabelsRead(buf: seq<Byte>, pos: nat)
    requires At(buf, pos, EncodeLabels([]) + [0])
    ensures |EncodeLabels([])| == 0 && ReadLabels(buf, pos) == Some(([], pos + 1)) && NameEnd(buf, pos) == Some(pos + 1)
  {
    assert EncodeLabels([]) + [0] == [0] + [];
    AtByte(buf, pos, 0, []);
  }

  lemma NextLabel(labels: seq<seq<Byte>>)
    requires LabelsOk(labels) && labels != []
    ensures LabelOk(labels[0]) && LabelsOk(labels[1..])
    ensures EncodeLabels(labels) == [|labels[0]|] + labels[0] + EncodeLabels(labels[1..])
    ensures EncodeLabels(labels) + [0] == [|labels[0]|] + (labels[0] + (EncodeLabels(labels[1..]) + [0]))
  {
    assert LabelOk(labels[0]);
    FirstLabel(labels);
    hide EncodeLabels;
    Reassociate([|labels[0]|], labels[0], EncodeLabels(labels[1..]), [0]);
  }

  lemma FirstLabel(labels: seq<seq<Byte>>)
    requires LabelsOk(labels) && labels != []
    ensures LabelOk(labels[0]) && EncodeLabels(labels) == [|labels[0]|] + labels[0] + EncodeLabels(labels[1..])
  {
    assert LabelOk(labels[0]);
  }

  lemma Reassociate(a: seq<Byte>, b: seq<Byte>, c: seq<Byte>, d: seq<Byte>)
    ensures a + b + c + d == a + (b + (c + d))
  {
  }

  lemma {:induction false} LabelsRead(buf: seq<Byte>, pos: nat, labels: seq<seq<Byte>>)
    requires LabelsOk(labels)
    requires At(buf, pos, EncodeLabels(labels) + [0])
    ensures var end := pos + |EncodeLabels(labels)| + 1;
            ReadLabels(buf, pos) == Some((labels, end)) && NameEnd(buf, pos) == Some(end)
    decreases |labels|
  {
    if labels == [] {
      NoLabelsRead(buf, pos);
    } else {
      NextLabel(labels);
      hide At, NameEnd, ReadLabels, EncodeLabels;
      assert LabelOk(labels[0]);
      var l, more := labels[0], EncodeLabels(labels[1..]) + [0];
      LabelStep(buf, pos, l, more);
      LabelsRead(buf, pos + 1 + |l|, labels[1..]);
      assert [l] + labels[1..] == labels;
    }
  }

  /** The question of a query gives back the labels, `skip_name` lands just before its four last bytes,
      and those hold the type. */
  lemma QueryReadBack(id: nat, labels: seq<seq<Byte>>, qtype: nat)
    requires LabelsOk(labels) && id < 65536 && qtype < 65536
    ensures var q := Query(id, labels, qtype);
            |q| >= 16 && ReadLabels(q, 12) == Some((labels, |q| - 4)) && NameEnd(q, 12) == Some(|q| - 4)
            && ReadU16(q, |q| - 4) == qtype && ReadU16(q, 0) == id
  {
    var q := Query(id, labels, qtype);
    var header := U16(id) + [1, 0, 0, 1, 0, 0, 0, 0, 0, 0];
    var name := EncodeLabels(labels) + [0];
    assert q == header + (name + (U16(qtype) + [0, 1]));
    hide EncodeLabels, U16, ReadU16, At, ReadLabels, NameEnd;
    SectionsInPlace(header, name, U16(qtype), [0, 1]);
    LabelsRead(q, 12, labels);
    U16RoundTrip(q, 12 + |name|, qtype);
    AtSplit(q, 0, U16(id), [1, 0, 0, 1, 0, 0, 0, 0, 0, 0]);
    U16RoundTrip(q, 0, id);
  }

  /** Two names with the same query are the same up to trailing dots. */
  lemma QueryInjective(id: nat, name: seq<Byte>, qtype: nat, id': nat, name': seq<Byte>, qtype': nat)
    requires Encodable(name) && Encodable(name')
    requires id < 65536 && id' < 65536 && qtype < 65536 && qtype' < 65536
    requires Query(id, Split(TrimDots(name), DOT), qtype) == Query(id', Split(TrimDots(name'), DOT), qtype')
    ensures TrimDots(name) == TrimDots(name') && id == id' && qtype == qtype'
  {
    QueryReadBack(id, Split(TrimDots(name), DOT), qtype);
    QueryReadBack(id', Split(TrimDots(name'), DOT), qtype');
    JoinSplit(TrimDots(name), DOT);
    JoinSplit(TrimDots(name'), DOT);
  }

  // ----- Answers -----

  /** The data of a record of the asked type, when its length is that of an address: A or AAAA. */
  function Wanted(rtype: nat, data: seq<Byte>, qtype: nat): seq<seq<Byte>> {
    if rtype == qtype && ((qtype == 1 && |data| == 4) || (qtype == 28 && |data| == 16)) then [data] else []
  }

  function AfterQuestions(buf: seq<Byte>, pos: nat, count: nat): (r: Option<nat>)
    ensures r.Some? && count > 0 ==> r.value <= |buf|
    decreases count
  {
    if count == 0 then Some(pos)
    else
      match NameEnd(buf, pos)
      case None => None
      case Some(end) => if end + 4 > |buf| then None else AfterQuestions(buf, end + 4, count - 1)
  }

  /** The record at `pos`: its type, its data, and where the next one starts. */
  function RecordAt(buf: seq<Byte>, pos: nat): (r: Option<(nat, seq<Byte>, nat)>)
  {
    match NameEnd(buf, pos)
    case None => None
    case Some(p) =>
      if p + 10 > |buf| then None
      else
        var rdlen := ReadU16(buf, p + 8);
        if p + 10 + rdlen > |buf| then None
        else Some((ReadU16(buf, p), buf[p + 10..p + 10 + rdlen], p + 10 + rdlen))
  }

  function Records(buf: seq<Byte>, pos: nat, count: nat, qtype: nat): Option<seq<seq<Byte>>>
    decreases count
  {
    if count == 0 then Some([])
    else
      match RecordAt(buf, pos)
      case None => None
      case Some((rtype, data, next)) =>
        match Records(buf, next, count - 1, qtype)
        case None => None
        case Some(rest) => Some(Wanted(rtype, data, qtype) + rest)
  }

  /** What `parse_response` accepts and returns. */
  function Parsed(buf: seq<Byte>, id: nat, qtype: nat): Option<seq<seq<Byte>>> {
    if |buf| < 12 || ReadU16(buf, 0) != id || ReadU16(buf, 2) / 32768 % 2 == 0 || ReadU16(buf, 2) % 16 != 0 then None
    else
      match AfterQuestions(buf, 12, ReadU16(buf, 4))
      case None => None
      case Some(pos) =>
        match Records(buf, pos, ReadU16(buf, 6), qtype)
        case None => None
        case Some(ips) => if ips == [] then None else Some(ips)
  }

  lemma {:induction false} RecordsAreAddresses(buf: seq<Byte>, pos: nat, count: nat, qtype: nat)
    requires Records(buf, pos, count, qtype).Some?
    ensures forall i | 0 <= i < |Records(buf, pos, count, qtype).value| ::
              |Records(buf, pos, count, qtype).value[i]| == if qtype == 1 then 4 else 16
    decreases count
  {
    if count > 0 {
      RecordsAreAddresses(buf, RecordAt(buf, pos).value.2, count - 1, qtype);
    }
  }

  /** `parse_response`: total and in bounds on arbitrary bytes; what it returns is never empty and made
      of addresses of the asked family, so taking the first one is always defined. */
  method ParseResponse(buf: seq<Byte>, id: nat, qtype: nat) returns (r: Option<seq<seq<Byte>>>)
    ensures r == Parsed(buf, id, qtype)
    ensures r.Some? ==> r.value != [] && forall i | 0 <= i < |r.value| :: |r.value[i]| == if qtype == 1 then 4 else 16
  {
    if |buf| < 12 {
      return None;
    }
    if ReadU16(buf, 0) != id {
      return None;
    }
    var flags := ReadU16(buf, 2);
    if flags / 32768 % 2 == 0 {
      return None;
    }
    if flags % 16 != 0 {
      return None;
    }
    var qd, an := ReadU16(buf, 4), ReadU16(buf, 6);
    var pos: nat := 12;
    for i := 0 to qd
      invariant AfterQuestions(buf, 12, qd) == AfterQuestions(buf, pos, qd - i)
    {
      var end := SkipName(buf, pos);
      if end.None? {
        return None;
      }
      pos := end.value + 4;
      if pos > |buf| {
        return None;
      }
    }
    var found := ReadRecords(buf, pos, an, qtype);
    if found.None? || found.value == [] {
      return None;
    }
    RecordsAreAddresses(buf, pos, an, qtype);
    return found;
  }

  /** The record header and data at `pos`, with the position after them. */
  method ReadRecord(buf: seq<Byte>, pos: nat) returns (r: Option<(nat, seq<Byte>, nat)>)
    ensures r == RecordAt(buf, pos)
  {
    var end := SkipName(buf, pos);
    if end.None? {
      return None;
    }
    var p := end.value;
    if p + 10 > |buf| {
      return None;
    }
    var rtype, rdlen := ReadU16(buf, p), ReadU16(buf, p + 8);
    p := p + 10;
    if p + rdlen > |buf| {
      return None;
    }
    return Some((rtype, buf[p..p + rdlen], p + rdlen));
  }

  /** The loop over the answer section. */
  method ReadRecords(buf: seq<Byte>, start: nat, an: nat, qtype: nat) returns (r: Option<seq<seq<Byte>>>)
    ensures r == Records(buf, start, an, qtype)
  {
    hide RecordAt, Records, Prepended;
    var pos: nat := start;
    var out: seq<seq<Byte>> := [];
    Unprepended(Records(buf, start, an, qtype));
    for i := 0 to an
      invariant Records(buf, start, an, qtype) == Prepended(out, Records(buf, pos, an - i, qtype))
    {
      RecordStep(buf, pos, an - i, qtype, out);
      NothingPrepended(out);
      var found := ReadRecord(buf, pos);
      if found.None? {
        return None;
      }
      var (rtype, data, next) := found.value;
      ghost var before := out;
      if rtype == qtype {
        if qtype == 1 && |data| == 4 {
          out := out + [data];
        } else if qtype == 28 && |data| == 16 {
          out := out + [data];
        }
      }
      assert out == before + Wanted(rtype, data, qtype);
      pos := next;
    }
    NoRecords(buf, pos, qtype, out);
    return Some(out);
  }

  lemma NoRecords(buf: seq<Byte>, pos: nat, qtype: nat, out: seq<seq<Byte>>)
    ensures Prepended(out, Records(buf, pos, 0, qtype)) == Some(out)
  {
    assert out + [] == out;
  }

  lemma NothingPrepended<T>(out: seq<T>)
    ensures Prepended(out, None) == None
  {
  }

  function Prepended<T>(out: seq<T>, r: Option<seq<T>>): Option<seq<T>> {
    if r.None? then None else Some(out + r.value)
  }

  lemma Unprepended<T>(r: Option<seq<T>>)
    ensures Prepended([], r) == r
  {
    assert r.Some? ==> [] + r.value == r.value;
  }

  lemma RecordStep(buf: seq<Byte>, pos: nat, count: nat, qtype: nat, out: seq<seq<Byte>>)
    requires count > 0
    ensures Prepended(out, Records(buf, pos, count, qtype))
            == match RecordAt(buf, pos)
               case None => None
               case Some((rtype, data, next)) =>
                 Prepended(out + Wanted(rtype, data, qtype), Records(buf, next, count - 1, qtype))
  {
    var here := RecordAt(buf, pos);
    if here.Some? {
      var (rtype, data, next) := here.value;
      var tail := Records(buf, next, count - 1, qtype);
      if tail.Some? {
        assert out + (Wanted(rtype, data, qtype) + tail.value) == out + Wanted(rtype, data, qtype) + tail.value;
      }
    }
  }

  // ----- Well-formed responses -----

  /** A name on the wire: labels, then the root's zero byte or a compression pointer. */
  datatype WireName = WireName(labels: seq<seq<Byte>>, pointer: Option<(Byte, Byte)>)

  datatype Question = Question(name: WireName, typeAndClass: seq<Byte>)
  datatype Record = Record(name: WireName, rtype: nat, classAndTtl: seq<Byte>, data: seq<Byte>)

  /** `rest` stands for the counts and the bytes of the authority and additional sections. */
  datatype Response = Response(id: nat, flags: nat, questions: seq<Question>, records: seq<Record>,
                               otherCounts: seq<Byte>, rest: seq<Byte>)

  predicate NameOk(n: WireName) {
    LabelsOk(n.labels) && (n.pointer.Some? ==> n.pointer.value.0 >= 192)
  }

  predicate QuestionOk(q: Question) {
    NameOk(q.name) && |q.typeAndClass| == 4
  }

  predicate RecordOk(r: Record) {
    NameOk(r.name) && r.rtype < 65536 && |r.classAndTtl| == 6 && |r.data| < 65536
  }

  predicate QuestionsOk(qs: seq<Question>) {
    forall i | 0 <= i < |qs| :: QuestionOk(qs[i])
  }

  predicate RecordsOk(rs: seq<Record>) {
    forall i | 0 <= i < |rs| :: RecordOk(rs[i])
  }

  /** Every part fits its place on the wire; the flags are free. */
  predicate WellBuilt(r: Response) {
    && r.id < 65536 && r.flags < 65536 && |r.otherCounts| == 4
    && |r.questions| < 65536 && |r.records| < 65536 && QuestionsOk(r.questions) && RecordsOk(r.records)
  }

  function NameBytes(n: WireName): seq<Byte>
    requires NameOk(n)
  {
    EncodeLabels(n.labels) + match n.pointer case None => [0] case Some((high, low)) => [high, low]
  }

  function RecordBytes(r: Record): seq<Byte>
    requires RecordOk(r)
  {
    NameBytes(r.name) + (U16(r.rtype) + r.classAndTtl + U16(|r.data|)) + r.data
  }

  function AllQuestions(qs: seq<Question>): seq<Byte>
    requires QuestionsOk(qs)
  {
    if qs == [] then []
    else
      assert QuestionOk(qs[0]);
      NameBytes(qs[0].name) + qs[0].typeAndClass + AllQuestions(qs[1..])
  }

  function AllRecords(rs: seq<Record>): seq<Byte>
    requires RecordsOk(rs)
  {
    if rs == [] then [] else assert RecordOk(rs[0]); RecordBytes(rs[0]) + AllRecords(rs[1..])
  }

  function ResponseBytes(r: Response): seq<Byte>
    requires WellBuilt(r)
  {
    (U16(r.id) + U16(r.flags) + U16(|r.questions|) + U16(|r.records|) + r.otherCounts)
    + (AllQuestions(r.questions) + (AllRecords(r.records) + r.rest))
  }

  /** The data of the records of the asked type with the length of an address, in order. */
  function Answers(rs: seq<Record>, qtype: nat): seq<seq<Byte>> {
    if rs == [] then [] else Wanted(rs[0].rtype, rs[0].data, qtype) + Answers(rs[1..], qtype)
  }

  lemma NextOfName(n: WireName)
    requires NameOk(n) && n.labels != []
    ensures LabelOk(n.labels[0]) && NameOk(n.(labels := n.labels[1..]))
    ensures NameBytes(n) == [|n.labels[0]|] + (n.labels[0] + NameBytes(n.(labels := n.labels[1..])))
  {
    FirstLabel(n.labels);
    hide EncodeLabels, LabelOk;
    var tail: seq<Byte> := match n.pointer case None => [0] case Some((high, low)) => [high, low];
    Reassociate([|n.labels[0]|], n.labels[0], EncodeLabels(n.labels[1..]), tail);
  }

  lemma TailEndsAt(buf: seq<Byte>, pos: nat, n: WireName)
    requires NameOk(n) && n.labels == [] && At(buf, pos, NameBytes(n))
    ensures NameEnd(buf, pos) == Some(pos + |NameBytes(n)|)
  {
    var tail: seq<Byte> := match n.pointer case None => [0] case Some((high, low)) => [high, low];
    assert NameBytes(n) == [tail[0]] + tail[1..];
    AtByte(buf, pos, tail[0], tail[1..]);
  }

  lemma {:induction false} NameEndsAt(buf: seq<Byte>, pos: nat, n: WireName)
    requires NameOk(n) && At(buf, pos, NameBytes(n))
    ensures NameEnd(buf, pos) == Some(pos + |NameBytes(n)|)
    decreases |n.labels|
  {
    hide At, NameEnd, NameBytes, ReadLabels;
    if n.labels == [] {
      TailEndsAt(buf, pos, n);
    } else {
      assert LabelOk(n.labels[0]);
      var l, shorter := n.labels[0], n.(labels := n.labels[1..]);
      NextOfName(n);
      LabelStep(buf, pos, l, NameBytes(shorter));
      NameEndsAt(buf, pos + 1 + |l|, shorter);
    }
  }

  lemma {:induction false} QuestionsSkipped(buf: seq<Byte>, pos: nat, qs: seq<Question>)
    requires QuestionsOk(qs) && At(buf, pos, AllQuestions(qs))
    ensures AfterQuestions(buf, pos, |qs|) == Some(pos + |AllQuestions(qs)|)
    decreases |qs|
  {
    hide At, NameEnd, NameBytes;
    if qs != [] {
      assert QuestionOk(qs[0]);
      var name, fixed := NameBytes(qs[0].name), qs[0].typeAndClass;
      AtSplit(buf, pos, name + fixed, AllQuestions(qs[1..]));
      AtSplit(buf, pos, name, fixed);
      NameEndsAt(buf, pos, qs[0].name);
      QuestionsSkipped(buf, pos + |name| + 4, qs[1..]);
    }
  }

  lemma U16RoundTrip(buf: seq<Byte>, pos: nat, n: nat)
    requires n < 65536 && At(buf, pos, U16(n))
    ensures ReadU16(buf, pos) == n
  {
    assert buf[pos..pos + 2][0] == buf[pos] && buf[pos..pos + 2][1] == buf[pos + 1];
  }

  lemma RecordRead(buf: seq<Byte>, pos: nat, r: Record)
    requires RecordOk(r) && At(buf, pos, RecordBytes(r))
    ensures RecordAt(buf, pos) == Some((r.rtype, r.data, pos + |RecordBytes(r)|))
  {
    hide At, NameBytes, NameEnd, LabelsOk, U16, ReadU16;
    var name, p := NameBytes(r.name), pos + |NameBytes(r.name)|;
    var fixed := U16(r.rtype) + r.classAndTtl + U16(|r.data|);
    AtSplit(buf, pos, name + fixed, r.data);
    AtSplit(buf, pos, name, fixed);
    NameEndsAt(buf, pos, r.name);
    AtSplit(buf, p, U16(r.rtype) + r.classAndTtl, U16(|r.data|));
    AtSplit(buf, p, U16(r.rtype), r.classAndTtl);
    U16RoundTrip(buf, p, r.rtype);
    U16RoundTrip(buf, p + 8, |r.data|);
    AtSlice(buf, p + 10, r.data);
  }

  lemma AtSlice(buf: seq<Byte>, pos: nat, chunk: seq<Byte>)
    requires At(buf, pos, chunk)
    ensures pos + |chunk| <= |buf| && buf[pos..pos + |chunk|] == chunk
  {
  }

  lemma {:induction false} RecordsRead(buf: seq<Byte>, pos: nat, rs: seq<Record>, qtype: nat)
    requires RecordsOk(rs) && At(buf, pos, AllRecords(rs))
    ensures Records(buf, pos, |rs|, qtype) == Some(Answers(rs, qtype))
    decreases |rs|
  {
    hide At, RecordAt, RecordBytes;
    if rs != [] {
      assert RecordOk(rs[0]);
      AtSplit(buf, pos, RecordBytes(rs[0]), AllRecords(rs[1..]));
      RecordRead(buf, pos, rs[0]);
      RecordsRead(buf, pos + |RecordBytes(rs[0])|, rs[1..], qtype);
    }
  }

  lemma SectionsInPlace(header: seq<Byte>, questions: seq<Byte>, records: seq<Byte>, rest: seq<Byte>)
    requires |header| == 12
    ensures var buf := header + (questions + (records + rest));
            At(buf, 0, header) && At(buf, 12, questions) && At(buf, 12 + |questions|, records)
  {
    var buf := header + (questions + (records + rest));
    AtStart(buf);
    hide At;
    AtSplit(buf, 0, header, questions + (records + rest));
    AtSplit(buf, 12, questions, records + rest);
    AtSplit(buf, 12 + |questions|, records, rest);
  }

  /** QR is set, the rcode is 0, and there is something of the asked type. */
  predicate Welcome(r: Response, id: nat, qtype: nat) {
    r.id == id && r.flags >= 32768 && r.flags % 16 == 0 && Answers(r.records, qtype) != []
  }

  /** Every answer on the wire is decoded to exactly the wanted data, in order, when it bears the asked
      id, is a response without an error code and holds such data; otherwise it is refused. */
  lemma ResponseDecoded(r: Response, id: nat, qtype: nat)
    requires WellBuilt(r)
    ensures Parsed(ResponseBytes(r), id, qtype)
            == if Welcome(r, id, qtype) then Some(Answers(r.records, qtype)) else None
  {
    hide At, ReadU16, AfterQuestions, Records, Answers, AllQuestions, AllRecords, QuestionsOk, RecordsOk, U16;
    var buf := ResponseBytes(r);
    var header := U16(r.id) + U16(r.flags) + U16(|r.questions|) + U16(|r.records|) + r.otherCounts;
    var questions, records := AllQuestions(r.questions), AllRecords(r.records);
    SectionsInPlace(header, questions, records, r.rest);
    HeaderRead(buf, r, header);
    QuestionsSkipped(buf, 12, r.questions);
    RecordsRead(buf, 12 + |questions|, r.records, qtype);
    HighBit(r.flags);
  }

  lemma HighBit(flags: nat)
    requires flags < 65536
    ensures flags / 32768 % 2 == 0 <==> flags < 32768
  {
  }

  lemma AtStart(buf: seq<Byte>)
    ensures At(buf, 0, buf)
  {
  }

  lemma HeaderRead(buf: seq<Byte>, r: Response, header: seq<Byte>)
    requires WellBuilt(r) && At(buf, 0, header)
    requires header == U16(r.id) + U16(r.flags) + U16(|r.questions|) + U16(|r.records|) + r.otherCounts
    ensures |buf| >= 12 && ReadU16(buf, 0) == r.id && ReadU16(buf, 2) == r.flags
    ensures ReadU16(buf, 4) == |r.questions| && ReadU16(buf, 6) == |r.records|
  {
    hide At, ReadU16, U16, QuestionsOk, RecordsOk;
    AtInside(buf, 0, U16(r.id) + U16(r.flags) + U16(|r.questions|) + U16(|r.records|), r.otherCounts);
    AtSplit(buf, 0, U16(r.id) + U16(r.flags) + U16(|r.questions|), U16(|r.records|));
    AtSplit(buf, 0, U16(r.id) + U16(r.flags), U16(|r.questions|));
    AtSplit(buf, 0, U16(r.id), U16(r.flags));
    U16RoundTrip(buf, 0, r.id);
    U16RoundTrip(buf, 2, r.flags);
    U16RoundTrip(buf, 4, |r.questions|);
    U16RoundTrip(buf, 6, |r.records|);
  }
}
