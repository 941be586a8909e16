/** What `build_query` and `parse_response` accept, stated on the bytes of the message. */
module DnsExact {
  import opened Common
  import opened Seqs
  import opened Dns

  // ----- From the bytes back to the parts -----

  lemma AtJoin(buf: seq<Byte>, pos: nat, a: seq<Byte>, b: seq<Byte>)
    requires At(buf, pos, a) && At(buf, pos + |a|, b)
    ensures At(buf, pos, a + b)
  {
    var end := pos + |a| + |b|;
    assert buf[pos..end] == buf[pos..pos + |a|] + buf[pos + |a|..end];
  }

  lemma AtRest(buf: seq<Byte>, pos: nat)
    requires pos <= |buf|
    ensures At(buf, pos, buf[pos..])
  {
  }

  lemma Here(buf: seq<Byte>, pos: nat, n: nat)
    requires pos + n <= |buf|
    ensures At(buf, pos, buf[pos..pos + n])
  {
  }

  lemma NumberHere(buf: seq<Byte>, pos: nat)
    requires pos + 2 <= |buf|
    ensures ReadU16(buf, pos) < 65536 && At(buf, pos, U16(ReadU16(buf, pos)))
  {
    var high: int, low: int := buf[pos], buf[pos + 1];
    assert buf[pos..pos + 2] == [high, low];
  }

  lemma LastOfName(buf: seq<Byte>, pos: nat) returns (n: WireName)
    requires pos < |buf| && (buf[pos] == 0 || (buf[pos] >= 192 && pos + 2 <= |buf|))
    ensures NameOk(n) && At(buf, pos, NameBytes(n))
    ensures |NameBytes(n)| == if buf[pos] == 0 then 1 else 2
  {
    NoLabels();
    if buf[pos] == 0 {
      n := WireName([], None);
      assert NameBytes(n) == [0] == buf[pos..pos + 1];
    } else {
      n := WireName([], Some((buf[pos], buf[pos + 1])));
      assert NameBytes(n) == [buf[pos], buf[pos + 1]] == buf[pos..pos + 2];
    }
  }

  lemma LongerName(buf: seq<Byte>, pos: nat, rest: WireName) returns (n: WireName)
    requires pos < |buf| && 1 <= buf[pos] <= 63 && NameOk(rest) && pos + 1 + buf[pos] <= |buf|
    requires At(buf, pos + 1 + buf[pos], NameBytes(rest))
    ensures NameOk(n) && At(buf, pos, NameBytes(n)) && |NameBytes(n)| == 1 + buf[pos] + |NameBytes(rest)|
  {
    hide At, NameBytes;
    var len: int := buf[pos];
    var l := buf[pos + 1..pos + 1 + len];
    n := WireName([l] + rest.labels, rest.pointer);
    assert n.labels[1..] == rest.labels && LabelOk(n.labels[0]);
    assert n.(labels := n.labels[1..]) == rest;
    NextOfName(n);
    Here(buf, pos + 1, len);
    AtJoin(buf, pos + 1, l, NameBytes(rest));
    Here(buf, pos, 1);
    assert buf[pos..pos + 1] == [len];
    AtJoin(buf, pos, [len], l + NameBytes(rest));
  }

  /** Where a name ends, a name of labels lies before the end. */
  lemma {:induction false} NameHere(buf: seq<Byte>, pos: nat) returns (n: WireName)
    requires NameEnd(buf, pos).Some?
    ensures NameOk(n) && At(buf, pos, NameBytes(n)) && pos + |NameBytes(n)| == NameEnd(buf, pos).value
    decreases |buf| - pos
  {
    hide At, NameBytes, NameOk;
    if buf[pos] == 0 || buf[pos] >= 192 {
      n := LastOfName(buf, pos);
    } else {
      var rest := NameHere(buf, pos + 1 + buf[pos]);
      n := LongerName(buf, pos, rest);
    }
  }

  ghost predicate NameLies(buf: seq<Byte>, pos: nat, end: nat) {
    exists n: WireName :: NameOk(n) && At(buf, pos, NameBytes(n)) && end == pos + |NameBytes(n)|
  }

  /** `skip_name` succeeds exactly where labels of 1 to 63 bytes are followed by a zero byte or a
      compression pointer, and then ends after them. */
  lemma NameEndExactly(buf: seq<Byte>, pos: nat, end: nat)
    ensures NameEnd(buf, pos) == Some(end) <==> NameLies(buf, pos, end)
  {
    hide At, NameBytes, NameOk, NameEnd;
    if NameEnd(buf, pos) == Some(end) {
      var n := NameHere(buf, pos);
    }
    if NameLies(buf, pos, end) {
      var n: WireName :| NameOk(n) && At(buf, pos, NameBytes(n)) && end == pos + |NameBytes(n)|;
      NameEndsAt(buf, pos, n);
    }
  }

  lemma NoQuestions()
    ensures AllQuestions([]) == []
  {
  }

  lemma MoreQuestions(q: Question, qs: seq<Question>)
    requires QuestionOk(q) && QuestionsOk(qs)
    ensures QuestionsOk([q] + qs)
    ensures AllQuestions([q] + qs) == (NameBytes(q.name) + q.typeAndClass) + AllQuestions(qs)
  {
    assert ([q] + qs)[1..] == qs;
  }

  lemma {:induction false} QuestionsHere(buf: seq<Byte>, pos: nat, count: nat) returns (qs: seq<Question>)
    requires pos <= |buf| && AfterQuestions(buf, pos, count).Some?
    ensures QuestionsOk(qs) && |qs| == count && At(buf, pos, AllQuestions(qs))
    ensures pos + |AllQuestions(qs)| == AfterQuestions(buf, pos, count).value
    decreases count
  {
    hide At, NameBytes, NameOk, NameEnd, AllQuestions;
    if count == 0 {
      qs := [];
      NoQuestions();
      assert buf[pos..pos] == [];
      Here(buf, pos, 0);
    } else {
      var n := NameHere(buf, pos);
      var end := NameEnd(buf, pos).value;
      var q := Question(n, buf[end..end + 4]);
      var rest := QuestionsHere(buf, end + 4, count - 1);
      qs := [q] + rest;
      MoreQuestions(q, rest);
      Here(buf, end, 4);
      AtJoin(buf, pos, NameBytes(n), q.typeAndClass);
      AtJoin(buf, pos, NameBytes(n) + q.typeAndClass, AllQuestions(rest));
    }
  }

  lemma RecordHere(buf: seq<Byte>, pos: nat) returns (r: Record)
    requires RecordAt(buf, pos).Some?
    ensures RecordOk(r) && At(buf, pos, RecordBytes(r))
    ensures RecordAt(buf, pos).value == (r.rtype, r.data, pos + |RecordBytes(r)|)
  {
    hide At, NameBytes, NameOk, NameEnd, U16, ReadU16;
    var n := NameHere(buf, pos);
    var p := NameEnd(buf, pos).value;
    var rdlen := ReadU16(buf, p + 8);
    r := Record(n, ReadU16(buf, p), buf[p + 2..p + 8], buf[p + 10..p + 10 + rdlen]);
    NumberHere(buf, p);
    Here(buf, p + 2, 6);
    AtJoin(buf, p, U16(r.rtype), r.classAndTtl);
    NumberHere(buf, p + 8);
    AtJoin(buf, p, U16(r.rtype) + r.classAndTtl, U16(rdlen));
    AtJoin(buf, pos, NameBytes(n), U16(r.rtype) + r.classAndTtl + U16(rdlen));
    Here(buf, p + 10, rdlen);
    AtJoin(buf, pos, NameBytes(n) + (U16(r.rtype) + r.classAndTtl + U16(rdlen)), r.data);
  }

  lemma NothingRecorded(qtype: nat)
    ensures AllRecords([]) == [] && Answers([], qtype) == []
  {
  }

  lemma MoreRecords(r: Record, rs: seq<Record>, qtype: nat)
    requires RecordOk(r) && RecordsOk(rs)
    ensures RecordsOk([r] + rs) && AllRecords([r] + rs) == RecordBytes(r) + AllRecords(rs)
    ensures Answers([r] + rs, qtype) == Wanted(r.rtype, r.data, qtype) + Answers(rs, qtype)
  {
    assert ([r] + rs)[1..] == rs;
  }

  lemma {:induction false} RecordsHere(buf: seq<Byte>, pos: nat, count: nat, qtype: nat) returns (rs: seq<Record>)
    requires pos <= |buf| && Records(buf, pos, count, qtype).Some?
    ensures RecordsOk(rs) && |rs| == count && At(buf, pos, AllRecords(rs))
    ensures Answers(rs, qtype) == Records(buf, pos, count, qtype).value
    decreases count
  {
    hide At, RecordBytes, RecordAt, AllRecords, Answers, RecordOk, Wanted;
    if count == 0 {
      rs := [];
      NothingRecorded(qtype);
      assert buf[pos..pos] == [];
      Here(buf, pos, 0);
    } else {
      var r := RecordHere(buf, pos);
      var next := RecordAt(buf, pos).value.2;
      Inside(buf, pos, RecordBytes(r));
      var rest := RecordsHere(buf, next, count - 1, qtype);
      rs := [r] + rest;
      MoreRecords(r, rest, qtype);
      AtJoin(buf, pos, RecordBytes(r), AllRecords(rest));
    }
  }

  lemma Inside(buf: seq<Byte>, pos: nat, chunk: seq<Byte>)
    requires At(buf, pos, chunk)
    ensures pos + |chunk| <= |buf|
  {
  }

  // ----- What is accepted -----

  /** Nothing is accepted but a response to the asked transaction, without an error code. */
  lemma HeaderChecked(buf: seq<Byte>, id: nat, qtype: nat)
    ensures Parsed(buf, id, qtype).Some? ==>
              |buf| >= 12 && buf[0] == id / 256 && buf[1] == id % 256 && buf[2] >= 128 && buf[3] % 16 == 0
  {
    if Parsed(buf, id, qtype).Some? {
      FlagBytes(buf[2], buf[3]);
      IdBytes(buf[0], buf[1]);
    }
  }

  lemma IdBytes(high: int, low: int)
    requires 0 <= high < 256 && 0 <= low < 256
    ensures (256 * high + low) / 256 == high && (256 * high + low) % 256 == low
  {
  }

  lemma FlagBytes(high: int, low: int)
    requires 0 <= high < 256 && 0 <= low < 256
    ensures (256 * high + low) / 32768 % 2 == 0 <==> high < 128
    ensures (256 * high + low) % 16 == low % 16
  {
    assert (256 * high + low) % 16 == (16 * (16 * high) + low) % 16;
  }

  ghost predicate Built(buf: seq<Byte>, id: nat, qtype: nat, ips: seq<seq<Byte>>) {
    exists r: Response ::
      WellBuilt(r) && Welcome(r, id, qtype) && buf == ResponseBytes(r) && ips == Answers(r.records, qtype)
  }

  lemma SectionsJoined(buf: seq<Byte>, r: Response)
    requires WellBuilt(r) && |buf| >= 12
    requires ReadU16(buf, 0) == r.id && ReadU16(buf, 2) == r.flags && buf[8..12] == r.otherCounts
    requires ReadU16(buf, 4) == |r.questions| && ReadU16(buf, 6) == |r.records|
    requires At(buf, 12, AllQuestions(r.questions)) && At(buf, 12 + |AllQuestions(r.questions)|, AllRecords(r.records))
    requires var used := 12 + |AllQuestions(r.questions)| + |AllRecords(r.records)|;
             At(buf, used, r.rest) && used + |r.rest| == |buf|
    ensures buf == ResponseBytes(r)
  {
    hide At, AllQuestions, AllRecords, U16, ReadU16;
    NumberHere(buf, 0);
    NumberHere(buf, 2);
    NumberHere(buf, 4);
    NumberHere(buf, 6);
    Here(buf, 8, 4);
    AtJoin(buf, 0, U16(r.id), U16(r.flags));
    AtJoin(buf, 0, U16(r.id) + U16(r.flags), U16(|r.questions|));
    AtJoin(buf, 0, U16(r.id) + U16(r.flags) + U16(|r.questions|), U16(|r.records|));
    var header := U16(r.id) + U16(r.flags) + U16(|r.questions|) + U16(|r.records|) + r.otherCounts;
    AtJoin(buf, 0, U16(r.id) + U16(r.flags) + U16(|r.questions|) + U16(|r.records|), r.otherCounts);
    AtJoin(buf, 12 + |AllQuestions(r.questions)|, AllRecords(r.records), r.rest);
    AtJoin(buf, 12, AllQuestions(r.questions), AllRecords(r.records) + r.rest);
    AtJoin(buf, 0, header, AllQuestions(r.questions) + (AllRecords(r.records) + r.rest));
    Whole(buf, header + (AllQuestions(r.questions) + (AllRecords(r.records) + r.rest)));
  }

  lemma Whole(buf: seq<Byte>, chunk: seq<Byte>)
    requires At(buf, 0, chunk) && |chunk| == |buf|
    ensures buf == chunk
  {
  }

  lemma ResponseHere(buf: seq<Byte>, id: nat, qtype: nat) returns (r: Response)
    requires Parsed(buf, id, qtype).Some?
    ensures WellBuilt(r) && Welcome(r, id, qtype) && buf == ResponseBytes(r)
    ensures Parsed(buf, id, qtype).value == Answers(r.records, qtype)
  {
    hide At, AllQuestions, AllRecords, Answers, Records, AfterQuestions, ReadU16, QuestionsOk, RecordsOk;
    NumberHere(buf, 2);
    HighBit(ReadU16(buf, 2));
    var questions := QuestionsHere(buf, 12, ReadU16(buf, 4));
    var pos := 12 + |AllQuestions(questions)|;
    Inside(buf, 12, AllQuestions(questions));
    var records := RecordsHere(buf, pos, ReadU16(buf, 6), qtype);
    Inside(buf, pos, AllRecords(records));
    var used := pos + |AllRecords(records)|;
    AtRest(buf, used);
    r := Response(id, ReadU16(buf, 2), questions, records, buf[8..12], buf[used..]);
    SectionsJoined(buf, r);
  }

  /** `parse_response` accepts exactly the bytes of the responses with the asked id, QR set, no error
      code and at least one record of the asked family, and returns the data of those records. */
  lemma ParsedExactly(buf: seq<Byte>, id: nat, qtype: nat, ips: seq<seq<Byte>>)
    ensures Parsed(buf, id, qtype) == Some(ips) <==> Built(buf, id, qtype, ips)
  {
    hide ResponseBytes, Answers, Parsed, WellBuilt, Welcome;
    if Parsed(buf, id, qtype) == Some(ips) {
      var r := ResponseHere(buf, id, qtype);
    }
    if Built(buf, id, qtype, ips) {
      var r: Response :| WellBuilt(r) && Welcome(r, id, qtype) && buf == ResponseBytes(r)
                         && ips == Answers(r.records, qtype);
      ResponseDecoded(r, id, qtype);
    }
  }

  /** A record counts when it is of the asked type and holds an IPv4 address for type 1, an IPv6 address
      for type 28; the answers keep the order of the records. */
  lemma {:induction false} AnswersInOrder(before: seq<Record>, r: Record, after: seq<Record>, qtype: nat)
    ensures var family := (qtype == 1 && r.rtype == 1 && |r.data| == 4)
                          || (qtype == 28 && r.rtype == 28 && |r.data| == 16);
            Answers(before + [r] + after, qtype)
            == Answers(before, qtype) + (if family then [r.data] else []) + Answers(after, qtype)
    decreases |before|
  {
    hide Answers, Wanted;
    AnswersStep(r, after, qtype);
    if before == [] {
      NothingRecorded(qtype);
      assert before + [r] + after == [r] + after;
    } else {
      AnswersInOrder(before[1..], r, after, qtype);
      AnswersStep(before[0], before[1..], qtype);
      AnswersStep(before[0], before[1..] + [r] + after, qtype);
      assert [before[0]] + before[1..] == before;
      assert before + [r] + after == [before[0]] + (before[1..] + [r] + after);
    }
    WantedIs(r, qtype);
  }

  lemma AnswersStep(r: Record, rs: seq<Record>, qtype: nat)
    ensures Answers([r] + rs, qtype) == Wanted(r.rtype, r.data, qtype) + Answers(rs, qtype)
  {
    assert ([r] + rs)[1..] == rs;
  }

  lemma WantedIs(r: Record, qtype: nat)
    ensures Wanted(r.rtype, r.data, qtype)
            == if (qtype == 1 && r.rtype == 1 && |r.data| == 4) || (qtype == 28 && r.rtype == 28 && |r.data| == 16)
               then [r.data] else []
  {
  }

  // ----- Queries -----

  /** `name` is these labels, dots between them, and dots at the end. */
  predicate Spells(name: seq<Byte>, labels: seq<seq<Byte>>, dots: seq<Byte>) {
    && labels != [] && name == Join(labels, [46]) + dots
    && (forall i | 0 <= i < |labels| :: 1 <= |labels[i]| <= 63 && 46 !in labels[i])
    && (forall i | 0 <= i < |dots| :: dots[i] == 46)
  }

  lemma {:induction false} TrimmedOff(name: seq<Byte>) returns (dots: seq<Byte>)
    ensures name == TrimDots(name) + dots && forall i | 0 <= i < |dots| :: dots[i] == 46
    decreases |name|
  {
    dots := [];
    if name != [] && name[|name| - 1] == DOT {
      var fewer := TrimmedOff(name[..|name| - 1]);
      dots := fewer + [46];
      assert name == name[..|name| - 1] + [46];
    }
  }

  lemma {:induction false} DotsTrimmed(name: seq<Byte>, dots: seq<Byte>)
    requires name != [] && name[|name| - 1] != 46 && forall i | 0 <= i < |dots| :: dots[i] == 46
    ensures TrimDots(name + dots) == name
    decreases |dots|
  {
    var all := name + dots;
    if dots == [] {
      assert all == name;
    } else {
      DotsTrimmed(name, dots[..|dots| - 1]);
      assert all[..|all| - 1] == name + dots[..|dots| - 1];
    }
  }

  lemma {:induction false} LastOfJoin(labels: seq<seq<Byte>>)
    requires labels != [] && forall i | 0 <= i < |labels| :: labels[i] != [] && 46 !in labels[i]
    ensures var all := Join(labels, [46]); all != [] && all[|all| - 1] != 46
  {
    if |labels| > 1 {
      LastOfJoin(labels[1..]);
    } else {
      assert labels[0] != [];
    }
  }

  lemma SpelledLabels(name: seq<Byte>, labels: seq<seq<Byte>>, dots: seq<Byte>)
    requires Spells(name, labels, dots)
    ensures Encodable(name) && Split(TrimDots(name), DOT) == labels
  {
    hide Split, Join, TrimDots;
    LastOfJoin(labels);
    DotsTrimmed(Join(labels, [46]), dots);
    SplitJoin(labels, DOT);
  }

  /** The names for which there is a query: labels of 1 to 63 bytes with single dots between them, and
      any number of dots at the end. The query spells out these labels. */
  lemma EncodableIff(name: seq<Byte>)
    ensures Encodable(name) <==> exists labels, dots :: Spells(name, labels, dots)
    ensures forall labels, dots :: Spells(name, labels, dots) ==> Split(TrimDots(name), DOT) == labels
  {
    hide Split, Join, TrimDots;
    forall labels, dots | Spells(name, labels, dots)
      ensures Encodable(name) && Split(TrimDots(name), DOT) == labels
    {
      SpelledLabels(name, labels, dots);
    }
    if Encodable(name) {
      var dots := TrimmedOff(name);
      var labels := Split(TrimDots(name), DOT);
      JoinSplit(TrimDots(name), DOT);
      assert forall i | 0 <= i < |labels| :: LabelOk(labels[i]) && labels[i] in labels;
      assert Spells(name, labels, dots);
    }
  }

  /** Byte for byte: the id, the flags and counts of one recursive question, the labels with their
      lengths, the end of the name, the type, and the class IN. */
  lemma QueryBytes(id: nat, labels: seq<seq<Byte>>, qtype: nat)
    requires LabelsOk(labels) && id < 65536 && qtype < 65536
    ensures var q := Query(id, labels, qtype);
            && |q| >= 17 && q[0] == id / 256 && q[1] == id % 256 && q[2..12] == [1, 0, 0, 1, 0, 0, 0, 0, 0, 0]
            && ReadLabels(q, 12) == Some((labels, |q| - 4))
            && q[|q| - 5] == 0 && q[|q| - 4] == qtype / 256 && q[|q| - 3] == qtype % 256
            && q[|q| - 2] == 0 && q[|q| - 1] == 1
  {
    QueryReadBack(id, labels, qtype);
    hide EncodeLabels, ReadLabels;
  }
}
