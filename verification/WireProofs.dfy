/** The message layout of sections 3.1 and 4.1.1 to 4.1.4 of RFC 1035, written as an encoder, and
    the proof that the cursor code of the codec inverts it. */
module WireProofs {
  import opened Text
  import opened Domain
  import opened Config
  import opened Wire

  // ---------------------------------------------------------------- names

  /** A name on the wire: labels ended by the root or by a compression pointer. */
  datatype Name = Root | Pointer(hi: Byte, lo: Byte) | Label(text: seq<Byte>, rest: Name)

  predicate NameOk(n: Name) {
    match n
    case Root => true
    case Pointer(hi, _) => hi >= 192
    case Label(text, rest) => 1 <= |text| <= 63 && NameOk(rest)
  }

  function EncodeName(n: Name): seq<Byte>
    requires NameOk(n)
  {
    match n
    case Root => [0]
    case Pointer(hi, lo) => [hi, lo]
    case Label(text, rest) => [|text|] + text + EncodeName(rest)
  }

  /** The bytes `part` stand in `buf` at `pos`. */
  predicate At(buf: seq<Byte>, pos: nat, part: seq<Byte>) {
    pos + |part| <= |buf| && buf[pos..pos + |part|] == part
  }

  lemma AtSplit(buf: seq<Byte>, pos: nat, a: seq<Byte>, b: seq<Byte>)
    ensures At(buf, pos, a + b) <==> At(buf, pos, a) && At(buf, pos + |a|, b)
  {
    if pos + |a| + |b| <= |buf| {
      var whole := buf[pos..pos + |a + b|];
      assert whole[..|a|] == buf[pos..pos + |a|] && whole[|a|..] == buf[pos + |a|..pos + |a| + |b|];
      assert (a + b)[..|a|] == a && (a + b)[|a|..] == b;
      assert whole == whole[..|a|] + whole[|a|..];
    }
  }

  lemma {:induction false} NameEndOfEncoding(buf: seq<Byte>, pos: nat, n: Name)
    requires NameOk(n) && At(buf, pos, EncodeName(n))
    ensures NameEnd(buf, pos) == Some(pos + |EncodeName(n)|)
    decreases n
  {
    var part := EncodeName(n);
    assert buf[pos] == buf[pos..pos + |part|][0];
    if n.Label? {
      AtSplit(buf, pos, [|n.text|] + n.text, EncodeName(n.rest));
      NameEndOfEncoding(buf, pos + 1 + |n.text|, n.rest);
    }
  }

  /** The name that stands where `skip_name` succeeded. */
  lemma {:induction false} NameAt(buf: seq<Byte>, pos: nat) returns (n: Name)
    requires NameEnd(buf, pos).Some?
    ensures NameOk(n) && At(buf, pos, EncodeName(n)) && NameEnd(buf, pos) == Some(pos + |EncodeName(n)|)
    decreases |buf| - pos
  {
    var len := buf[pos];
    if len == 0 {
      n := Root;
    } else if len >= 192 {
      n := Pointer(len, buf[pos + 1]);
      assert buf[pos..pos + 2] == [len, buf[pos + 1]];
    } else {
      var rest := NameAt(buf, pos + 1 + len);
      var text := buf[pos + 1..pos + 1 + len];
      n := Label(text, rest);
      LabelPlaced(buf, pos, text, rest);
    }
  }

  lemma LabelPlaced(buf: seq<Byte>, pos: nat, text: seq<Byte>, rest: Name)
    requires 0 < |text| < 64 && pos + 1 + |text| <= |buf|
    requires buf[pos] == |text| && buf[pos + 1..pos + 1 + |text|] == text
    requires NameOk(rest) && At(buf, pos + 1 + |text|, EncodeName(rest))
    ensures At(buf, pos, EncodeName(Label(text, rest)))
    ensures |EncodeName(Label(text, rest))| == 1 + |text| + |EncodeName(rest)|
  {
    assert buf[pos..pos + 1 + |text|] == [|text|] + text;
    AtSplit(buf, pos, [|text|] + text, EncodeName(rest));
  }

  /** `skip_name` stops at p exactly when some well-formed name occupies the bytes up to p. */
  lemma SkipNameExact(buf: seq<Byte>, pos: nat, p: nat)
    ensures NameEnd(buf, pos) == Some(p) <==>
      exists n :: NameOk(n) && At(buf, pos, EncodeName(n)) && p == pos + |EncodeName(n)|
  {
    if NameEnd(buf, pos) == Some(p) {
      var n := NameAt(buf, pos);
    }
    forall n | NameOk(n) && At(buf, pos, EncodeName(n)) ensures NameEnd(buf, pos) == Some(pos + |EncodeName(n)|) {
      NameEndOfEncoding(buf, pos, n);
    }
  }

  // ---------------------------------------------------------------- messages

  datatype QuestionSlot = QuestionSlot(name: Name, typeAndClass: seq<Byte>)

  datatype Record = Record(name: Name, rtype: u16, rclass: u16, ttl: seq<Byte>, rdata: seq<Byte>)

  /** A message: identifier and flags, questions, answers, the authority and additional counts,
      and whatever follows the answer section. */
  datatype Message = Message(
    head: seq<Byte>,
    questions: seq<QuestionSlot>,
    answers: seq<Record>,
    otherCounts: seq<Byte>,
    trailer: seq<Byte>)

  predicate QuestionOk(q: QuestionSlot) { NameOk(q.name) && |q.typeAndClass| == 4 }

  predicate RecordOk(r: Record) { NameOk(r.name) && |r.ttl| == 4 && |r.rdata| < 0x1_0000 }

  predicate MessageOk(m: Message) {
    && |m.head| == 4 && |m.otherCounts| == 4
    && |m.questions| < 0x1_0000 && |m.answers| < 0x1_0000
    && (forall i :: 0 <= i < |m.questions| ==> QuestionOk(m.questions[i]))
    && (forall i :: 0 <= i < |m.answers| ==> RecordOk(m.answers[i]))
  }

  function EncodeQuestion(q: QuestionSlot): seq<Byte>
    requires QuestionOk(q)
  {
    EncodeName(q.name) + q.typeAndClass
  }

  function EncodeQuestions(qs: seq<QuestionSlot>): seq<Byte>
    requires forall i :: 0 <= i < |qs| ==> QuestionOk(qs[i])
  {
    if qs == [] then [] else EncodeQuestion(qs[0]) + EncodeQuestions(qs[1..])
  }

  /** Section 4.1.3: name, type, class, time to live, data length, data. */
  function EncodeRecord(r: Record): seq<Byte>
    requires RecordOk(r)
  {
    EncodeName(r.name) + (U16(r.rtype) + U16(r.rclass) + r.ttl + U16(|r.rdata|)) + r.rdata
  }

  function EncodeRecords(rs: seq<Record>): seq<Byte>
    requires forall i :: 0 <= i < |rs| ==> RecordOk(rs[i])
  {
    if rs == [] then [] else EncodeRecord(rs[0]) + EncodeRecords(rs[1..])
  }

  function Encode(m: Message): seq<Byte>
    requires MessageOk(m)
  {
    (m.head + U16(|m.questions|) + U16(|m.answers|) + m.otherCounts)
    + EncodeQuestions(m.questions) + EncodeRecords(m.answers) + m.trailer
  }

  predicate IsAddress(r: Record) { r.rtype == 1 && r.rclass == 1 && |r.rdata| == 4 }

  /** The dotted quads of the address records, in order. */
  function Quads(rs: seq<Record>): seq<string> {
    if rs == [] then []
    else if IsAddress(rs[0]) then [DottedQuad(rs[0].rdata)] + Quads(rs[1..])
    else Quads(rs[1..])
  }

  lemma {:induction false} QuadsExact(rs: seq<Record>)
    ensures forall ip :: ip in Quads(rs) <==> exists r :: r in rs && IsAddress(r) && ip == DottedQuad(r.rdata)
  {
    if rs != [] {
      QuadsExact(rs[1..]);
      assert rs == [rs[0]] + rs[1..];
    }
  }

  lemma {:induction false} QuestionsEndOfEncoding(buf: seq<Byte>, pos: nat, qs: seq<QuestionSlot>)
    requires forall i :: 0 <= i < |qs| ==> QuestionOk(qs[i])
    requires At(buf, pos, EncodeQuestions(qs))
    ensures QuestionsEnd(buf, pos, |qs|) == Some(pos + |EncodeQuestions(qs)|)
    decreases |qs|
  {
    if qs != [] {
      var next := pos + |EncodeQuestion(qs[0])|;
      FirstQuestion(buf, pos, qs);
      QuestionsEndNext(buf, pos, |qs|, next);
      QuestionsEndOfEncoding(buf, next, qs[1..]);
    }
  }

  lemma FirstQuestion(buf: seq<Byte>, pos: nat, qs: seq<QuestionSlot>)
    requires qs != [] && (forall i :: 0 <= i < |qs| ==> QuestionOk(qs[i])) && At(buf, pos, EncodeQuestions(qs))
    ensures var next, rest := pos + |EncodeQuestion(qs[0])|, EncodeQuestions(qs[1..]);
      && At(buf, next, rest) && next + |rest| == pos + |EncodeQuestions(qs)|
      && NameEnd(buf, pos).Some? && NameEnd(buf, pos).value + 4 == next <= |buf|
  {
    AtSplit(buf, pos, EncodeQuestion(qs[0]), EncodeQuestions(qs[1..]));
    SlotEnd(buf, pos, qs[0]);
  }

  lemma QuestionsEndNext(buf: seq<Byte>, pos: nat, count: nat, next: nat)
    requires count > 0 && NameEnd(buf, pos).Some? && NameEnd(buf, pos).value + 4 == next <= |buf|
    ensures QuestionsEnd(buf, pos, count) == QuestionsEnd(buf, next, count - 1)
  {}

  lemma SlotEnd(buf: seq<Byte>, pos: nat, q: QuestionSlot)
    requires QuestionOk(q) && At(buf, pos, EncodeQuestion(q))
    ensures NameEnd(buf, pos).Some? && NameEnd(buf, pos).value + 4 == pos + |EncodeQuestion(q)| <= |buf|
  {
    AtSplit(buf, pos, EncodeName(q.name), q.typeAndClass);
    NameEndOfEncoding(buf, pos, q.name);
  }

  /** The fixed fields of a record, read where they were written. */
  lemma FieldsAt(buf: seq<Byte>, p: nat, rtype: u16, rclass: u16, ttl: seq<Byte>, len: u16)
    requires |ttl| == 4
    ensures At(buf, p, U16(rtype) + U16(rclass) + ttl + U16(len)) <==>
      && p + 10 <= |buf| && ReadU16(buf, p) == Some(rtype) && ReadU16(buf, p + 2) == Some(rclass)
      && buf[p + 4..p + 8] == ttl && ReadU16(buf, p + 8) == Some(len)
  {
    AtSplit(buf, p, U16(rtype) + U16(rclass) + ttl, U16(len));
    AtSplit(buf, p, U16(rtype) + U16(rclass), ttl);
    AtSplit(buf, p, U16(rtype), U16(rclass));
    if p + 10 <= |buf| {
      U16At(buf, p, rtype);
      U16At(buf, p + 2, rclass);
      U16At(buf, p + 8, len);
    }
  }

  lemma U16At(buf: seq<Byte>, p: nat, n: u16)
    requires p + 2 <= |buf|
    ensures buf[p..p + 2] == U16(n) <==> ReadU16(buf, p) == Some(n)
  {
    assert buf[p..p + 2] == [buf[p], buf[p + 1]];
  }

  function Quad(r: Record): Option<string> {
    if IsAddress(r) then Some(DottedQuad(r.rdata)) else None
  }

  /** A record, read where it was written. */
  lemma RecordOfEncoding(buf: seq<Byte>, pos: nat, r: Record)
    requires RecordOk(r) && At(buf, pos, EncodeRecord(r))
    ensures RecordAt(buf, pos) == Some((Quad(r), pos + |EncodeRecord(r)|))
  {
    var name, fields := EncodeName(r.name), U16(r.rtype) + U16(r.rclass) + r.ttl + U16(|r.rdata|);
    var p := pos + |name|;
    AtSplit(buf, pos, name + fields, r.rdata);
    AtSplit(buf, pos, name, fields);
    NameEndOfEncoding(buf, pos, r.name);
    FieldsAt(buf, p, r.rtype, r.rclass, r.ttl, |r.rdata|);
    FromFields(buf, pos, p, r);
  }

  /** A record whose name ends at p, from its fixed fields and data there. */
  lemma FromFields(buf: seq<Byte>, pos: nat, p: nat, r: Record)
    requires RecordOk(r) && NameEnd(buf, pos) == Some(p) && p + 10 + |r.rdata| <= |buf|
    requires ReadU16(buf, p) == Some(r.rtype) && ReadU16(buf, p + 2) == Some(r.rclass)
    requires ReadU16(buf, p + 8) == Some(|r.rdata|) && At(buf, p + 10, r.rdata)
    ensures RecordAt(buf, pos) == Some((Quad(r), p + 10 + |r.rdata|))
  {}

  lemma {:induction false} AddressesOfEncoding(buf: seq<Byte>, pos: nat, rs: seq<Record>)
    requires forall i :: 0 <= i < |rs| ==> RecordOk(rs[i])
    requires At(buf, pos, EncodeRecords(rs))
    ensures Addresses(buf, pos, |rs|) == Some(Quads(rs))
    decreases |rs|
  {
    if rs != [] {
      AtSplit(buf, pos, EncodeRecord(rs[0]), EncodeRecords(rs[1..]));
      RecordOfEncoding(buf, pos, rs[0]);
      AddressesOfEncoding(buf, pos + |EncodeRecord(rs[0])|, rs[1..]);
    }
  }

  /** Four decimal numerals between dots, of the bytes in order. */
  ghost predicate QuadOf(ip: string, b: seq<Byte>) {
    var parts := SplitDots(ip);
    |parts| == |b| == 4 && forall i :: 0 <= i < 4 ==> NumeralOf(parts[i], b[i], 10)
  }

  /** Answer parsing is exact: every laid-out message parses to the strictly sorted set of the
      dotted quads of its class 1 (IN), type 1 (A) four-byte answers. */
  lemma AnswerParsingExact(m: Message)
    requires MessageOk(m)
    ensures ARecords(Encode(m)).Some?
    ensures Sorted(ARecords(Encode(m)).value)
    ensures forall ip :: ip in ARecords(Encode(m)).value <==>
      exists r :: r in m.answers && r.rtype == 1 && r.rclass == 1 && |r.rdata| == 4 && QuadOf(ip, r.rdata)
  {
    AddressesParsed(m);
    forall ip, b: seq<Byte> | |b| == 4 ensures QuadOf(ip, b) <==> ip == DottedQuad(b) { DottedQuadExact(ip, b); }
  }

  lemma AddressesParsed(m: Message)
    requires MessageOk(m)
    ensures ARecords(Encode(m)).Some?
    ensures Sorted(ARecords(Encode(m)).value)
    ensures forall ip :: ip in ARecords(Encode(m)).value <==>
      exists r :: r in m.answers && IsAddress(r) && ip == DottedQuad(r.rdata)
  {
    ARecordsOfEncoding(m);
    UniqueSortedExact(Quads(m.answers));
    QuadsExact(m.answers);
  }

  lemma ARecordsOfEncoding(m: Message)
    requires MessageOk(m)
    ensures ARecords(Encode(m)) == Some(UniqueSorted(Quads(m.answers)))
  {
    Sections(m);
    SectionsParse(Encode(m), m.questions, m.answers);
  }

  lemma SectionsParse(buf: seq<Byte>, qs: seq<QuestionSlot>, rs: seq<Record>)
    requires |qs| < 0x1_0000 && |rs| < 0x1_0000
    requires (forall i :: 0 <= i < |qs| ==> QuestionOk(qs[i])) && (forall i :: 0 <= i < |rs| ==> RecordOk(rs[i]))
    requires |buf| >= 12 && ReadU16(buf, 4) == Some(|qs|) && ReadU16(buf, 6) == Some(|rs|)
    requires At(buf, 12, EncodeQuestions(qs)) && At(buf, 12 + |EncodeQuestions(qs)|, EncodeRecords(rs))
    ensures ARecords(buf) == Some(UniqueSorted(Quads(rs)))
  {
    QuestionsEndOfEncoding(buf, 12, qs);
    AddressesOfEncoding(buf, 12 + |EncodeQuestions(qs)|, rs);
    ARecordsAt(buf, |qs|, 12 + |EncodeQuestions(qs)|, |rs|, Quads(rs));
  }

  lemma ARecordsAt(buf: seq<Byte>, qd: u16, pos: nat, an: u16, found: seq<string>)
    requires |buf| >= 12 && ReadU16(buf, 4) == Some(qd) && ReadU16(buf, 6) == Some(an)
    requires QuestionsEnd(buf, 12, qd) == Some(pos) && Addresses(buf, pos, an) == Some(found)
    ensures ARecords(buf) == Some(UniqueSorted(found))
  {}

  lemma Sections(m: Message)
    requires MessageOk(m)
    ensures var buf := Encode(m);
      && |buf| >= 12 && ReadU16(buf, 4) == Some(|m.questions|) && ReadU16(buf, 6) == Some(|m.answers|)
      && At(buf, 12, EncodeQuestions(m.questions))
      && At(buf, 12 + |EncodeQuestions(m.questions)|, EncodeRecords(m.answers))
  {
    var buf := Encode(m);
    var header := m.head + U16(|m.questions|) + U16(|m.answers|) + m.otherCounts;
    var qs, rs := EncodeQuestions(m.questions), EncodeRecords(m.answers);
    assert At(buf, 0, header + qs + rs + m.trailer);
    AtSplit(buf, 0, header + qs + rs, m.trailer);
    AtSplit(buf, 0, header + qs, rs);
    AtSplit(buf, 0, header, qs);
    HeaderAt(buf, header);
  }

  lemma HeaderAt(buf: seq<Byte>, header: seq<Byte>)
    requires |header| == 12 && At(buf, 0, header)
    ensures ReadU16(buf, 4) == ReadU16(header, 4) && ReadU16(buf, 6) == ReadU16(header, 6)
  {
    assert forall i :: 0 <= i < 12 ==> buf[i] == buf[0..12][i];
  }

  lemma {:induction false} QuestionsAt(buf: seq<Byte>, pos: nat, count: nat) returns (qs: seq<QuestionSlot>)
    requires QuestionsEnd(buf, pos, count).Some? && pos <= |buf|
    ensures |qs| == count && forall i :: 0 <= i < |qs| ==> QuestionOk(qs[i])
    ensures At(buf, pos, EncodeQuestions(qs))
    ensures QuestionsEnd(buf, pos, count) == Some(pos + |EncodeQuestions(qs)|)
    decreases count
  {
    qs := [];
    if count > 0 {
      var q := SlotAt(buf, pos);
      var rest := QuestionsAt(buf, pos + |EncodeQuestion(q)|, count - 1);
      qs := [q] + rest;
      OneMoreQuestion(buf, pos, q, rest);
    }
  }

  lemma OneMoreQuestion(buf: seq<Byte>, pos: nat, q: QuestionSlot, rest: seq<QuestionSlot>)
    requires QuestionOk(q) && forall i :: 0 <= i < |rest| ==> QuestionOk(rest[i])
    requires At(buf, pos, EncodeQuestion(q)) && At(buf, pos + |EncodeQuestion(q)|, EncodeQuestions(rest))
    ensures forall i :: 0 <= i < |[q] + rest| ==> QuestionOk(([q] + rest)[i])
    ensures At(buf, pos, EncodeQuestions([q] + rest))
    ensures |EncodeQuestions([q] + rest)| == |EncodeQuestion(q)| + |EncodeQuestions(rest)|
  {
    assert ([q] + rest)[1..] == rest;
    AtSplit(buf, pos, EncodeQuestion(q), EncodeQuestions(rest));
  }

  lemma SlotAt(buf: seq<Byte>, pos: nat) returns (q: QuestionSlot)
    requires NameEnd(buf, pos).Some? && NameEnd(buf, pos).value + 4 <= |buf|
    ensures QuestionOk(q) && At(buf, pos, EncodeQuestion(q)) && pos + |EncodeQuestion(q)| == NameEnd(buf, pos).value + 4
  {
    var p := NameEnd(buf, pos).value;
    var name := NameAt(buf, pos);
    q := QuestionSlot(name, buf[p..p + 4]);
    AtSplit(buf, pos, EncodeName(name), q.typeAndClass);
  }

  lemma LaidOutRecord(buf: seq<Byte>, pos: nat) returns (r: Record)
    requires RecordAt(buf, pos).Some?
    ensures RecordOk(r) && At(buf, pos, EncodeRecord(r)) && RecordAt(buf, pos).value.1 == pos + |EncodeRecord(r)|
  {
    var name := NameAt(buf, pos);
    var p := pos + |EncodeName(name)|;
    r := FieldsOf(buf, p, name);
    RecordPlaced(buf, pos, r);
  }

  lemma FieldsOf(buf: seq<Byte>, p: nat, name: Name) returns (r: Record)
    requires NameOk(name) && p + 10 <= |buf| && p + 10 + ReadU16(buf, p + 8).value <= |buf|
    ensures RecordOk(r) && r.name == name && |r.rdata| == ReadU16(buf, p + 8).value
    ensures At(buf, p, U16(r.rtype) + U16(r.rclass) + r.ttl + U16(|r.rdata|)) && At(buf, p + 10, r.rdata)
  {
    var rtype, rclass, rdlen := ReadU16(buf, p).value, ReadU16(buf, p + 2).value, ReadU16(buf, p + 8).value;
    r := Record(name, rtype, rclass, buf[p + 4..p + 8], buf[p + 10..p + 10 + rdlen]);
    FieldsAt(buf, p, rtype, rclass, r.ttl, rdlen);
  }

  lemma RecordPlaced(buf: seq<Byte>, pos: nat, r: Record)
    requires RecordOk(r) && At(buf, pos, EncodeName(r.name))
    requires var p := pos + |EncodeName(r.name)|;
      At(buf, p, U16(r.rtype) + U16(r.rclass) + r.ttl + U16(|r.rdata|)) && At(buf, p + 10, r.rdata)
    ensures At(buf, pos, EncodeRecord(r)) && |EncodeRecord(r)| == |EncodeName(r.name)| + 10 + |r.rdata|
  {
    var name, fields := EncodeName(r.name), U16(r.rtype) + U16(r.rclass) + r.ttl + U16(|r.rdata|);
    AtSplit(buf, pos, name, fields);
    AtSplit(buf, pos, name + fields, r.rdata);
  }

  lemma {:induction false} RecordsAt(buf: seq<Byte>, pos: nat, count: nat) returns (rs: seq<Record>, end: nat)
    requires Addresses(buf, pos, count).Some? && pos <= |buf|
    ensures |rs| == count && forall i :: 0 <= i < |rs| ==> RecordOk(rs[i])
    ensures At(buf, pos, EncodeRecords(rs)) && end == pos + |EncodeRecords(rs)| <= |buf|
    decreases count
  {
    rs, end := [], pos;
    if count > 0 {
      var r := LaidOutRecord(buf, pos);
      var rest;
      rest, end := RecordsAt(buf, pos + |EncodeRecord(r)|, count - 1);
      rs := [r] + rest;
      OneMoreRecord(buf, pos, r, rest);
    }
  }

  lemma OneMoreRecord(buf: seq<Byte>, pos: nat, r: Record, rest: seq<Record>)
    requires RecordOk(r) && forall i :: 0 <= i < |rest| ==> RecordOk(rest[i])
    requires At(buf, pos, EncodeRecord(r)) && At(buf, pos + |EncodeRecord(r)|, EncodeRecords(rest))
    ensures forall i :: 0 <= i < |[r] + rest| ==> RecordOk(([r] + rest)[i])
    ensures At(buf, pos, EncodeRecords([r] + rest))
    ensures |EncodeRecords([r] + rest)| == |EncodeRecord(r)| + |EncodeRecords(rest)|
  {
    assert ([r] + rest)[1..] == rest;
    AtSplit(buf, pos, EncodeRecord(r), EncodeRecords(rest));
  }

  /** The bytes on which answer parsing succeeds are exactly the laid-out messages. */
  lemma ParsesIffLaidOut(buf: seq<Byte>)
    ensures ARecords(buf).Some? <==> exists m :: MessageOk(m) && Encode(m) == buf
  {
    if ARecords(buf).Some? {
      var m := MessageAt(buf);
    }
    forall m | MessageOk(m) && Encode(m) == buf ensures ARecords(buf).Some? {
      AnswerParsingExact(m);
    }
  }

  lemma MessageAt(buf: seq<Byte>) returns (m: Message)
    requires ARecords(buf).Some?
    ensures MessageOk(m) && Encode(m) == buf
  {
    var qd, an := ReadU16(buf, 4).value, ReadU16(buf, 6).value;
    var questions := QuestionsAt(buf, 12, qd);
    var answers, end := RecordsAt(buf, QuestionsEnd(buf, 12, qd).value, an);
    m := MessageOf(buf, questions, answers);
  }

  lemma MessageOf(buf: seq<Byte>, qs: seq<QuestionSlot>, rs: seq<Record>) returns (m: Message)
    requires |qs| < 0x1_0000 && |rs| < 0x1_0000
    requires (forall i :: 0 <= i < |qs| ==> QuestionOk(qs[i])) && (forall i :: 0 <= i < |rs| ==> RecordOk(rs[i]))
    requires |buf| >= 12 && ReadU16(buf, 4) == Some(|qs|) && ReadU16(buf, 6) == Some(|rs|)
    requires At(buf, 12, EncodeQuestions(qs)) && At(buf, 12 + |EncodeQuestions(qs)|, EncodeRecords(rs))
    ensures MessageOk(m) && Encode(m) == buf
  {
    var end := 12 + |EncodeQuestions(qs)| + |EncodeRecords(rs)|;
    m := Message(buf[..4], qs, rs, buf[8..12], buf[end..]);
    HeaderOf(buf, |qs|, |rs|);
    Assemble(buf, m.head + U16(|qs|) + U16(|rs|) + m.otherCounts, EncodeQuestions(qs), EncodeRecords(rs));
  }

  lemma HeaderOf(buf: seq<Byte>, qd: u16, an: u16)
    requires |buf| >= 12 && ReadU16(buf, 4) == Some(qd) && ReadU16(buf, 6) == Some(an)
    ensures buf[..12] == buf[..4] + U16(qd) + U16(an) + buf[8..12]
  {
    U16At(buf, 4, qd);
    U16At(buf, 6, an);
    assert buf[..12] == buf[..4] + buf[4..6] + buf[6..8] + buf[8..12];
  }

  lemma Assemble(buf: seq<Byte>, a: seq<Byte>, b: seq<Byte>, c: seq<Byte>)
    requires |a| <= |buf| && buf[..|a|] == a && At(buf, |a|, b) && At(buf, |a| + |b|, c)
    ensures a + b + c + buf[|a| + |b| + |c|..] == buf
  {
    assert buf[..|a| + |b|] == a + b;
    assert buf[..|a| + |b| + |c|] == a + b + c;
  }

  /** Different addresses have different dotted quads, so the parsed strings lose nothing. */
  lemma DottedQuadInjective(a: seq<Byte>, b: seq<Byte>)
    requires |a| == |b| == 4 && DottedQuad(a) == DottedQuad(b)
    ensures a == b
  {
    QuadIsJoin(a);
    QuadIsJoin(b);
    SplitJoin(QuadParts(a));
    SplitJoin(QuadParts(b));
    forall i | 0 <= i < 4 ensures a[i] == b[i] {
      assert QuadParts(a)[i] == QuadParts(b)[i];
      DecInjective(a[i], b[i]);
    }
  }

  function QuadParts(a: seq<Byte>): (r: seq<string>)
    requires |a| == 4
    ensures |r| == 4 && forall i :: 0 <= i < 4 ==> r[i] == Dec(a[i]) && '.' !in r[i]
  {
    seq(4, i requires 0 <= i < 4 => Dec(a[i]))
  }

  lemma QuadIsJoin(a: seq<Byte>)
    requires |a| == 4
    ensures DottedQuad(a) == JoinDots(QuadParts(a))
  {
    var ls := QuadParts(a);
    assert ls == [Dec(a[0])] + ([Dec(a[1])] + ([Dec(a[2])] + [Dec(a[3])]));
    JoinCons(Dec(a[2]), [Dec(a[3])]);
    JoinCons(Dec(a[1]), [Dec(a[2])] + [Dec(a[3])]);
    JoinCons(Dec(a[0]), [Dec(a[1])] + ([Dec(a[2])] + [Dec(a[3])]));
    Grouped(Dec(a[0]), Dec(a[1]), Dec(a[2]), Dec(a[3]));
  }

  /** The printed address is the only dotted quad of the bytes. */
  lemma DottedQuadExact(ip: string, b: seq<Byte>)
    requires |b| == 4
    ensures QuadOf(ip, b) <==> ip == DottedQuad(b)
  {
    QuadIsJoin(b);
    SplitJoin(QuadParts(b));
    if ip == DottedQuad(b) {
      forall i | 0 <= i < 4 ensures NumeralOf(SplitDots(ip)[i], b[i], 10) { DecValue(b[i]); }
    }
    if QuadOf(ip, b) {
      forall i | 0 <= i < 4 ensures SplitDots(ip)[i] == QuadParts(b)[i] { DecUnique(SplitDots(ip)[i], b[i]); }
      JoinSplit(ip);
      assert SplitDots(ip) == QuadParts(b);
    }
  }

  lemma JoinCons(x: string, rest: seq<string>)
    requires rest != []
    ensures JoinDots([x] + rest) == x + "." + JoinDots(rest)
  {
    assert ([x] + rest)[1..] == rest;
  }

  lemma Grouped(a: string, b: string, c: string, d: string)
    ensures a + "." + (b + "." + (c + "." + d)) == a + "." + b + "." + c + "." + d
  {}

  /** Joining dot-free labels loses nothing. */
  lemma {:induction false} SplitJoin(ls: seq<string>)
    requires ls != [] && forall i :: 0 <= i < |ls| ==> '.' !in ls[i]
    ensures SplitDots(JoinDots(ls)) == ls
    decreases |ls|
  {
    if |ls| == 1 {
      SplitDotFree(ls[0], []);
      assert ls[0] + [] == ls[0];
    } else {
      SplitJoin(ls[1..]);
      SplitDotFree(ls[0], "." + JoinDots(ls[1..]));
      assert ls[0] + ("." + JoinDots(ls[1..])) == JoinDots(ls);
      assert ("." + JoinDots(ls[1..]))[1..] == JoinDots(ls[1..]);
      assert ls == [ls[0]] + ls[1..];
      assert ls[0] + [] == ls[0];
    }
  }

  lemma {:induction false} SplitDotFree(s: string, t: string)
    requires '.' !in s
    ensures SplitDots(s + t) == [s + SplitDots(t)[0]] + SplitDots(t)[1..]
  {
    if s == [] {
      assert s + t == t && s + SplitDots(t)[0] == SplitDots(t)[0];
    } else {
      SplitDotFree(s[1..], t);
      assert (s + t)[1..] == s[1..] + t;
      var first := SplitDots(t)[0];
      assert [s[0]] + (s[1..] + first) == s + first;
    }
  }

  // ---------------------------------------------------------------- questions

  /** A spelling of the canonical name d in any mix of upper and lower case. */
  predicate CaseVariant(v: string, d: string) {
    |v| == |d| && forall i :: 0 <= i < |v| ==> v[i] == d[i] || SmallOf(d[i], v[i])
  }

  lemma VariantIsLowered(v: string, d: string)
    requires Normalize(d) == Some(d)
    ensures CaseVariant(v, d) <==> LowerAscii(v) == d
  {
    NormalizeFixedPoints(d);
    VariantOfSmall(v, d);
  }

  lemma VariantOfSmall(v: string, d: string)
    requires forall i :: 0 <= i < |d| ==> !('A' <= d[i] <= 'Z')
    ensures CaseVariant(v, d) <==> LowerAscii(v) == d
  {
    forall i | 0 <= i < |v| && i < |d| ensures v[i] == d[i] || SmallOf(d[i], v[i]) <==> LowerChar(v[i]) == d[i] {
      SmallOfExact(d[i], v[i]);
    }
  }

  function AsciiBytes(s: string): seq<Byte>
    requires forall i :: 0 <= i < |s| ==> s[i] < '\U{0080}'
  {
    seq(|s|, i requires 0 <= i < |s| => s[i] as int)
  }

  predicate WireLabel(s: string) {
    1 <= |s| <= 63 && forall i :: 0 <= i < |s| ==> s[i] < '\U{0080}'
  }

  function EncodeLabel(s: string): seq<Byte>
    requires WireLabel(s)
  {
    [|s|] + AsciiBytes(s)
  }

  /** Section 3.1: length-prefixed labels and the root. */
  function EncodeLabels(ls: seq<string>): seq<Byte>
    requires forall i :: 0 <= i < |ls| ==> WireLabel(ls[i])
  {
    if ls == [] then [0] else EncodeLabel(ls[0]) + EncodeLabels(ls[1..])
  }

  lemma {:induction false} Utf8OfAscii(s: string)
    requires forall i :: 0 <= i < |s| ==> s[i] < '\U{0080}'
    ensures Utf8(AsciiBytes(s)) == Some(s)
  {
    if s != [] {
      Utf8OfAscii(s[1..]);
      assert AsciiBytes(s)[1..] == AsciiBytes(s[1..]);
      assert s == [s[0]] + s[1..];
    }
  }

  function LowerAll(ls: seq<string>): seq<string> {
    if ls == [] then [] else [LowerAscii(ls[0])] + LowerAll(ls[1..])
  }

  function AllBytes(ls: seq<string>): seq<seq<Byte>>
    requires forall i :: 0 <= i < |ls| ==> WireLabel(ls[i])
  {
    if ls == [] then [] else assert WireLabel(ls[0]); [AsciiBytes(ls[0])] + AllBytes(ls[1..])
  }

  lemma LabelsOfEncoding(buf: seq<Byte>, pos: nat, ls: seq<string>)
    requires forall i :: 0 <= i < |ls| ==> WireLabel(ls[i])
    requires At(buf, pos, EncodeLabels(ls))
    ensures Labels(buf, pos) == Some((LowerAll(ls), pos + |EncodeLabels(ls)|))
  {
    RawLabelsOfEncoding(buf, pos, ls);
    TextsOfBytes(ls);
  }

  lemma {:induction false} TextsOfBytes(ls: seq<string>)
    requires forall i :: 0 <= i < |ls| ==> WireLabel(ls[i])
    ensures Texts(AllBytes(ls)) == Some(LowerAll(ls))
  {
    if ls != [] {
      Utf8OfAscii(ls[0]);
      TextsOfBytes(ls[1..]);
      FirstText(AsciiBytes(ls[0]), AllBytes(ls[1..]));
    }
  }

  lemma {:induction false} RawLabelsOfEncoding(buf: seq<Byte>, pos: nat, ls: seq<string>)
    requires forall i :: 0 <= i < |ls| ==> WireLabel(ls[i])
    requires At(buf, pos, EncodeLabels(ls))
    ensures RawLabels(buf, pos) == Some((AllBytes(ls), pos + |EncodeLabels(ls)|))
    decreases |ls|
  {
    if ls == [] {
      assert buf[pos] == buf[pos..pos + 1][0];
    } else {
      FirstLabelAt(buf, pos, ls);
      LabelBytesAt(buf, pos, ls[0]);
      RawLabelsOfEncoding(buf, pos + 1 + |ls[0]|, ls[1..]);
    }
  }

  lemma FirstLabelAt(buf: seq<Byte>, pos: nat, ls: seq<string>)
    requires ls != [] && forall i :: 0 <= i < |ls| ==> WireLabel(ls[i])
    requires At(buf, pos, EncodeLabels(ls))
    ensures At(buf, pos, EncodeLabel(ls[0])) && At(buf, pos + 1 + |ls[0]|, EncodeLabels(ls[1..]))
    ensures |EncodeLabels(ls)| == 1 + |ls[0]| + |EncodeLabels(ls[1..])|
  {
    FirstPartAt(buf, pos, EncodeLabel(ls[0]), EncodeLabels(ls[1..]), EncodeLabels(ls));
  }

  lemma FirstPartAt(buf: seq<Byte>, pos: nat, first: seq<Byte>, rest: seq<Byte>, whole: seq<Byte>)
    requires whole == first + rest && At(buf, pos, whole)
    ensures At(buf, pos, first) && At(buf, pos + |first|, rest) && |whole| == |first| + |rest|
  {
    AtSplit(buf, pos, first, rest);
  }

  /** A label at the cursor: its length, then its bytes. */
  lemma LabelBytesAt(buf: seq<Byte>, pos: nat, s: string)
    requires WireLabel(s) && At(buf, pos, EncodeLabel(s))
    ensures pos + 1 + |s| <= |buf| && buf[pos] == |s| && buf[pos + 1..pos + 1 + |s|] == AsciiBytes(s)
  {
    AtSplit(buf, pos, [|s|], AsciiBytes(s));
    assert buf[pos] == buf[pos..pos + 1][0];
  }

  lemma {:induction false} LowerAllIndex(ls: seq<string>)
    ensures |LowerAll(ls)| == |ls| && forall i :: 0 <= i < |ls| ==> LowerAll(ls)[i] == LowerAscii(ls[i])
  {
    if ls != [] { LowerAllIndex(ls[1..]); }
  }

  /** The labels of a case variant of a canonical name fit on the wire. */
  lemma VariantLabels(v: string, d: string)
    requires Normalize(d) == Some(d) && CaseVariant(v, d)
    ensures forall i :: 0 <= i < |SplitDots(v)| ==> WireLabel(SplitDots(v)[i])
    ensures JoinDots(LowerAll(SplitDots(v))) == d
  {
    NormalizeFixedPoints(d);
    VariantIsLowered(v, d);
    VariantPieces(v, d);
    forall i | 0 <= i < |SplitDots(v)| ensures WireLabel(SplitDots(v)[i]) {
      assert LabelOk(SplitDots(d)[i]);
      PieceIsAscii(v, d, i);
    }
  }

  lemma VariantPieces(v: string, d: string)
    requires LowerAscii(v) == d
    ensures |SplitDots(v)| == |SplitDots(d)|
    ensures forall i :: 0 <= i < |SplitDots(v)| ==> |SplitDots(v)[i]| == |SplitDots(d)[i]|
    ensures JoinDots(LowerAll(SplitDots(v))) == d
  {
    SplitLower(v);
    LowerAllIndex(SplitDots(v));
    assert LowerAll(SplitDots(v)) == SplitDots(d);
    JoinSplit(d);
  }

  lemma PieceIsAscii(v: string, d: string, i: nat)
    requires LowerAscii(v) == d && i < |SplitDots(v)| && forall k :: 0 <= k < |d| ==> HostChar(d[k])
    ensures forall k :: 0 <= k < |SplitDots(v)[i]| ==> SplitDots(v)[i][k] < '\U{0080}'
  {
    var piece := SplitDots(v)[i];
    SplitChars(v);
    forall k | 0 <= k < |piece| ensures piece[k] < '\U{0080}' {
      assert piece[k] in v;
      var j :| 0 <= j < |v| && v[j] == piece[k];
      assert d[j] == LowerChar(v[j]) && HostChar(d[j]);
    }
  }

  lemma {:induction false} SplitChars(s: string)
    ensures forall i, c :: 0 <= i < |SplitDots(s)| && c in SplitDots(s)[i] ==> c in s
  {
    if s != [] {
      SplitChars(s[1..]);
      var rest := SplitDots(s[1..]);
      assert s == [s[0]] + s[1..];
      forall i, c | 0 <= i < |SplitDots(s)| && c in SplitDots(s)[i] ensures c in s {
        if s[0] == '.' {
          if i > 0 { assert c in rest[i - 1]; }
        } else if i > 0 {
          assert c in rest[i];
        } else if c != s[0] {
          assert c in rest[0];
        }
      }
    }
  }

  /** Question round trip: any case variant of a name that normalisation leaves alone, encoded
      after any header with a non-zero question count and before anything, parses back. */
  lemma {:induction false} QuestionRoundTrip(
    header: seq<Byte>, d: string, v: string, qtype: u16, qclass: u16, trailer: seq<Byte>)
    requires |header| == 12 && ReadU16(header, 4) != Some(0)
    requires Normalize(d) == Some(d) && CaseVariant(v, d)
    ensures forall i :: 0 <= i < |SplitDots(v)| ==> WireLabel(SplitDots(v)[i])
    ensures QuestionOf(header + EncodeLabels(SplitDots(v)) + (U16(qtype) + U16(qclass)) + trailer)
         == Some(Question(d, qtype, qclass))
  {
    VariantLabels(v, d);
    var ls := SplitDots(v);
    forall end: nat ensures Normalized(Some((LowerAll(ls), end))) == Some((d, end)) {
      NormalizedAt(LowerAll(ls), end, d);
    }
    QuestionOfLabels(header, ls, d, qtype, qclass, trailer);
  }

  lemma QuestionOfLabels(header: seq<Byte>, ls: seq<string>, d: string, qtype: u16, qclass: u16, trailer: seq<Byte>)
    requires |header| == 12 && ReadU16(header, 4) != Some(0)
    requires forall i :: 0 <= i < |ls| ==> WireLabel(ls[i])
    requires forall end: nat :: Normalized(Some((LowerAll(ls), end))) == Some((d, end))
    ensures QuestionOf(header + EncodeLabels(ls) + (U16(qtype) + U16(qclass)) + trailer) ==
      Some(Question(d, qtype, qclass))
  {
    var name := EncodeLabels(ls);
    QuestionPlaced(header, name, qtype, qclass, trailer);
    QuestionAt(header + name + (U16(qtype) + U16(qclass)) + trailer, ls, 12 + |name|, d, qtype, qclass);
  }

  lemma QuestionAt(buf: seq<Byte>, ls: seq<string>, pos: nat, d: string, qtype: u16, qclass: u16)
    requires |buf| >= 12 && ReadU16(buf, 4) != Some(0)
    requires forall i :: 0 <= i < |ls| ==> WireLabel(ls[i])
    requires At(buf, 12, EncodeLabels(ls)) && pos == 12 + |EncodeLabels(ls)|
    requires Normalized(Some((LowerAll(ls), pos))) == Some((d, pos))
    requires ReadU16(buf, pos) == Some(qtype) && ReadU16(buf, pos + 2) == Some(qclass)
    ensures QuestionOf(buf) == Some(Question(d, qtype, qclass))
  {
    LabelsOfEncoding(buf, 12, ls);
    assert Qname(buf, 12) == Some((d, pos));
  }

  lemma NormalizedAt(ls: seq<string>, end: nat, d: string)
    requires JoinDots(ls) == d && Normalize(d) == Some(d)
    ensures Normalized(Some((ls, end))) == Some((d, end))
  {}

  lemma QuestionPlaced(header: seq<Byte>, name: seq<Byte>, qtype: u16, qclass: u16, trailer: seq<Byte>)
    requires |header| == 12
    ensures var buf, pos := header + name + (U16(qtype) + U16(qclass)) + trailer, 12 + |name|;
      && ReadU16(buf, 4) == ReadU16(header, 4) && At(buf, 12, name)
      && ReadU16(buf, pos) == Some(qtype) && ReadU16(buf, pos + 2) == Some(qclass)
  {
    var tail := U16(qtype) + U16(qclass);
    var buf, pos := header + name + tail + trailer, 12 + |name|;
    assert At(buf, 0, buf);
    AtSplit(buf, 0, header + name + tail, trailer);
    AtSplit(buf, 0, header + name, tail);
    AtSplit(buf, 0, header, name);
    HeaderAt(buf, header);
    AtSplit(buf, pos, U16(qtype), U16(qclass));
    U16At(buf, pos, qtype);
    U16At(buf, pos + 2, qclass);
  }

  // ---------------------------------------------------------------- error replies

  /** The error reply of section 4.1.1: same length, identifier, question count and body; QR and
      RA set, opcode, AA, TC and Z clear, RD kept, the given code; no records announced. */
  lemma ErrorReplyLayout(q: seq<Byte>, rcode: u16)
    requires |q| >= 12
    ensures ErrorReply(q, rcode).Some?
    ensures var r := ErrorReply(q, rcode).value;
      && |r| == |q| && r[..2] == q[..2] && r[4..6] == q[4..6] && r[12..] == q[12..]
      && r[2] == 128 + q[2] % 2 && r[3] == 128 + rcode % 16
      && (forall i :: 6 <= i < 12 ==> r[i] == 0)
  {
    var flags := ErrorFlags(ReadU16(q, 2).value, rcode);
    assert (q[2] as int * 256 + q[3] as int) / 256 == q[2];
    assert flags / 256 == 128 + q[2] % 2 && flags % 256 == 128 + rcode % 16;
    var r := ErrorReply(q, rcode).value;
    assert r[2] == U16(flags)[0] && r[3] == U16(flags)[1];
  }

  /** The reply's flag word is the masked expression of the query's flag word and the code. */
  lemma {:induction false} ErrorReplyFlagWord(q: seq<Byte>, rcode: bv8)
    requires |q| >= 12
    ensures ErrorReply(q, rcode as int).Some?
    ensures var r := ErrorReply(q, rcode as int).value;
      && |r| == |q|
      && Word(r[2] as bv8, r[3] as bv8) == FlagWord(Word(q[2] as bv8, q[3] as bv8), rcode as bv16)
  {
    ErrorReplyLayout(q, rcode as int);
    HighFlagByte(q[2]);
    LowFlagByte(rcode);
    FlagMasks(q[2] as bv8, q[3] as bv8, rcode);
    var r := ErrorReply(q, rcode as int).value;
    SameByte(r[2], 0x80 | ((q[2] as bv8) & 1));
    SameByte(r[3], 0x80 | (rcode & 0x0f));
  }

  lemma SameByte(b: Byte, x: bv8)
    requires b == x as int
    ensures b as bv8 == x
  {}

  lemma {:induction false} LabelsDependOnTail(a: seq<Byte>, b: seq<Byte>, pos: nat)
    requires |a| == |b| && pos <= |a| && a[pos..] == b[pos..]
    ensures RawLabels(a, pos) == RawLabels(b, pos)
    decreases |a| - pos
  {
    if pos < |a| {
      assert a[pos] == a[pos..][0] && b[pos] == b[pos..][0];
      var len := a[pos];
      if 0 < len < 64 && pos + 1 + len <= |a| {
        TailParts(a, b, pos, 1 + len);
        LabelsDependOnTail(a, b, pos + 1 + len);
      }
    }
  }

  lemma TailParts(a: seq<Byte>, b: seq<Byte>, pos: nat, width: nat)
    requires |a| == |b| && pos + width <= |a| && width >= 1 && a[pos..] == b[pos..]
    ensures a[pos + 1..pos + width] == b[pos + 1..pos + width] && a[pos + width..] == b[pos + width..]
  {
    assert forall i :: pos <= i < |a| ==> a[i] == a[pos..][i - pos] && b[i] == b[pos..][i - pos];
  }

  lemma {:induction false} NameEndDependsOnTail(a: seq<Byte>, b: seq<Byte>, pos: nat)
    requires |a| == |b| && |a| >= 12 && a[12..] == b[12..] && 12 <= pos
    ensures NameEnd(a, pos) == NameEnd(b, pos)
    decreases |a| - pos
  {
    if pos < |a| {
      assert a[pos] == a[12..][pos - 12] && b[pos] == b[12..][pos - 12];
      if 0 < a[pos] < 64 { NameEndDependsOnTail(a, b, pos + 1 + a[pos]); }
    }
  }

  lemma {:induction false} QuestionsEndDependsOnTail(a: seq<Byte>, b: seq<Byte>, pos: nat, count: nat)
    requires |a| == |b| && |a| >= 12 && a[12..] == b[12..] && 12 <= pos
    ensures QuestionsEnd(a, pos, count) == QuestionsEnd(b, pos, count)
    decreases count
  {
    if count > 0 {
      NameEndDependsOnTail(a, b, pos);
      if NameEnd(a, pos).Some? { QuestionsEndDependsOnTail(a, b, NameEnd(a, pos).value + 4, count - 1); }
    }
  }

  /** An error reply asks the same question, announces no addresses, and parses without error
      exactly when the question section does. */
  lemma {:induction false} ErrorReplyParses(q: seq<Byte>, rcode: u16)
    requires |q| >= 12
    ensures var r := ErrorReply(q, rcode).value;
      && QuestionOf(r) == QuestionOf(q)
      && ARecords(r) == if QuestionsEnd(q, 12, ReadU16(q, 4).value).Some? then Some([]) else None
    ensures QuestionOf(q).Some? && ReadU16(q, 4) == Some(1) ==> ARecords(ErrorReply(q, rcode).value) == Some([])
  {
    ErrorReplyAsks(q, rcode);
    ErrorReplyAnnouncesNothing(q, ErrorReply(q, rcode).value);
    if QuestionOf(q).Some? && ReadU16(q, 4) == Some(1) { OneQuestionEnds(q); }
  }

  lemma ErrorReplyAnnouncesNothing(q: seq<Byte>, r: seq<Byte>)
    requires |r| == |q| >= 12 && r[12..] == q[12..] && ReadU16(r, 4) == ReadU16(q, 4) && ReadU16(r, 6) == Some(0)
    ensures ARecords(r) == if QuestionsEnd(q, 12, ReadU16(q, 4).value).Some? then Some([]) else None
  {
    QuestionsEndDependsOnTail(r, q, 12, ReadU16(q, 4).value);
  }

  lemma OneQuestionEnds(q: seq<Byte>)
    requires QuestionOf(q).Some?
    ensures QuestionsEnd(q, 12, 1).Some?
  {
    QnameEndsWhereSkipEnds(q, 12);
    var p := NameEnd(q, 12).value;
    assert QuestionsEnd(q, p + 4, 0) == Some(p + 4);
  }

  lemma ErrorReplyAsks(q: seq<Byte>, rcode: u16)
    requires |q| >= 12
    ensures var r := ErrorReply(q, rcode).value;
      && |r| == |q| && r[12..] == q[12..]
      && ReadU16(r, 4) == ReadU16(q, 4) && ReadU16(r, 6) == Some(0) && QuestionOf(r) == QuestionOf(q)
  {
    ErrorReplyLayout(q, rcode);
    var r := ErrorReply(q, rcode).value;
    assert r[4] == r[4..6][0] == q[4] && r[5] == r[4..6][1] == q[5];
    assert Qname(r, 12) == Qname(q, 12) by { LabelsDependOnTail(r, q, 12); }
    AskDependsOnTail(r, q, Qname(q, 12));
  }

  lemma AskDependsOnTail(a: seq<Byte>, b: seq<Byte>, name: Option<(string, nat)>)
    requires |a| == |b| && |a| >= 12 && a[12..] == b[12..] && (name.Some? ==> name.value.1 >= 12)
    ensures Ask(a, name) == Ask(b, name)
  {
    assert forall i :: 12 <= i < |a| ==> a[i] == a[12..][i - 12] && b[i] == b[12..][i - 12];
  }

  /** Only the last code counts. */
  lemma ErrorReplyAgain(q: seq<Byte>, first: u16, last: u16)
    requires |q| >= 12
    ensures ErrorReply(ErrorReply(q, first).value, last) == ErrorReply(q, last)
  {
    ErrorReplyLayout(q, first);
    ErrorReplyLayout(q, last);
    var r := ErrorReply(q, first).value;
    ErrorReplyLayout(r, last);
    var a, b := ErrorReply(r, last).value, ErrorReply(q, last).value;
    assert a[..2] == b[..2] && a[4..6] == b[4..6] && a[12..] == b[12..];
    forall i | 0 <= i < |a| ensures a[i] == b[i] {
      if i < 2 { assert a[i] == a[..2][i] && b[i] == b[..2][i]; }
      else if 4 <= i < 6 { assert a[i] == a[4..6][i - 4] && b[i] == b[4..6][i - 4]; }
      else if i >= 12 { assert a[i] == a[12..][i - 12] && b[i] == b[12..][i - 12]; }
    }
  }
}
