/** The hand-written DNS codec: 16-bit reads and writes, name cursors, the question parser, the
    A-record parser and the in-place error reply. Names of sections refer to RFC 1035. */
module Wire {
  import opened Text
  import opened Domain
  import opened Config

  type Byte = x: int | 0 <= x < 256

  const QTYPE_A: u16 := 1
  const QTYPE_AAAA: u16 := 28
  const QCLASS_IN: u16 := 1
  const RCODE_SERVFAIL: u16 := 2
  const RCODE_REFUSED: u16 := 5

  datatype Question = Question(domain: string, qtype: u16, qclass: u16)

  // ---------------------------------------------------------------- 16-bit fields

  /** Big-endian bytes of a 16-bit field. */
  function U16(n: u16): seq<Byte> { [n / 256, n % 256] }

  function ReadU16(buf: seq<Byte>, pos: nat): Option<u16> {
    if pos + 2 > |buf| then None else Some(buf[pos] as int * 256 + buf[pos + 1] as int)
  }

  /** The bytes with a 16-bit field overwritten. */
  function Written(bs: seq<Byte>, pos: nat, value: u16): (r: seq<Byte>)
    requires pos + 2 <= |bs|
    ensures |r| == |bs|
  {
    bs[..pos] + U16(value) + bs[pos + 2..]
  }

  method WriteU16(buf: array<Byte>, pos: nat, value: u16) returns (ok: bool)
    modifies buf
    ensures ok <==> pos + 2 <= buf.Length
    ensures buf[..] == if ok then Written(old(buf[..]), pos, value) else old(buf[..])
  {
    if pos + 2 > buf.Length { return false; }
    buf[pos] := value / 256;
    buf[pos + 1] := value % 256;
    return true;
  }

  // The masks of the codec on machine words, and the comparisons and arithmetic used below.

  /** `len & 0xc0` tells label lengths from pointers as the comparisons do. */
  lemma LengthMasks(b: Byte)
    ensures (b as bv8) & 0xc0 != 0 <==> b >= 64
    ensures (b as bv8) & 0xc0 == 0xc0 <==> b >= 192
  {}

  /** `u16::from_be_bytes`. */
  function Word(hi: bv8, lo: bv8): bv16 { ((hi as bv16) << 8) | (lo as bv16) }

  /** The flag word of `build_error_response`: QR, the query's RD, RA and the code. */
  function FlagWord(query: bv16, rcode: bv16): bv16 { 0x8000 | (query & 0x0100) | 0x0080 | (rcode & 0x000f) }

  /** Its two bytes. */
  lemma FlagMasks(hi: bv8, lo: bv8, rcode: bv8)
    ensures FlagWord(Word(hi, lo), rcode as bv16) == Word(0x80 | (hi & 1), 0x80 | (rcode & 0x0f))
  {}

  lemma HighFlagByte(hi: Byte)
    ensures (0x80 | ((hi as bv8) & 1)) as int == 128 + hi % 2
  {}

  lemma LowFlagByte(x: bv8)
    ensures (0x80 | (x & 0x0f)) as int == 128 + x as int % 16
  {
    LowNibble(x);
    WithHighBit(x & 0x0f);
  }

  lemma WithHighBit(x: bv8)
    requires x < 128
    ensures (0x80 | x) as int == 128 + x as int
  {}

  lemma {:induction false} LowNibble(x: bv8)
    ensures (x & 0x0f) as int == x as int % 16
    decreases x as int
  {
    if x < 16 {
      SmallNibble(x);
    } else {
      Less16(x);
      SameNibble(x);
      LowNibble(x - 16);
    }
  }

  lemma SmallNibble(x: bv8)
    requires x < 16
    ensures (x & 0x0f) as int == x as int < 16
  {}

  lemma Less16(x: bv8)
    requires x >= 16
    ensures (x - 16) as int == x as int - 16
  {}

  lemma SameNibble(x: bv8)
    ensures (x - 16) & 0x0f == x & 0x0f
  {}

  // ---------------------------------------------------------------- UTF-8

  predicate Continuation(b: Byte) { 0x80 <= b <= 0xBF }

  /** The first scalar value of a UTF-8 text and its width. */
  function Utf8Head(bs: seq<Byte>): (r: Option<(char, nat)>)
    requires bs != []
    ensures r.Some? ==> 1 <= r.value.1 <= |bs|
  {
    var b: int := bs[0];
    var c1: int := if |bs| >= 2 && Continuation(bs[1]) then bs[1] - 0x80 else -1;
    var c2: int := if |bs| >= 3 && Continuation(bs[2]) then bs[2] - 0x80 else -1;
    var c3: int := if |bs| >= 4 && Continuation(bs[3]) then bs[3] - 0x80 else -1;
    if b < 0x80 then Some((b as char, 1))
    else if 0xC2 <= b <= 0xDF && c1 >= 0 then
      Some((((b - 0xC0) * 64 + c1) as char, 2))
    else if 0xE0 <= b <= 0xEF && c1 >= 0 && c2 >= 0 && (b == 0xE0 ==> c1 >= 0x20) && (b == 0xED ==> c1 <= 0x1F) then
      Some((((b - 0xE0) * 4096 + c1 * 64 + c2) as char, 3))
    else if 0xF0 <= b <= 0xF4 && c1 >= 0 && c2 >= 0 && c3 >= 0 && (b == 0xF0 ==> c1 >= 0x10)
      && (b == 0xF4 ==> c1 <= 0x0F) then
      Some((((b - 0xF0) * 262144 + c1 * 4096 + c2 * 64 + c3) as char, 4))
    else None
  }

  /** `str::from_utf8`. */
  function Utf8(bs: seq<Byte>): Option<string>
    decreases |bs|
  {
    if bs == [] then Some([])
    else
      match Utf8Head(bs)
      case None => None
      case Some((c, width)) =>
        match Utf8(bs[width..])
        case None => None
        case Some(rest) => Some([c] + rest)
  }

  // ---------------------------------------------------------------- names

  /** The label bytes from `pos` up to the root, and the end. */
  function RawLabels(buf: seq<Byte>, pos: nat): (r: Option<(seq<seq<Byte>>, nat)>)
    decreases |buf| - pos
    ensures r.Some? ==> pos < r.value.1 <= |buf|
  {
    if pos >= |buf| then None
    else
      var len := buf[pos];
      if len == 0 then Some(([], pos + 1))
      else if len >= 64 || pos + 1 + len > |buf| then None
      else
        match RawLabels(buf, pos + 1 + len)
        case None => None
        case Some((rest, end)) => Some(([buf[pos + 1..pos + 1 + len]] + rest, end))
  }

  /** The label bytes as lower-cased text. */
  function Texts(raw: seq<seq<Byte>>): Option<seq<string>> {
    if raw == [] then Some([]) else WithFirst(Utf8(raw[0]), Texts(raw[1..]))
  }

  function WithFirst(text: Option<string>, rest: Option<seq<string>>): Option<seq<string>> {
    if text.None? || rest.None? then None else Some([LowerAscii(text.value)] + rest.value)
  }

  /** What the label loop of `read_qname` yields from `pos`: lower-cased labels and the end. */
  function Labels(buf: seq<Byte>, pos: nat): Option<(seq<string>, nat)> { AsText(RawLabels(buf, pos)) }

  function AsText(raw: Option<(seq<seq<Byte>>, nat)>): (r: Option<(seq<string>, nat)>)
    ensures r.Some? ==> raw.Some? && r.value.1 == raw.value.1
  {
    match raw
    case None => None
    case Some((labels, end)) =>
      match Texts(labels)
      case None => None
      case Some(texts) => Some((texts, end))
  }

  function Prepend(text: Option<string>, rest: Option<(seq<string>, nat)>): Option<(seq<string>, nat)> {
    if text.None? || rest.None? then None else Some(([LowerAscii(text.value)] + rest.value.0, rest.value.1))
  }

  function PrependAll(labels: seq<string>, rest: Option<(seq<string>, nat)>): Option<(seq<string>, nat)> {
    if rest.None? then None else Some((labels + rest.value.0, rest.value.1))
  }

  /** One pass of the label loop. */
  lemma LabelsStep(buf: seq<Byte>, pos: nat)
    requires pos < |buf| && 0 < buf[pos] < 64 && pos + 1 + buf[pos] <= |buf|
    ensures Labels(buf, pos) == Prepend(Utf8(buf[pos + 1..pos + 1 + buf[pos]]), Labels(buf, pos + 1 + buf[pos]))
  {
    var rest := RawLabels(buf, pos + 1 + buf[pos]);
    if rest.Some? { FirstText(buf[pos + 1..pos + 1 + buf[pos]], rest.value.0); }
  }

  lemma FirstText(first: seq<Byte>, rest: seq<seq<Byte>>)
    ensures Texts([first] + rest) == WithFirst(Utf8(first), Texts(rest))
  {
    assert ([first] + rest)[1..] == rest;
  }

  lemma PrependNone(rest: Option<(seq<string>, nat)>)
    ensures PrependAll([], rest) == rest
  {
    if rest.Some? { assert [] + rest.value.0 == rest.value.0; }
  }

  /** The same with the labels read so far: the text joins them, or the rest no longer matters. */
  lemma PrependNext(buf: seq<Byte>, labels: seq<string>, pos: nat)
    requires pos < |buf| && 0 < buf[pos] < 64 && pos + 1 + buf[pos] <= |buf|
    ensures var text := Utf8(buf[pos + 1..pos + 1 + buf[pos]]);
      PrependAll(labels, Labels(buf, pos)) ==
        if text.None? then None else PrependAll(labels + [LowerAscii(text.value)], Labels(buf, pos + 1 + buf[pos]))
  {
    LabelsStep(buf, pos);
    var text, rest := Utf8(buf[pos + 1..pos + 1 + buf[pos]]), Labels(buf, pos + 1 + buf[pos]);
    if text.Some? { PrependStep(labels, text.value, rest); }
  }

  lemma PrependStep(labels: seq<string>, text: string, rest: Option<(seq<string>, nat)>)
    ensures PrependAll(labels, Prepend(Some(text), rest)) == PrependAll(labels + [LowerAscii(text)], rest)
  {
    if rest.Some? { assert labels + ([LowerAscii(text)] + rest.value.0) == labels + [LowerAscii(text)] + rest.value.0; }
  }

  function Normalized(labels: Option<(seq<string>, nat)>): Option<(string, nat)> {
    if labels.None? then None
    else
      match Normalize(JoinDots(labels.value.0))
      case None => None
      case Some(d) => Some((d, labels.value.1))
  }

  /** `read_qname`, as a value. */
  function Qname(buf: seq<Byte>, pos: nat): Option<(string, nat)> { Normalized(Labels(buf, pos)) }

  method ReadQname(buf: seq<Byte>, start: nat) returns (r: Option<(string, nat)>)
    ensures r == Qname(buf, start)
  {
    var read := ReadLabels(buf, start);
    if read.None? { return None; }
    var (labels, pos) := read.value;
    match Normalize(JoinDots(labels))
    case None => return None;
    case Some(domain) => return Some((domain, pos));
  }

  /** The label loop of `read_qname`, filling the label vector. */
  method ReadLabels(buf: seq<Byte>, start: nat) returns (r: Option<(seq<string>, nat)>)
    ensures r == Labels(buf, start)
  {
    var pos: nat := start;
    var labels: seq<string> := [];
    PrependNone(Labels(buf, start));
    while true
      invariant Labels(buf, start) == PrependAll(labels, Labels(buf, pos))
      decreases |buf| - pos
    {
      if pos >= |buf| { return None; }
      var len := buf[pos];
      if len == 0 { break; }
      if len >= 64 || pos + 1 + len > |buf| { return None; }
      PrependNext(buf, labels, pos);
      match Utf8(buf[pos + 1..pos + 1 + len])
      case None => return None;
      case Some(text) =>
        labels := labels + [LowerAscii(text)];
        pos := pos + 1 + len;
    }
    assert labels + [] == labels;
    return Some((labels, pos + 1));
  }

  /** `skip_name`, as a value: the position after a name, which is always further on and inside. */
  function NameEnd(buf: seq<Byte>, pos: nat): (r: Option<nat>)
    decreases |buf| - pos
    ensures r.Some? ==> pos < r.value <= |buf|
  {
    if pos >= |buf| then None
    else if buf[pos] == 0 then Some(pos + 1)
    else if buf[pos] >= 192 then if pos + 1 >= |buf| then None else Some(pos + 2)
    else if buf[pos] > 63 then None
    else NameEnd(buf, pos + 1 + buf[pos])
  }

  method SkipName(buf: seq<Byte>, start: nat) returns (r: Option<nat>)
    ensures r == NameEnd(buf, start)
    ensures r.Some? ==> start < r.value <= |buf|
  {
    var pos: nat := start;
    while true
      invariant NameEnd(buf, start) == NameEnd(buf, pos)
      decreases |buf| - pos
    {
      if pos >= |buf| { return None; }
      var len := buf[pos];
      if len == 0 { return Some(pos + 1); }
      if len >= 192 { return if pos + 1 >= |buf| then None else Some(pos + 2); }
      if len > 63 { return None; }
      pos := pos + 1 + len;
    }
  }

  lemma {:induction false} RawLabelsEnd(buf: seq<Byte>, pos: nat)
    requires RawLabels(buf, pos).Some?
    ensures NameEnd(buf, pos) == Some(RawLabels(buf, pos).value.1)
    decreases |buf| - pos
  {
    if buf[pos] != 0 { RawLabelsEnd(buf, pos + 1 + buf[pos]); }
  }

  /** Whatever `read_qname` accepts, `skip_name` skips to the same end. */
  lemma QnameEndsWhereSkipEnds(buf: seq<Byte>, pos: nat)
    requires Qname(buf, pos).Some?
    ensures NameEnd(buf, pos) == Some(Qname(buf, pos).value.1)
  {
    RawLabelsEnd(buf, pos);
  }

  // ---------------------------------------------------------------- questions

  /** `parse_question`. */
  method ParseQuestion(buf: seq<Byte>) returns (r: Option<Question>)
    ensures r == QuestionOf(buf)
  {
    if |buf| < 12 { return None; }
    var qdcount := ReadU16(buf, 4);
    if qdcount.None? || qdcount.value == 0 { return None; }
    var name := ReadQname(buf, 12);
    if name.None? { return None; }
    var (domain, pos) := name.value;
    if pos + 4 > |buf| { return None; }
    return Some(Question(domain, ReadU16(buf, pos).value, ReadU16(buf, pos + 2).value));
  }

  /** `parse_question`, as a value. */
  function QuestionOf(buf: seq<Byte>): Option<Question> {
    if |buf| < 12 || ReadU16(buf, 4) == Some(0) then None else Ask(buf, Qname(buf, 12))
  }

  function Ask(buf: seq<Byte>, name: Option<(string, nat)>): Option<Question> {
    match name
    case None => None
    case Some((domain, pos)) =>
      if pos + 4 > |buf| then None
      else Some(Question(domain, ReadU16(buf, pos).value, ReadU16(buf, pos + 2).value))
  }

  // ---------------------------------------------------------------- A records

  function DottedQuad(b: seq<Byte>): string
    requires |b| == 4
  {
    Dec(b[0]) + "." + Dec(b[1]) + "." + Dec(b[2]) + "." + Dec(b[3])
  }

  /** The position after `count` questions. */
  function QuestionsEnd(buf: seq<Byte>, pos: nat, count: nat): (r: Option<nat>)
    decreases count
    ensures r.Some? && pos <= |buf| ==> pos <= r.value <= |buf|
  {
    if count == 0 then Some(pos)
    else
      match NameEnd(buf, pos)
      case None => None
      case Some(p) => if p + 4 > |buf| then None else QuestionsEnd(buf, p + 4, count - 1)
  }

  /** One record at `pos`: its address if it is a class-IN type-A 4-byte record, and its end. */
  function RecordAt(buf: seq<Byte>, pos: nat): (r: Option<(Option<string>, nat)>)
    ensures r.Some? ==> pos < r.value.1 <= |buf|
  {
    match NameEnd(buf, pos)
    case None => None
    case Some(p) =>
      if p + 10 > |buf| then None
      else
        var rdlen := ReadU16(buf, p + 8).value;
        if p + 10 + rdlen > |buf| then None
        else if ReadU16(buf, p) == Some(QTYPE_A) && ReadU16(buf, p + 2) == Some(QCLASS_IN) && rdlen == 4
        then Some((Some(DottedQuad(buf[p + 10..p + 14])), p + 14))
        else Some((None, p + 10 + rdlen))
  }

  /** The addresses among `count` records, in order. */
  function Addresses(buf: seq<Byte>, pos: nat, count: nat): Option<seq<string>>
    decreases count
  {
    if count == 0 then Some([])
    else
      match RecordAt(buf, pos)
      case None => None
      case Some((ip, end)) =>
        match Addresses(buf, end, count - 1)
        case None => None
        case Some(rest) => Some(if ip.Some? then [ip.value] + rest else rest)
  }

  /** `parse_a_records`, as a value. */
  function ARecords(buf: seq<Byte>): Option<seq<string>> {
    if |buf| < 12 then None
    else
      match QuestionsEnd(buf, 12, ReadU16(buf, 4).value)
      case None => None
      case Some(pos) =>
        Collected(Addresses(buf, pos, ReadU16(buf, 6).value))
  }

  method ParseARecords(buf: seq<Byte>) returns (r: Option<seq<string>>)
    ensures r == ARecords(buf)
  {
    if |buf| < 12 { return None; }
    var qdcount, ancount := ReadU16(buf, 4).value, ReadU16(buf, 6).value;
    var pos: nat := 12;
    for i := 0 to qdcount
      invariant QuestionsEnd(buf, 12, qdcount) == QuestionsEnd(buf, pos, qdcount - i)
    {
      var p := SkipName(buf, pos);
      if p.None? || p.value + 4 > |buf| { return None; }
      pos := p.value + 4;
    }
    r := CollectAddresses(buf, pos, ancount);
  }

  /** One pass of the answer loop: bounds checks, fixed fields, data. */
  method ReadRecord(buf: seq<Byte>, start: nat) returns (r: Option<(Option<string>, nat)>)
    ensures r == RecordAt(buf, start)
  {
    var p := SkipName(buf, start);
    if p.None? || p.value + 10 > |buf| { return None; }
    var pos := p.value;
    var rrType, rrClass := ReadU16(buf, pos).value, ReadU16(buf, pos + 2).value;
    var rdlen := ReadU16(buf, pos + 8).value;
    pos := pos + 10;
    if pos + rdlen > |buf| { return None; }
    if rrType == QTYPE_A && rrClass == QCLASS_IN && rdlen == 4 {
      return Some((Some(DottedQuad(buf[pos..pos + 4])), pos + 4));
    }
    return Some((None, pos + rdlen));
  }

  function Collected(found: Option<seq<string>>): Option<seq<string>> {
    if found.None? then None else Some(UniqueSorted(found.value))
  }

  /** The answer loop of `parse_a_records`, filling an ordered set. */
  method CollectAddresses(buf: seq<Byte>, start: nat, count: nat) returns (r: Option<seq<string>>)
    ensures r == Collected(Addresses(buf, start, count))
  {
    var pos: nat := start;
    var ips: seq<string> := [];
    ghost var found: seq<string> := [];
    AppendNone(Addresses(buf, start, count));
    for i := 0 to count
      invariant ips == UniqueSorted(found)
      invariant Addresses(buf, start, count) == AppendTo(found, Addresses(buf, pos, count - i))
    {
      AddressesStep(buf, pos, count - i, found);
      var record := ReadRecord(buf, pos);
      match record
      case None => return None;
      case Some((ip, end)) =>
        if ip.Some? { ips, found := Insert(ips, ip.value), found + [ip.value]; }
        pos := end;
    }
    AppendNone(Some(found));
    return Some(ips);
  }

  lemma AppendNone(rest: Option<seq<string>>)
    ensures AppendTo([], rest) == rest
    ensures rest.Some? ==> AppendTo(rest.value, Some([])) == rest
  {
    if rest.Some? { assert [] + rest.value == rest.value && rest.value + [] == rest.value; }
  }

  lemma AddressesStep(buf: seq<Byte>, pos: nat, left: nat, found: seq<string>)
    requires left > 0
    ensures RecordAt(buf, pos).None? ==> Addresses(buf, pos, left).None?
    ensures RecordAt(buf, pos).Some? ==>
      var (ip, end) := RecordAt(buf, pos).value;
      var grown := if ip.Some? then found + [ip.value] else found;
      && AppendTo(found, Addresses(buf, pos, left)) == AppendTo(grown, Addresses(buf, end, left - 1))
      && (ip.Some? ==> UniqueSorted(grown) == Insert(UniqueSorted(found), ip.value))
  {
    if RecordAt(buf, pos).Some? {
      var (ip, end) := RecordAt(buf, pos).value;
      var rest := Addresses(buf, end, left - 1);
      if ip.Some? {
        assert (found + [ip.value])[..|found|] == found;
        if rest.Some? { assert found + ([ip.value] + rest.value) == found + [ip.value] + rest.value; }
      }
    }
  }

  ghost function AppendTo(found: seq<string>, rest: Option<seq<string>>): Option<seq<string>> {
    if rest.None? then None else Some(found + rest.value)
  }

  // ---------------------------------------------------------------- error replies

  /** The flag word of an error reply: QR, the query's RD, RA and the code. */
  function ErrorFlags(queryFlags: u16, rcode: u16): u16 {
    0x8000 + ((queryFlags / 0x100) % 2) * 0x100 + 0x80 + rcode % 16
  }

  /** `build_error_response`, as a value. */
  function ErrorReply(query: seq<Byte>, rcode: u16): Option<seq<Byte>> {
    if |query| < 12 then None
    else
      Some(query[..2] + U16(ErrorFlags(ReadU16(query, 2).value, rcode)) + query[4..6]
           + [0, 0, 0, 0, 0, 0] + query[12..])
  }

  method BuildErrorResponse(query: seq<Byte>, rcode: u16) returns (r: Option<seq<Byte>>)
    ensures r == ErrorReply(query, rcode)
  {
    if |query| < 12 { return None; }
    var response := new Byte[|query|](i requires 0 <= i < |query| => query[i]);
    assert response[..] == query;
    var flags := ErrorFlags(ReadU16(query, 2).value, rcode);
    var ok := WriteU16(response, 2, flags);
    ok := WriteU16(response, 6, 0);
    ok := WriteU16(response, 8, 0);
    ok := WriteU16(response, 10, 0);
    FourWrites(query, flags);
    return Some(response[..]);
  }

  lemma FourWrites(query: seq<Byte>, flags: u16)
    requires |query| >= 12
    ensures Written(Written(Written(Written(query, 2, flags), 6, 0), 8, 0), 10, 0) ==
      query[..2] + U16(flags) + query[4..6] + [0, 0, 0, 0, 0, 0] + query[12..]
  {
    ZeroCounts(Written(query, 2, flags));
    FlagsThenCounts(query, flags);
  }

  /** Three zeroed fields one after the other. */
  lemma ZeroCounts(a: seq<Byte>)
    requires |a| >= 12
    ensures Written(Written(Written(a, 6, 0), 8, 0), 10, 0) == a[..6] + [0, 0, 0, 0, 0, 0] + a[12..]
  {
    var b := Written(a, 6, 0);
    assert b == a[..6] + [0, 0] + a[8..];
    var d := Written(b, 8, 0);
    assert d == a[..6] + [0, 0, 0, 0] + a[10..];
  }

  lemma FlagsThenCounts(query: seq<Byte>, flags: u16)
    requires |query| >= 12
    ensures var a := Written(query, 2, flags);
      a[..6] + [0, 0, 0, 0, 0, 0] + a[12..] == query[..2] + U16(flags) + query[4..6] + [0, 0, 0, 0, 0, 0] + query[12..]
  {}
}
