/** Question parsing is exact: the bytes on which it succeeds, and with what, said by an encoder of
    UTF-8 (section 3 of RFC 3629) and of labels (section 3.1 of RFC 1035). */
module WireQuestions {
  import opened Text
  import opened Domain
  import opened Wire
  import opened WireProofs

  // ---------------------------------------------------------------- UTF-8

  function EncodeChar(c: char): seq<Byte> {
    var n := c as int;
    if n < 0x80 then [n]
    else if n < 0x800 then [0xC0 + n / 64, 0x80 + n % 64]
    else if n < 0x1_0000 then [0xE0 + n / 4096, 0x80 + n / 64 % 64, 0x80 + n % 64]
    else [0xF0 + n / 262144, 0x80 + n / 4096 % 64, 0x80 + n / 64 % 64, 0x80 + n % 64]
  }

  function EncodeText(s: string): seq<Byte> {
    if s == [] then [] else EncodeChar(s[0]) + EncodeText(s[1..])
  }

  // The payloads of the bytes are the digits, base 64, of the character's code.

  lemma TwoBytes(a: nat, b: nat, n: nat)
    requires b < 64
    ensures n == a * 64 + b <==> n / 64 == a && n % 64 == b
  {}

  lemma ThreeBytes(a: nat, b: nat, c: nat, n: nat)
    requires b < 64 && c < 64
    ensures n == a * 4096 + b * 64 + c <==> n / 4096 == a && n / 64 % 64 == b && n % 64 == c
  {}

  lemma FourBytes(a: nat, b: nat, c: nat, d: nat, n: nat)
    requires b < 64 && c < 64 && d < 64
    ensures n == a * 262144 + b * 4096 + c * 64 + d <==>
      n / 262144 == a && n / 4096 % 64 == b && n / 64 % 64 == c && n % 64 == d
  {
    DivideTwice(n);
    TwoBytes(a * 4096 + b * 64 + c, d, n);
    ThreeBytes(a, b, c, n / 64);
  }

  lemma DivideTwice(n: nat)
    ensures n / 64 / 64 == n / 4096 && n / 64 / 4096 == n / 262144
  {}

  /** The head of a text that begins with a character's encoding is that character. */
  lemma HeadOfEncoding(c: char, bs: seq<Byte>)
    requires EncodeChar(c) <= bs
    ensures Utf8Head(bs) == Some((c, |EncodeChar(c)|))
  {
    var part := EncodeChar(c);
    assert forall i :: 0 <= i < |part| ==> bs[i] == part[i];
    if |part| == 2 { TwoByteChar(c, bs); } else if |part| == 3 { ThreeByteChar(c, bs); }
    else if |part| == 4 { FourByteChar(c, bs); }
  }

  lemma TwoByteChar(c: char, bs: seq<Byte>)
    requires var n := c as int; 0x80 <= n < 0x800 && |bs| >= 2 && bs[0] == 0xC0 + n / 64 && bs[1] == 0x80 + n % 64
    ensures Utf8Head(bs) == Some((c, 2))
  {
    TwoBytes(bs[0] - 0xC0, bs[1] - 0x80, c as int);
  }

  lemma ThreeByteChar(c: char, bs: seq<Byte>)
    requires var n := c as int;
      && 0x800 <= n < 0x1_0000 && |bs| >= 3
      && bs[0] == 0xE0 + n / 4096 && bs[1] == 0x80 + n / 64 % 64 && bs[2] == 0x80 + n % 64
    ensures Utf8Head(bs) == Some((c, 3))
  {
    ThreeBytes(bs[0] - 0xE0, bs[1] - 0x80, bs[2] - 0x80, c as int);
  }

  lemma FourByteChar(c: char, bs: seq<Byte>)
    requires var n := c as int;
      && 0x1_0000 <= n && |bs| >= 4 && bs[0] == 0xF0 + n / 262144
      && bs[1] == 0x80 + n / 4096 % 64 && bs[2] == 0x80 + n / 64 % 64 && bs[3] == 0x80 + n % 64
    ensures Utf8Head(bs) == Some((c, 4))
  {
    FourBytes(bs[0] - 0xF0, bs[1] - 0x80, bs[2] - 0x80, bs[3] - 0x80, c as int);
  }

  /** And what is read as the head is a character's encoding. */
  lemma HeadIsEncoded(bs: seq<Byte>)
    requires bs != [] && Utf8Head(bs).Some?
    ensures EncodeChar(Utf8Head(bs).value.0) == bs[..Utf8Head(bs).value.1]
  {
    match Utf8Head(bs).value.1
    case 2 => TwoByteHead(bs);
    case 3 => ThreeByteHead(bs);
    case 4 => FourByteHead(bs);
    case _ => assert bs[..1] == [bs[0]];
  }

  lemma TwoByteHead(bs: seq<Byte>)
    requires bs != [] && Utf8Head(bs).Some? && Utf8Head(bs).value.1 == 2
    ensures EncodeChar(Utf8Head(bs).value.0) == bs[..2]
  {
    TwoBytes(bs[0] - 0xC0, bs[1] - 0x80, Utf8Head(bs).value.0 as int);
    assert bs[..2] == [bs[0], bs[1]];
  }

  lemma ThreeByteHead(bs: seq<Byte>)
    requires bs != [] && Utf8Head(bs).Some? && Utf8Head(bs).value.1 == 3
    ensures EncodeChar(Utf8Head(bs).value.0) == bs[..3]
  {
    ThreeBytes(bs[0] - 0xE0, bs[1] - 0x80, bs[2] - 0x80, Utf8Head(bs).value.0 as int);
    assert bs[..3] == [bs[0], bs[1], bs[2]];
  }

  lemma FourByteHead(bs: seq<Byte>)
    requires bs != [] && Utf8Head(bs).Some? && Utf8Head(bs).value.1 == 4
    ensures EncodeChar(Utf8Head(bs).value.0) == bs[..4]
  {
    FourBytes(bs[0] - 0xF0, bs[1] - 0x80, bs[2] - 0x80, bs[3] - 0x80, Utf8Head(bs).value.0 as int);
    assert bs[..4] == [bs[0], bs[1], bs[2], bs[3]];
  }

  /** Decoding is the inverse of encoding, in both directions. */
  lemma {:induction false} Utf8Exact(bs: seq<Byte>, s: string)
    ensures Utf8(bs) == Some(s) <==> bs == EncodeText(s)
    decreases |bs|
  {
    if s != [] && bs == EncodeText(s) {
      HeadOfEncoding(s[0], bs);
      var width := |EncodeChar(s[0])|;
      assert bs[width..] == EncodeText(s[1..]);
      Utf8Exact(bs[width..], s[1..]);
      assert s == [s[0]] + s[1..];
    }
    if bs != [] && Utf8(bs) == Some(s) {
      HeadIsEncoded(bs);
      var (c, width) := Utf8Head(bs).value;
      var rest := Utf8(bs[width..]).value;
      assert s[1..] == rest;
      Utf8Exact(bs[width..], rest);
      assert bs == bs[..width] + bs[width..];
    }
  }

  // ---------------------------------------------------------------- labels

  ghost predicate RawOk(raw: seq<seq<Byte>>) { forall i :: 0 <= i < |raw| ==> 1 <= |raw[i]| <= 63 }

  /** Labels with their lengths, and the root; no compression. */
  function EncodeRaw(raw: seq<seq<Byte>>): seq<Byte>
    requires RawOk(raw)
  {
    if raw == [] then [0] else [|raw[0]|] + raw[0] + EncodeRaw(raw[1..])
  }

  lemma {:induction false} RawLabelsOfRaw(buf: seq<Byte>, pos: nat, raw: seq<seq<Byte>>)
    requires RawOk(raw) && At(buf, pos, EncodeRaw(raw))
    ensures RawLabels(buf, pos) == Some((raw, pos + |EncodeRaw(raw)|))
    decreases |raw|
  {
    if raw == [] {
      assert buf[pos] == buf[pos..pos + 1][0];
    } else {
      FirstRaw(buf, pos, raw);
      RawLabelsOfRaw(buf, pos + 1 + |raw[0]|, raw[1..]);
      assert raw == [raw[0]] + raw[1..];
    }
  }

  lemma FirstRaw(buf: seq<Byte>, pos: nat, raw: seq<seq<Byte>>)
    requires raw != [] && RawOk(raw) && At(buf, pos, EncodeRaw(raw))
    ensures var len := |raw[0]|;
      && pos + 1 + len <= |buf| && buf[pos] == len && buf[pos + 1..pos + 1 + len] == raw[0]
      && At(buf, pos + 1 + len, EncodeRaw(raw[1..])) && |EncodeRaw(raw)| == 1 + len + |EncodeRaw(raw[1..])|
  {
    var first := raw[0];
    AtSplit(buf, pos, [|first|] + first, EncodeRaw(raw[1..]));
    AtSplit(buf, pos, [|first|], first);
    assert buf[pos] == buf[pos..pos + 1][0];
  }

  lemma {:induction false} RawOfRawLabels(buf: seq<Byte>, pos: nat)
    requires RawLabels(buf, pos).Some?
    ensures var (raw, end) := RawLabels(buf, pos).value;
      RawOk(raw) && At(buf, pos, EncodeRaw(raw)) && end == pos + |EncodeRaw(raw)|
    decreases |buf| - pos
  {
    var len := buf[pos];
    if len == 0 {
      assert buf[pos..pos + 1] == [0];
    } else {
      RawOfRawLabels(buf, pos + 1 + len);
      var (rest, end) := RawLabels(buf, pos + 1 + len).value;
      OneMoreLabel(buf, pos, rest);
    }
  }

  lemma OneMoreLabel(buf: seq<Byte>, pos: nat, rest: seq<seq<Byte>>)
    requires pos < |buf| && 0 < buf[pos] < 64 && pos + 1 + buf[pos] <= |buf|
    requires RawOk(rest) && At(buf, pos + 1 + buf[pos], EncodeRaw(rest))
    ensures var raw := [buf[pos + 1..pos + 1 + buf[pos]]] + rest;
      && RawOk(raw) && At(buf, pos, EncodeRaw(raw)) && |EncodeRaw(raw)| == 1 + buf[pos] + |EncodeRaw(rest)|
  {
    var first := buf[pos + 1..pos + 1 + buf[pos]];
    var raw := [first] + rest;
    assert raw[1..] == rest;
    assert buf[pos..pos + 1 + buf[pos]] == [buf[pos]] + first;
    AtSplit(buf, pos, [buf[pos]] + first, EncodeRaw(rest));
  }

  /** Texts whose encodings fit into labels. */
  ghost predicate LabelTexts(ts: seq<string>) { forall i :: 0 <= i < |ts| ==> 1 <= |EncodeText(ts[i])| <= 63 }

  function RawOf(ts: seq<string>): (raw: seq<seq<Byte>>)
    ensures |raw| == |ts| && forall i :: 0 <= i < |ts| ==> raw[i] == EncodeText(ts[i])
  {
    seq(|ts|, i requires 0 <= i < |ts| => EncodeText(ts[i]))
  }

  /** Label texts on the wire. */
  function EncodeTexts(ts: seq<string>): seq<Byte>
    requires LabelTexts(ts)
  {
    EncodeRaw(RawOf(ts))
  }

  lemma {:induction false} TextsExact(raw: seq<seq<Byte>>, ts: seq<string>)
    requires raw == RawOf(ts)
    ensures Texts(raw) == Some(LowerAll(ts))
  {
    if ts != [] {
      Utf8Exact(raw[0], ts[0]);
      assert raw[1..] == RawOf(ts[1..]);
      TextsExact(raw[1..], ts[1..]);
    }
  }

  lemma {:induction false} TextsDecoded(raw: seq<seq<Byte>>) returns (ts: seq<string>)
    requires Texts(raw).Some?
    ensures raw == RawOf(ts)
  {
    ts := [];
    if raw != [] {
      var first := Utf8(raw[0]).value;
      Utf8Exact(raw[0], first);
      var rest := TextsDecoded(raw[1..]);
      ts := [first] + rest;
      assert raw == [raw[0]] + raw[1..];
    }
  }

  // ---------------------------------------------------------------- lower-casing before normalizing

  lemma {:induction false} TrimStartLower(s: string)
    ensures TrimStart(LowerAscii(s)) == LowerAscii(TrimStart(s))
  {
    if s != [] && IsSpace(s[0]) {
      assert LowerAscii(s)[1..] == LowerAscii(s[1..]);
      TrimStartLower(s[1..]);
    }
  }

  lemma {:induction false} TrimEndLower(s: string)
    ensures TrimEnd(LowerAscii(s)) == LowerAscii(TrimEnd(s))
  {
    if s != [] && IsSpace(s[|s| - 1]) {
      assert LowerAscii(s)[..|s| - 1] == LowerAscii(s[..|s| - 1]);
      TrimEndLower(s[..|s| - 1]);
    }
  }

  lemma {:induction false} StripDotsLower(s: string)
    ensures StripDots(LowerAscii(s)) == LowerAscii(StripDots(s))
  {
    if s != [] && s[|s| - 1] == '.' {
      assert LowerAscii(s)[..|s| - 1] == LowerAscii(s[..|s| - 1]);
      StripDotsLower(s[..|s| - 1]);
    }
  }

  /** Normalizing does not see the case of ASCII letters. */
  lemma NormalizeLowered(s: string)
    ensures Normalize(LowerAscii(s)) == Normalize(s)
  {
    TrimStartLower(s);
    TrimEndLower(TrimStart(s));
    StripDotsLower(Trim(s));
    assert LowerUnicode(LowerAscii(Bare(s))) == LowerUnicode(Bare(s));
  }

  lemma {:induction false} JoinLower(ts: seq<string>)
    ensures JoinDots(LowerAll(ts)) == LowerAscii(JoinDots(ts))
  {
    LowerAllIndex(ts);
    if |ts| > 1 {
      JoinLower(ts[1..]);
      assert LowerAll(ts)[1..] == LowerAll(ts[1..]);
      assert LowerAscii(ts[0] + "." + JoinDots(ts[1..])) ==
        LowerAscii(ts[0]) + "." + LowerAscii(JoinDots(ts[1..]));
    }
  }

  // ---------------------------------------------------------------- questions

  /** The labels, the type and the class of the first question, after the header. */
  ghost predicate AsksFor(buf: seq<Byte>, ts: seq<string>, q: Question) {
    && |buf| >= 12 && !(buf[4] == 0 && buf[5] == 0) && LabelTexts(ts)
    && At(buf, 12, EncodeTexts(ts))
    && At(buf, 12 + |EncodeTexts(ts)|, [q.qtype / 256, q.qtype % 256, q.qclass / 256, q.qclass % 256])
    && Normalize(JoinDots(ts)) == Some(q.domain)
  }

  /** Question parsing succeeds with q exactly where uncompressed labels of UTF-8 text stand whose
      joined text normalizes to q's name, followed by q's type and class. */
  lemma {:induction false} QuestionParsingExact(buf: seq<Byte>, q: Question)
    ensures QuestionOf(buf) == Some(q) <==> exists ts :: AsksFor(buf, ts, q)
  {
    if QuestionOf(buf) == Some(q) { var ts := QuestionAsksFor(buf, q); }
    forall ts | AsksFor(buf, ts, q) ensures QuestionOf(buf) == Some(q) { AskedFor(buf, ts, q); }
  }

  /** A name that was read, and the fields after it. */
  lemma AskExact(buf: seq<Byte>, pos: nat, d: string, q: Question)
    requires |buf| >= 12 && Qname(buf, 12) == Some((d, pos))
    ensures QuestionOf(buf) == Some(q) <==>
      && !(buf[4] == 0 && buf[5] == 0) && d == q.domain
      && At(buf, pos, [q.qtype / 256, q.qtype % 256, q.qclass / 256, q.qclass % 256])
  {
    if pos + 4 <= |buf| { assert buf[pos..pos + 4] == [buf[pos], buf[pos + 1], buf[pos + 2], buf[pos + 3]]; }
  }

  /** The name that texts on the wire make up. */
  lemma NameRead(buf: seq<Byte>, ts: seq<string>, d: string)
    requires LabelTexts(ts) && At(buf, 12, EncodeTexts(ts))
    ensures Qname(buf, 12) == Some((d, 12 + |EncodeTexts(ts)|)) <==> Normalize(JoinDots(ts)) == Some(d)
  {
    RawLabelsOfRaw(buf, 12, RawOf(ts));
    TextsExact(RawOf(ts), ts);
    JoinLower(ts);
    NormalizeLowered(JoinDots(ts));
  }

  lemma AskedFor(buf: seq<Byte>, ts: seq<string>, q: Question)
    requires AsksFor(buf, ts, q)
    ensures QuestionOf(buf) == Some(q)
  {
    NameRead(buf, ts, q.domain);
    AskExact(buf, 12 + |EncodeTexts(ts)|, q.domain, q);
  }

  lemma QuestionAsksFor(buf: seq<Byte>, q: Question) returns (ts: seq<string>)
    requires QuestionOf(buf) == Some(q)
    ensures AsksFor(buf, ts, q)
  {
    var (d, pos) := Qname(buf, 12).value;
    ts := TextsRead(buf, d, pos);
    NameRead(buf, ts, d);
    AskExact(buf, pos, d, q);
  }

  lemma TextsRead(buf: seq<Byte>, d: string, pos: nat) returns (ts: seq<string>)
    requires Qname(buf, 12) == Some((d, pos))
    ensures LabelTexts(ts) && At(buf, 12, EncodeTexts(ts)) && pos == 12 + |EncodeTexts(ts)|
  {
    RawOfRawLabels(buf, 12);
    ts := TextsDecoded(RawLabels(buf, 12).value.0);
  }
}
