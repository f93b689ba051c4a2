/** Domain names: the normaliser that resolution, the cache and the proxy share, and the
    different one that configuration validation uses for its duplicate check. */
module Domain {
  import opened Text

  /** KELVIN SIGN, the only non-ASCII character whose Unicode lower case is pure ASCII. */
  const KELVIN: char := '\U{212A}'

  /** One character of `str::to_lowercase`, up to what the checks after it can tell apart: every
      non-ASCII character other than KELVIN still lower-cases to text with a non-ASCII character,
      which the character check rejects, so it is kept as it is. */
  function LowerUnicodeChar(c: char): char {
    if c == KELVIN then 'k' else LowerChar(c)
  }

  function LowerUnicode(s: string): (r: string)
    ensures |r| == |s| && forall i :: 0 <= i < |s| ==> r[i] == LowerUnicodeChar(s[i])
  {
    seq(|s|, i requires 0 <= i < |s| => LowerUnicodeChar(s[i]))
  }

  predicate HostChar(c: char) {
    'a' <= c <= 'z' || 'A' <= c <= 'Z' || '0' <= c <= '9' || c == '-' || c == '.'
  }

  predicate LabelOk(piece: string) { 1 <= |piece| <= 63 }

  /** The checks of `normalize_domain` after lower-casing. The URL, slash and space checks are
      part of the character check: they only choose the message of the error. */
  predicate Acceptable(value: string) {
    && value != []
    && |value| <= 253
    && (forall i :: 0 <= i < |value| ==> HostChar(value[i]))
    && LabelsOk(SplitDots(value))
  }

  /** The text of a name once outer white space and trailing dots are gone. */
  function Bare(domain: string): string { StripDots(Trim(domain)) }

  /** `normalize_domain`. */
  function Normalize(domain: string): Option<string> {
    var value := LowerUnicode(Bare(domain));
    if Acceptable(value) then Some(value) else None
  }

  /** The key `Config::validate` uses to find duplicate domain policies. */
  function ValidateKey(domain: string): string { LowerAscii(Bare(domain)) }

  /** A name in the form every cache key and every comparison uses. */
  predicate Canonical(d: string) {
    Acceptable(d) && forall i :: 0 <= i < |d| ==> !('A' <= d[i] <= 'Z')
  }

  lemma SplitLastNonEmpty(s: string)
    requires forall i :: 0 <= i < |SplitDots(s)| ==> SplitDots(s)[i] != []
    ensures s != [] && s[|s| - 1] != '.'
  {
    SplitLast(s);
    assert SplitDots(s)[|SplitDots(s)| - 1] != [];
    assert SplitDots([]) == [[]];
  }

  lemma {:induction false} SplitLast(s: string)
    ensures s != [] && s[|s| - 1] == '.' ==> SplitDots(s)[|SplitDots(s)| - 1] == []
  {
    if |s| > 1 && s[|s| - 1] == '.' {
      SplitLast(s[1..]);
      var rest := SplitDots(s[1..]);
      if s[0] != '.' && |rest| == 1 { SplitAllDots(s[1..]); }
    }
  }

  lemma {:induction false} SplitAllDots(s: string)
    requires s != [] && s[|s| - 1] == '.'
    ensures |SplitDots(s)| >= 2
  {
    if |s| > 1 { SplitAllDots(s[1..]); }
  }

  /** The fixed points of `normalize_domain` are exactly the canonical names, its result is
      always one, and so normalising twice changes nothing. */
  lemma NormalizeFixedPoints(d: string)
    ensures Normalize(d) == Some(d) <==> Canonical(d)
    ensures Normalize(d).Some? ==> Canonical(Normalize(d).value) && Normalize(Normalize(d).value) == Normalize(d)
  {
    if Canonical(d) { CanonicalIsBare(d); }
    if Normalize(d).Some? {
      CanonicalIsBare(Normalize(d).value);
    }
  }

  lemma CanonicalIsBare(d: string)
    requires Canonical(d)
    ensures Bare(d) == d && LowerUnicode(d) == d && Normalize(d) == Some(d)
  {
    SplitLastNonEmpty(d);
    assert !IsSpace(d[0]) && !IsSpace(d[|d| - 1]);
    assert LowerUnicode(d) == d;
  }

  const HOST_CHARS := "abcdefghijklmnopqrstuvwxyz0123456789-."

  /** A host name in small letters: up to 253 characters, and between dots 1 to 63 letters, digits and
      hyphens (sections 2.3.1 and 2.3.4 of RFC 1035, without their rule on hyphens and leading digits). */
  ghost predicate HostName(n: string) {
    && |n| <= 253 && (forall i :: 0 <= i < |n| ==> n[i] in HOST_CHARS)
    && ShortStretches(n)
  }

  /** Small letters for capital ones, the letter k for KELVIN SIGN, and all else as it is. */
  ghost predicate SmallForm(n: string, text: string) {
    && |n| == |text|
    && forall i :: 0 <= i < |n| ==> if text[i] == '\U{212A}' then n[i] == 'k' else LowerCaseOf(n[i], text[i])
  }

  /** Trailing dots removed. */
  ghost predicate Undotted(u: string, t: string) {
    u <= t && (forall k :: |u| <= k < |t| ==> t[k] == '.') && (u != [] ==> u[|u| - 1] != '.')
  }

  /** The bare text is the trimmed name without its trailing dots. */
  lemma BareExact(d: string)
    ensures exists t :: IsTrimmed(t, d) && Undotted(Bare(d), t)
  {
    TrimExact(d);
    StripDotsExact(Trim(d));
  }

  /** `normalize_domain` accepts exactly the names whose bare text is a host name in letters of either
      case, and gives its small form. */
  lemma NormalizeExact(d: string, n: string)
    ensures Normalize(d) == Some(n) <==> SmallForm(n, Bare(d)) && HostName(n)
  {
    var b := Bare(d);
    SmallFormExact(b, n);
    if n == LowerUnicode(b) { HostNameExact(n); NoCapitals(b); }
  }

  lemma NoCapitals(b: string)
    ensures forall i :: 0 <= i < |b| ==> !('A' <= LowerUnicode(b)[i] <= 'Z')
  {}

  lemma SmallFormExact(b: string, n: string)
    ensures SmallForm(n, b) <==> n == LowerUnicode(b)
  {
    forall i | 0 <= i < |b| && i < |n|
      ensures (if b[i] == '\U{212A}' then n[i] == 'k' else LowerCaseOf(n[i], b[i])) <==> n[i] == LowerUnicode(b)[i]
    {
      LowerCharExact(b[i], n[i]);
    }
  }

  lemma HostNameExact(n: string)
    requires forall i :: 0 <= i < |n| ==> !('A' <= n[i] <= 'Z')
    ensures HostName(n) <==> Acceptable(n)
  {
    forall i | 0 <= i < |n| ensures n[i] in HOST_CHARS <==> HostChar(n[i]) { HostCharExact(n[i]); }
    LabelsExact(n);
  }

  ghost predicate ShortStretches(n: string) { forall i: nat, j: nat :: Stretch(n, i, j) ==> 1 <= j - i <= 63 }

  predicate LabelsOk(labels: seq<string>) { forall p :: 0 <= p < |labels| ==> LabelOk(labels[p]) }

  lemma LabelsExact(n: string)
    ensures ShortStretches(n) <==> LabelsOk(SplitDots(n))
    ensures LabelsOk(SplitDots(n)) ==> n != []
  {
    var labels := SplitDots(n);
    if ShortStretches(n) {
      forall p: nat | p < |labels| ensures LabelOk(labels[p]) {
        var i, j := StretchOfPiece(n, p);
        assert |labels[p]| == j - i;
      }
    }
    if LabelsOk(labels) {
      forall i: nat, j: nat | Stretch(n, i, j) ensures 1 <= j - i <= 63 {
        var p := PieceOfStretch(n, i, j);
        assert LabelOk(labels[p]) && |labels[p]| == j - i;
      }
    }
    if n == [] { assert !LabelOk(labels[0]); }
  }

  lemma HostCharExact(c: char)
    requires !('A' <= c <= 'Z')
    ensures c in HOST_CHARS <==> HostChar(c)
  {
    var digits := "0123456789";
    assert HOST_CHARS == SMALLS + digits + "-.";
    CapitalsExact(c);
    assert forall k :: 0 <= k < 10 ==> digits[k] as int == 48 + k;
    if '0' <= c <= '9' { assert digits[c as int - 48] == c; }
  }

  /** So two accepted names without KELVIN SIGN are the same exactly when their bare texts are the same
      up to the case of letters. */
  lemma SameNameExact(a: string, b: string)
    requires Normalize(a).Some? && Normalize(b).Some? && '\U{212A}' !in Bare(a) && '\U{212A}' !in Bare(b)
    ensures Normalize(a) == Normalize(b) <==>
      |Bare(a)| == |Bare(b)| && forall i :: 0 <= i < |Bare(a)| ==> SameLetter(Bare(a)[i], Bare(b)[i])
  {
    var x, y := Bare(a), Bare(b);
    forall i | 0 <= i < |x| && i < |y| ensures SameLetter(x[i], y[i]) <==> LowerUnicode(x)[i] == LowerUnicode(y)[i] {
      SameLetterExact(x[i], y[i]);
    }
    if |x| == |y| && forall i :: 0 <= i < |x| ==> SameLetter(x[i], y[i]) { assert LowerUnicode(x) == LowerUnicode(y); }
  }

  /** On every name that resolution accepts, validation's duplicate key equals the normalised
      name exactly when the bare name has no KELVIN SIGN. */
  lemma NormalizersAgree(d: string)
    requires Normalize(d).Some?
    ensures ValidateKey(d) == Normalize(d).value <==> KELVIN !in Bare(d)
  {
    var b := Bare(d);
    if KELVIN in b {
      var i :| 0 <= i < |b| && b[i] == KELVIN;
      assert ValidateKey(d)[i] != Normalize(d).value[i];
    } else {
      assert LowerAscii(b) == LowerUnicode(b);
    }
  }

  predicate SameKelvins(a: string, b: string) {
    |a| == |b| && forall i :: 0 <= i < |a| ==> (a[i] == KELVIN <==> b[i] == KELVIN)
  }

  /** Validation takes two acceptable names for the same exactly when they are the same name and have
      KELVIN SIGN in the same places; so it never rejects different names, and misses a duplicate
      exactly when KELVIN SIGN stands for a letter k in one of them only. */
  lemma DuplicateCheckExact(a: string, b: string)
    requires Normalize(a).Some? && Normalize(b).Some?
    ensures ValidateKey(a) == ValidateKey(b) <==> Normalize(a) == Normalize(b) && SameKelvins(Bare(a), Bare(b))
  {
    var x, y := Bare(a), Bare(b);
    if LowerAscii(x) == LowerAscii(y) {
      assert |x| == |LowerAscii(x)| == |y|;
      forall i | 0 <= i < |x| ensures LowerUnicode(x)[i] == LowerUnicode(y)[i] && (x[i] == KELVIN <==> y[i] == KELVIN) {
        assert LowerChar(x[i]) == LowerAscii(x)[i] == LowerAscii(y)[i] == LowerChar(y[i]);
      }
      assert LowerUnicode(x) == LowerUnicode(y);
    }
    if LowerUnicode(x) == LowerUnicode(y) && SameKelvins(x, y) {
      forall i | 0 <= i < |x| ensures LowerAscii(x)[i] == LowerAscii(y)[i] {
        assert LowerUnicodeChar(x[i]) == LowerUnicode(x)[i] == LowerUnicode(y)[i] == LowerUnicodeChar(y[i]);
      }
      assert LowerAscii(x) == LowerAscii(y);
    }
  }

  /** A duplicate that validation misses: one name spelled with k and with KELVIN SIGN. */
  lemma MissedDuplicate()
    ensures Normalize("k") == Normalize([KELVIN]) == Some("k") && ValidateKey("k") != ValidateKey([KELVIN])
  {
    assert "k"[1..] == [] && SplitDots([]) == [[]] && ['k'] + [] == "k";
    assert SplitDots("k") == ["k"];
    assert LowerUnicode("k") == "k" && LowerUnicode([KELVIN]) == "k";
    assert Trim("k") == "k" && Trim([KELVIN]) == [KELVIN];
    assert LowerAscii("k")[0] != LowerAscii([KELVIN])[0];
  }

  /** ASCII names are KELVIN-free, so on them the two normalisers agree. */
  lemma NormalizersAgreeOnAscii(d: string)
    requires forall i :: 0 <= i < |d| ==> d[i] < '\U{0080}'
    requires Normalize(d).Some?
    ensures ValidateKey(d) == Normalize(d).value
  {
    BareChars(d);
    NormalizersAgree(d);
  }

  lemma BareChars(d: string)
    ensures forall c :: c in Bare(d) ==> c in d
  {
    StripDotsChars(Trim(d));
    TrimEndChars(TrimStart(d));
    TrimStartChars(d);
  }

  lemma {:induction false} StripDotsChars(s: string)
    ensures forall c :: c in StripDots(s) ==> c in s
  {
    if s != [] && s[|s| - 1] == '.' { StripDotsChars(s[..|s| - 1]); }
  }

  lemma {:induction false} TrimEndChars(s: string)
    ensures forall c :: c in TrimEnd(s) ==> c in s
  {
    if s != [] && IsSpace(s[|s| - 1]) { TrimEndChars(s[..|s| - 1]); }
  }

  lemma {:induction false} TrimStartChars(s: string)
    ensures forall c :: c in TrimStart(s) ==> c in s
  {
    if s != [] && IsSpace(s[0]) { TrimStartChars(s[1..]); }
  }
}
