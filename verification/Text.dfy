/** Strings as the runtime uses them: outcomes, byte-wise order and ordered sets of strings,
    trimming, splitting on dots, ASCII case and numerals. */
module Text {

  datatype Option<+T> = None | Some(value: T)

  datatype Result<+T> = Ok(value: T) | Err

  // ---------------------------------------------------------------- order

  /** Lexicographic order on strings, the order of `String` keys in an ordered set or map. */
  predicate Less(a: string, b: string) {
    && |b| > 0
    && (|a| == 0 || a[0] < b[0] || (a[0] == b[0] && Less(a[1..], b[1..])))
  }

  lemma {:induction false} LessIrreflexive(a: string)
    ensures !Less(a, a)
  {
    if |a| > 0 { LessIrreflexive(a[1..]); }
  }

  lemma {:induction false} LessTransitive(a: string, b: string, c: string)
    requires Less(a, b) && Less(b, c)
    ensures Less(a, c)
  {
    if |a| > 0 && a[0] == b[0] == c[0] { LessTransitive(a[1..], b[1..], c[1..]); }
  }

  lemma {:induction false} LessTotal(a: string, b: string)
    ensures a == b || Less(a, b) || Less(b, a)
  {
    if |a| > 0 && |b| > 0 && a[0] == b[0] {
      LessTotal(a[1..], b[1..]);
      assert a == [a[0]] + a[1..] && b == [b[0]] + b[1..];
    }
  }

  /** They agree before k, and there a ends or has the smaller character. */
  ghost predicate SmallerAt(a: string, b: string, k: nat) {
    k <= |a| && k < |b| && a[..k] == b[..k] && (k < |a| ==> a[k] < b[k])
  }

  lemma {:induction false} LessExact(a: string, b: string)
    ensures Less(a, b) <==> exists k: nat :: SmallerAt(a, b, k)
  {
    if |a| > 0 && |b| > 0 && a[0] == b[0] {
      LessExact(a[1..], b[1..]);
      if k: nat :| SmallerAt(a, b, k) {
        assert a[1..][..k - 1] == a[..k][1..] == b[..k][1..] == b[1..][..k - 1];
        assert SmallerAt(a[1..], b[1..], k - 1);
      }
      if k: nat :| SmallerAt(a[1..], b[1..], k) {
        assert a[..k + 1] == [a[0]] + a[1..][..k] && b[..k + 1] == [b[0]] + b[1..][..k];
        assert SmallerAt(a, b, k + 1);
      }
    } else if |b| > 0 {
      assert SmallerAt(a, b, 0) <==> Less(a, b);
      if |a| > 0 {
        forall k: nat | 0 < k <= |a| && k < |b| ensures a[..k] != b[..k] { assert a[..k][0] != b[..k][0]; }
      }
    }
  }

  ghost predicate Sorted(s: seq<string>) {
    forall i, j :: 0 <= i < j < |s| ==> Less(s[i], s[j])
  }

  /** Insertion into an ordered set that is listed in order. */
  function Insert(s: seq<string>, x: string): seq<string> {
    if s == [] then [x]
    else if x == s[0] then s
    else if Less(x, s[0]) then [x] + s
    else [s[0]] + Insert(s[1..], x)
  }

  lemma {:induction false} InsertSorted(s: seq<string>, x: string)
    requires Sorted(s)
    ensures Sorted(Insert(s, x))
    ensures forall y :: y in Insert(s, x) <==> y in s || y == x
  {
    if s != [] && x != s[0] {
      if Less(x, s[0]) {
        forall j | 0 <= j < |s| ensures Less(x, s[j]) {
          if j > 0 { LessTransitive(x, s[0], s[j]); }
        }
      } else {
        LessTotal(x, s[0]);
        InsertSorted(s[1..], x);
        var r := Insert(s[1..], x);
        forall j | 0 <= j < |r| ensures Less(s[0], r[j]) {
          assert r[j] in r;
          if r[j] != x { assert r[j] in s[1..]; }
        }
        assert s == [s[0]] + s[1..];
      }
    }
  }

  /** The values collected into an ordered set and listed in order. */
  function UniqueSorted(values: seq<string>): seq<string> {
    if values == [] then [] else Insert(UniqueSorted(values[..|values| - 1]), values[|values| - 1])
  }

  /** `UniqueSorted` yields the strictly sorted list of exactly the given values. */
  lemma {:induction false} UniqueSortedExact(values: seq<string>)
    ensures Sorted(UniqueSorted(values))
    ensures forall y :: y in UniqueSorted(values) <==> y in values
  {
    if values != [] {
      var init, last := values[..|values| - 1], values[|values| - 1];
      UniqueSortedExact(init);
      InsertSorted(UniqueSorted(init), last);
      assert values == init + [last];
    }
  }

  /** A strictly sorted list is determined by its elements. */
  lemma {:induction false} SortedUnique(s: seq<string>, t: seq<string>)
    requires Sorted(s) && Sorted(t)
    requires forall y :: y in s <==> y in t
    ensures s == t
  {
    if t != [] { assert t[0] in s; }
    if s != [] {
      assert s[0] in t;
      SortedHead(s, t[0]);
      SortedHead(t, s[0]);
      if Less(s[0], t[0]) && Less(t[0], s[0]) { LessTransitive(s[0], t[0], s[0]); }
      LessIrreflexive(s[0]);
      assert s[0] == t[0];
      forall y ensures y in s[1..] <==> y in t[1..] {
        SortedTail(s, y);
        SortedTail(t, y);
      }
      SortedUnique(s[1..], t[1..]);
      assert s == [s[0]] + s[1..] && t == [t[0]] + t[1..];
    }
  }

  lemma SortedHead(s: seq<string>, y: string)
    requires Sorted(s) && y in s
    ensures y == s[0] || Less(s[0], y)
  {
    var i :| 0 <= i < |s| && s[i] == y;
  }

  lemma SortedTail(s: seq<string>, y: string)
    requires Sorted(s) && s != []
    ensures y in s[1..] <==> y in s && y != s[0]
  {
    if y in s[1..] {
      var i :| 0 <= i < |s[1..]| && s[1..][i] == y;
      assert s[i + 1] == y;
      LessIrreflexive(y);
    }
    assert s == [s[0]] + s[1..];
  }

  // ---------------------------------------------------------------- permutations

  predicate Permuted<T(==)>(p: seq<T>, q: seq<T>) { multiset(p) == multiset(q) }

  function Without<T>(xs: seq<T>, i: nat): seq<T>
    requires i < |xs|
  {
    xs[..i] + xs[i + 1..]
  }

  lemma WithoutOne<T>(xs: seq<T>, i: nat)
    requires i < |xs|
    ensures multiset(Without(xs, i)) == multiset(xs) - multiset{xs[i]}
  {
    assert xs == xs[..i] + [xs[i]] + xs[i + 1..];
  }

  /** Any element can be put first. */
  lemma OneFirst<T>(xs: seq<T>, x: T) returns (rest: seq<T>)
    requires x in xs
    ensures Permuted([x] + rest, xs)
  {
    var i :| 0 <= i < |xs| && xs[i] == x;
    WithoutOne(xs, i);
    rest := Without(xs, i);
  }

  // ---------------------------------------------------------------- trimming

  /** The Unicode White_Space property, which `str::trim` removes at both ends. */
  predicate IsSpace(c: char) {
    || '\U{0009}' <= c <= '\U{000D}'
    || c == '\U{0020}' || c == '\U{0085}' || c == '\U{00A0}' || c == '\U{1680}'
    || '\U{2000}' <= c <= '\U{200A}'
    || c == '\U{2028}' || c == '\U{2029}' || c == '\U{202F}' || c == '\U{205F}' || c == '\U{3000}'
  }

  /** The 25 characters with the property, in code order. */
  const WHITE_SPACE := [
    '\U{0009}', '\U{000A}', '\U{000B}', '\U{000C}', '\U{000D}', '\U{0020}', '\U{0085}', '\U{00A0}', '\U{1680}',
    '\U{2000}', '\U{2001}', '\U{2002}', '\U{2003}', '\U{2004}', '\U{2005}', '\U{2006}', '\U{2007}', '\U{2008}',
    '\U{2009}', '\U{200A}', '\U{2028}', '\U{2029}', '\U{202F}', '\U{205F}', '\U{3000}']

  lemma SpacesExact(c: char)
    ensures IsSpace(c) <==> c in WHITE_SPACE
  {}

  function TrimStart(s: string): string {
    if s != [] && IsSpace(s[0]) then TrimStart(s[1..]) else s
  }

  function TrimEnd(s: string): string {
    if s != [] && IsSpace(s[|s| - 1]) then TrimEnd(s[..|s| - 1]) else s
  }

  function Trim(s: string): string { TrimEnd(TrimStart(s)) }

  /** `trim_end_matches('.')`. */
  function StripDots(s: string): string {
    if s != [] && s[|s| - 1] == '.' then StripDots(s[..|s| - 1]) else s
  }

  lemma {:induction false} TrimEndProps(s: string)
    ensures TrimEnd(s) <= s
    ensures TrimEnd(s) == [] || !IsSpace(TrimEnd(s)[|TrimEnd(s)| - 1])
  {
    if s != [] && IsSpace(s[|s| - 1]) { TrimEndProps(s[..|s| - 1]); }
  }

  lemma {:induction false} TrimStartProps(s: string)
    ensures TrimStart(s) == [] || !IsSpace(TrimStart(s)[0])
  {
    if s != [] && IsSpace(s[0]) { TrimStartProps(s[1..]); }
  }

  /** A piece of a text with white space only before and after it, and none at its own ends. */
  ghost predicate IsTrimmed(t: string, s: string) {
    && (exists i, j :: 0 <= i <= j <= |s| && t == s[i..j]
          && (forall k :: 0 <= k < i ==> IsSpace(s[k])) && (forall k :: j <= k < |s| ==> IsSpace(s[k])))
    && (t != [] ==> !IsSpace(t[0]) && !IsSpace(t[|t| - 1]))
  }

  lemma {:induction false} TrimStartIs(s: string) returns (i: nat)
    ensures i <= |s| && TrimStart(s) == s[i..] && forall k :: 0 <= k < i ==> IsSpace(s[k])
  {
    i := 0;
    if s != [] && IsSpace(s[0]) {
      var rest := TrimStartIs(s[1..]);
      i := rest + 1;
      assert forall k :: 0 < k < i ==> s[k] == s[1..][k - 1];
    }
  }

  lemma {:induction false} TrimEndIs(s: string) returns (j: nat)
    ensures j <= |s| && TrimEnd(s) == s[..j] && forall k :: j <= k < |s| ==> IsSpace(s[k])
  {
    j := |s|;
    if s != [] && IsSpace(s[|s| - 1]) { j := TrimEndIs(s[..|s| - 1]); }
  }

  /** Trimming removes exactly the outer white space. */
  lemma TrimExact(s: string)
    ensures IsTrimmed(Trim(s), s)
  {
    var i := TrimStartIs(s);
    var inner := s[i..];
    var j := TrimEndIs(inner);
    TrimStartProps(s);
    TrimEndProps(inner);
    assert inner[..j] == s[i..i + j];
    assert forall k :: i + j <= k < |s| ==> s[k] == inner[k - i];
  }

  /** Only trailing dots go, and all of them. */
  lemma {:induction false} StripDotsExact(s: string)
    ensures var t := StripDots(s);
      t <= s && (forall k :: |t| <= k < |s| ==> s[k] == '.') && (t != [] ==> t[|t| - 1] != '.')
  {
    if s != [] && s[|s| - 1] == '.' { StripDotsExact(s[..|s| - 1]); }
  }

  // ---------------------------------------------------------------- ASCII case

  function LowerChar(c: char): char {
    if 'A' <= c <= 'Z' then (c as int + 32) as char else c
  }

  /** `to_ascii_lowercase`. */
  function LowerAscii(s: string): (r: string)
    ensures |r| == |s| && forall i :: 0 <= i < |s| ==> r[i] == LowerChar(s[i])
  {
    seq(|s|, i requires 0 <= i < |s| => LowerChar(s[i]))
  }

  const CAPITALS := "ABCDEFGHIJKLMNOPQRSTUVWXYZ"
  const SMALLS := "abcdefghijklmnopqrstuvwxyz"

  /** The small letter for a capital one, at the same place of the alphabet. */
  predicate SmallOf(small: char, capital: char) {
    exists k :: 0 <= k < 26 && CAPITALS[k] == capital && SMALLS[k] == small
  }

  /** Lower-casing replaces capital letters by their small ones and leaves all other characters. */
  predicate LowerCaseOf(l: char, c: char) { if c in CAPITALS then SmallOf(l, c) else l == c }

  lemma Alphabet()
    ensures |CAPITALS| == |SMALLS| == 26
    ensures forall k :: 0 <= k < 26 ==> CAPITALS[k] as int == 65 + k && SMALLS[k] as int == 97 + k
  {}

  lemma CapitalsExact(c: char)
    ensures c in CAPITALS <==> 'A' <= c <= 'Z'
    ensures c in SMALLS <==> 'a' <= c <= 'z'
  {
    Alphabet();
    if 'A' <= c <= 'Z' { assert CAPITALS[c as int - 65] == c; }
    if 'a' <= c <= 'z' { assert SMALLS[c as int - 97] == c; }
  }

  lemma SmallOfExact(small: char, capital: char)
    ensures SmallOf(small, capital) <==> 'A' <= capital <= 'Z' && small as int == capital as int + 32
  {
    Alphabet();
    if 'A' <= capital <= 'Z' {
      var k := capital as int - 65;
      assert CAPITALS[k] == capital;
    }
  }

  /** `to_ascii_lowercase` on one character. */
  lemma LowerCharExact(c: char, l: char)
    ensures LowerCaseOf(l, c) <==> l == LowerChar(c)
  {
    CapitalsExact(c);
    SmallOfExact(l, c);
  }

  /** The same character up to the case of a letter. */
  predicate SameLetter(a: char, b: char) { a == b || SmallOf(a, b) || SmallOf(b, a) }

  lemma SameLetterExact(a: char, b: char)
    ensures SameLetter(a, b) <==> LowerChar(a) == LowerChar(b)
  {
    SmallOfExact(a, b);
    SmallOfExact(b, a);
  }

  // ---------------------------------------------------------------- dots

  /** `split('.')`: always at least one piece. */
  function SplitDots(s: string): (r: seq<string>)
    ensures r != []
  {
    if s == [] then [[]]
    else
      var rest := SplitDots(s[1..]);
      if s[0] == '.' then [[]] + rest else [[s[0]] + rest[0]] + rest[1..]
  }

  /** `join(".")`. */
  function JoinDots(labels: seq<string>): string {
    if labels == [] then []
    else if |labels| == 1 then labels[0]
    else labels[0] + "." + JoinDots(labels[1..])
  }

  lemma {:induction false} JoinSplit(s: string)
    ensures JoinDots(SplitDots(s)) == s
  {
    if s != [] {
      JoinSplit(s[1..]);
      var rest := SplitDots(s[1..]);
      assert s == [s[0]] + s[1..];
      if s[0] == '.' {
        assert SplitDots(s)[1..] == rest;
      } else if |rest| == 1 {
        assert SplitDots(s) == [[s[0]] + rest[0]];
      } else {
        assert SplitDots(s)[1..] == rest[1..];
        assert JoinDots(SplitDots(s)) == [s[0]] + rest[0] + "." + JoinDots(rest[1..]);
      }
    }
  }

  /** The pieces are what stands between the dots. */
  lemma {:induction false} SplitExact(s: string)
    ensures JoinDots(SplitDots(s)) == s && forall i :: 0 <= i < |SplitDots(s)| ==> '.' !in SplitDots(s)[i]
  {
    JoinSplit(s);
    if s != [] { SplitExact(s[1..]); }
  }

  /** From one dot, or the start, to the next, or the end. */
  ghost predicate Stretch(s: string, i: nat, j: nat) {
    && i <= j <= |s| && (i == 0 || s[i - 1] == '.') && (j == |s| || s[j] == '.')
    && forall k :: i <= k < j ==> s[k] != '.'
  }

  /** Stretches of a text with one more character in front. */
  lemma StretchCons(s: string, i: nat, j: nat)
    requires s != [] && i <= j <= |s|
    ensures i > 0 ==> s[i..j] == s[1..][i - 1..j - 1]
    ensures i == 0 < j ==> s[i..j] == [s[0]] + s[1..][..j - 1]
    ensures Stretch(s, i, j) <==>
      if j == 0 then s[0] == '.'
      else if i == 0 then s[0] != '.' && Stretch(s[1..], 0, j - 1)
      else Stretch(s[1..], i - 1, j - 1) && (i == 1 ==> s[0] == '.')
  {
    var t := s[1..];
    assert forall k :: 0 < k < |s| ==> s[k] == t[k - 1];
    assert forall k :: 0 <= k < |t| ==> s[k + 1] == t[k];
  }

  lemma PieceCons(s: string, p: nat)
    requires s != [] && p < |SplitDots(s[1..])|
    ensures s[0] == '.' ==> p + 1 < |SplitDots(s)| && SplitDots(s)[p + 1] == SplitDots(s[1..])[p]
    ensures s[0] != '.' ==>
      p < |SplitDots(s)| && SplitDots(s)[p] == if p == 0 then [s[0]] + SplitDots(s[1..])[0] else SplitDots(s[1..])[p]
  {}

  lemma {:induction false} StretchOfPiece(s: string, p: nat) returns (i: nat, j: nat)
    requires p < |SplitDots(s)|
    ensures Stretch(s, i, j) && s[i..j] == SplitDots(s)[p] && (p == 0 <==> i == 0)
  {
    i, j := 0, 0;
    if s != [] && (s[0] != '.' || p > 0) {
      i, j := StretchOfPiece(s[1..], if s[0] == '.' then p - 1 else p);
      i, j := if p == 0 then 0 else i + 1, j + 1;
      StretchCons(s, i, j);
    }
  }

  lemma {:induction false} PieceOfStretch(s: string, i: nat, j: nat) returns (p: nat)
    requires Stretch(s, i, j)
    ensures p < |SplitDots(s)| && SplitDots(s)[p] == s[i..j] && (p == 0 <==> i == 0)
  {
    p := 0;
    if s != [] {
      StretchCons(s, i, j);
      if i > 0 {
        p := PieceOfStretch(s[1..], i - 1, j - 1);
        PieceCons(s, p);
        if s[0] == '.' { p := p + 1; }
      } else if j > 0 {
        p := PieceOfStretch(s[1..], 0, j - 1);
        PieceCons(s, 0);
      }
    }
  }

  lemma LowerCons(c: char, s: string)
    ensures LowerAscii([c] + s) == [LowerChar(c)] + LowerAscii(s)
    ensures LowerChar(c) == '.' <==> c == '.'
  {}

  predicate LowerOf(low: seq<string>, pieces: seq<string>) {
    |low| == |pieces| && forall i :: 0 <= i < |pieces| ==> low[i] == LowerAscii(pieces[i])
  }

  lemma LowerOfCons(c: char, low: seq<string>, pieces: seq<string>)
    requires LowerOf(low, pieces) && pieces != []
    ensures LowerOf([[]] + low, [[]] + pieces)
    ensures LowerOf([[LowerChar(c)] + low[0]] + low[1..], [[c] + pieces[0]] + pieces[1..])
  {
    LowerCons(c, pieces[0]);
  }

  /** Lower-casing commutes with splitting. */
  lemma {:induction false} SplitLower(s: string)
    ensures LowerOf(SplitDots(LowerAscii(s)), SplitDots(s))
  {
    if s != [] {
      SplitLower(s[1..]);
      assert s == [s[0]] + s[1..];
      LowerCons(s[0], s[1..]);
      SplitCons(LowerChar(s[0]), LowerAscii(s[1..]));
      LowerOfCons(s[0], SplitDots(LowerAscii(s[1..])), SplitDots(s[1..]));
    }
  }

  lemma SplitCons(c: char, s: string)
    ensures var rest := SplitDots(s);
      SplitDots([c] + s) == if c == '.' then [[]] + rest else [[c] + rest[0]] + rest[1..]
  {
    assert ([c] + s)[1..] == s;
  }

  // ---------------------------------------------------------------- numerals

  predicate IsDigit(c: char) { '0' <= c <= '9' || 'a' <= c <= 'f' }

  function Digit(d: nat): (c: char)
    requires d < 16
    ensures IsDigit(c)
  {
    if d < 10 then ('0' as int + d) as char else ('a' as int + d - 10) as char
  }

  /** `{}` of an unsigned integer. */
  function Dec(n: nat): (r: string)
    ensures r != [] && forall i :: 0 <= i < |r| ==> IsDigit(r[i])
  {
    if n < 10 then [Digit(n)] else Dec(n / 10) + [Digit(n % 10)]
  }

  /** `{:x}` of an unsigned integer. */
  function Hex(n: nat): (r: string)
    ensures r != [] && forall i :: 0 <= i < |r| ==> IsDigit(r[i])
  {
    if n < 16 then [Digit(n)] else Hex(n / 16) + [Digit(n % 16)]
  }

  function DigitValue(c: char): nat
    requires IsDigit(c)
  {
    if c <= '9' then c as int - '0' as int else c as int - 'a' as int + 10
  }

  /** The number a numeral stands for, most significant digit first. */
  function ValueOf(s: string, base: nat): nat
    requires forall i :: 0 <= i < |s| ==> IsDigit(s[i])
  {
    if s == [] then 0 else ValueOf(s[..|s| - 1], base) * base + DigitValue(s[|s| - 1])
  }

  const DIGITS := "0123456789abcdef"

  lemma DigitExact(c: char, d: nat)
    requires d < 16
    ensures Digit(d) == DIGITS[d]
    ensures IsDigit(c) <==> c in DIGITS
    ensures IsDigit(c) ==> DigitValue(c) < 16 && DIGITS[DigitValue(c)] == c
  {
    if IsDigit(c) {
      var k := DigitValue(c);
      assert DIGITS[k] == c;
    }
  }

  /** The numeral of a number in a base up to 16: its digits have the number's value, and the first is
      zero only in "0". */
  predicate NumeralOf(s: string, n: nat, base: nat) {
    && (forall i :: 0 <= i < |s| ==> IsDigit(s[i]) && DigitValue(s[i]) < base)
    && ValueOf(s, base) == n && s != [] && (s[0] == '0' ==> |s| == 1)
  }

  lemma {:induction false} DecValue(n: nat)
    ensures NumeralOf(Dec(n), n, 10)
  {
    var s := Dec(n);
    if n < 10 {
      assert s[..|s| - 1] == [];
    } else {
      DecValue(n / 10);
      assert s[..|s| - 1] == Dec(n / 10);
      if Dec(n / 10) == "0" { ZeroValue(Dec(n / 10), 10); }
    }
  }

  lemma {:induction false} HexValue(n: nat)
    ensures NumeralOf(Hex(n), n, 16)
  {
    var s := Hex(n);
    if n < 16 {
      assert s[..|s| - 1] == [];
    } else {
      HexValue(n / 16);
      assert s[..|s| - 1] == Hex(n / 16);
      if Hex(n / 16) == "0" { ZeroValue(Hex(n / 16), 16); }
    }
  }

  lemma ZeroValue(s: string, base: nat)
    requires |s| == 1 && s[0] == '0'
    ensures ValueOf(s, base) == 0
  {
    assert s[..0] == [];
  }

  lemma {:induction false} PositiveValue(s: string, base: nat)
    requires base > 0 && s != [] && s[0] != '0' && forall i :: 0 <= i < |s| ==> IsDigit(s[i])
    ensures ValueOf(s, base) > 0
  {
    if |s| > 1 {
      PositiveValue(s[..|s| - 1], base);
    } else {
      assert ValueOf(s[..0], base) == 0;
    }
  }

  /** There is one decimal numeral for a number. */
  lemma {:induction false} DecUnique(s: string, n: nat)
    requires NumeralOf(s, n, 10)
    ensures s == Dec(n)
    decreases |s|
  {
    var init := s[..|s| - 1];
    LastOfNumeral(s, n);
    assert s == init + [Digit(n % 10)];
    if |s| > 1 { DecUnique(init, n / 10); }
  }

  lemma LastOfNumeral(s: string, n: nat)
    requires NumeralOf(s, n, 10)
    ensures s[|s| - 1] == Digit(n % 10)
    ensures if |s| == 1 then n < 10 else n >= 10 && NumeralOf(s[..|s| - 1], n / 10, 10)
  {
    var init, last := s[..|s| - 1], DigitValue(s[|s| - 1]);
    DigitExact(s[|s| - 1], last);
    if |s| == 1 {
      ZeroDigits(init, 10);
    } else {
      PositiveValue(init, 10);
      LastDigit(ValueOf(init, 10), last, n);
    }
  }

  lemma ZeroDigits(s: string, base: nat)
    requires s == []
    ensures ValueOf(s, base) == 0
  {}

  lemma LastDigit(m: nat, d: nat, n: nat)
    requires d < 10 && n == m * 10 + d && m > 0
    ensures n >= 10 && n / 10 == m && n % 10 == d
  {}

  lemma {:induction false} DecInjective(m: nat, n: nat)
    requires Dec(m) == Dec(n)
    ensures m == n
  {
    DecValue(m);
    DecValue(n);
  }

  /** `str::contains`. */
  predicate Contains(line: string, pattern: string) {
    exists i :: 0 <= i <= |line| - |pattern| && line[i..][..|pattern|] == pattern
  }
}
