// policy.BytesSize: sizes with unit suffixes.
module ByteSize {
  import opened Prelude

  datatype Unit = Plain | Bytes | KB | MB | KiB | MiB | GiB

  function Multiplier(u: Unit): int {
    match u
    case Plain => 1
    case Bytes => 1
    case KB => 1000
    case MB => 1000 * 1000
    case KiB => 1024
    case MiB => 1024 * 1024
    case GiB => 1024 * 1024 * 1024
  }

  function Suffix(u: Unit): string {
    match u
    case Plain => ""
    case Bytes => "b"
    case KB => "kb"
    case MB => "mb"
    case KiB => "kib"
    case MiB => "mib"
    case GiB => "gib"
  }

  /** strings.HasSuffix */
  predicate HasSuffix(s: string, t: string) {
    |t| <= |s| && s[|s| - |t|..] == t
  }

  /** The unit the suffix switch selects, trying the longer suffixes first. */
  function UnitOf(lower: string): (u: Unit)
    ensures HasSuffix(lower, Suffix(u))
  {
    if HasSuffix(lower, "kib") then KiB
    else if HasSuffix(lower, "mib") then MiB
    else if HasSuffix(lower, "gib") then GiB
    else if HasSuffix(lower, "kb") then KB
    else if HasSuffix(lower, "mb") then MB
    else if HasSuffix(lower, "b") then Bytes
    else Plain
  }

  function SuffixLength(u: Unit): (n: nat)
    ensures n == |Suffix(u)|
  {
    match u
    case Plain => 0
    case Bytes => 1
    case KB => 2
    case MB => 2
    case _ => 3
  }

  /** A size whose surrounding spaces are gone. */
  function ParseTrimmed(s: string): Option<int> {
    if ParseInt64(s).Some? then ParseInt64(s)
    else
      var u := UnitOf(Lower(s));
      var v := ParseInt64(TrimSpace(s[..|s| - SuffixLength(u)]));
      if v.None? then None else Some(Wrap64(v.value * Multiplier(u)))
  }

  function ParseSize(text: string): Option<int> {
    ParseTrimmed(TrimSpace(text))
  }

  /** The suffix switch of UnmarshalYAML: the multiplier and how much text to cut. */
  method PickUnit(lower: string) returns (mul: int, cut: nat)
    ensures mul == Multiplier(UnitOf(lower)) && cut == SuffixLength(UnitOf(lower))
  {
    mul, cut := 1, 0;
    if HasSuffix(lower, "kib") {
      mul, cut := 1024, 3;
    } else if HasSuffix(lower, "mib") {
      mul, cut := 1024 * 1024, 3;
    } else if HasSuffix(lower, "gib") {
      mul, cut := 1024 * 1024 * 1024, 3;
    } else if HasSuffix(lower, "kb") {
      mul, cut := 1000, 2;
    } else if HasSuffix(lower, "mb") {
      mul, cut := 1000 * 1000, 2;
    } else if HasSuffix(lower, "b") {
      cut := 1;
    }
  }

  /** UnmarshalYAML on a scalar node; None is the error return. */
  method Unmarshal(text: string) returns (b: Option<int>)
    ensures b == ParseSize(text)
  {
    var s := TrimSpace(text);
    var whole := ParseInt64(s);
    if whole.Some? {
      return whole;
    }
    var mul, cut := PickUnit(Lower(s));
    s := s[..|s| - cut];
    var v := ParseInt64(TrimSpace(s));
    if v.None? {
      return None;
    }
    return Some(Wrap64(v.value * mul));
  }

  /** A number starts with a sign or a digit and ends with a digit. */
  lemma NumberEnds(s: string)
    requires ParseInt64(s).Some?
    ensures s != [] && IsDigit(s[|s| - 1])
    ensures !IsSpace(s[0])
  {
    if s[0] == '+' || s[0] == '-' {
      assert s[1..][|s| - 2] == s[|s| - 1];
    }
  }

  lemma LowerSpace(c: char)
    ensures IsSpace(LowerChar(c)) <==> IsSpace(c)
    ensures IsDigit(LowerChar(c)) <==> IsDigit(c)
  {
  }

  predicate Letters(t: string) {
    forall i :: 0 <= i < |t| ==> 'a' <= t[i] <= 'z'
  }

  lemma SuffixChars(s: string, t: string)
    ensures HasSuffix(s, t) ==> forall k :: 0 <= k < |t| ==> t[k] == s[|s| - |t| + k]
  {
  }

  /** Preceded by a digit or a space, a suffix excludes every other suffix of at least its length. */
  lemma OnlySuffix(s: string, t: string, other: string)
    requires HasSuffix(s, t) && |t| < |s|
    requires var c := s[|s| - |t| - 1]; IsSpace(c) || IsDigit(c)
    requires Letters(other) && |other| >= |t|
    ensures HasSuffix(s, other) ==> other == t
  {
    assert |other| > |t| ==> 'a' <= other[|other| - |t| - 1] <= 'z';
    SuffixChars(s, other);
  }

  /** The overlapping suffixes are told apart by the character before the suffix. */
  lemma UnitByEnd(s: string, u: Unit)
    requires HasSuffix(s, Suffix(u)) && !u.Plain?
    requires |s| > SuffixLength(u)
    requires var c := s[|s| - SuffixLength(u) - 1]; IsSpace(c) || IsDigit(c)
    ensures UnitOf(s) == u
  {
    var w := UnitOf(s);
    LongestFirst(s, u);
    SuffixLetters(w);
    OnlySuffix(s, Suffix(u), Suffix(w));
    SuffixInjective(u, w);
  }

  /** The switch never settles for a shorter suffix than one that is there. */
  lemma LongestFirst(s: string, u: Unit)
    requires HasSuffix(s, Suffix(u))
    ensures SuffixLength(UnitOf(s)) >= SuffixLength(u)
  {
    match u
    case Plain =>
    case Bytes =>
    case KB => assert HasSuffix(s, "kb");
    case MB => assert HasSuffix(s, "mb");
    case KiB => assert HasSuffix(s, "kib");
    case MiB => assert HasSuffix(s, "mib");
    case GiB => assert HasSuffix(s, "gib");
  }

  lemma SuffixLetters(u: Unit)
    ensures Letters(Suffix(u))
  {
  }

  lemma SuffixInjective(u: Unit, w: Unit)
    requires Suffix(u) == Suffix(w)
    ensures u == w
  {
    assert |Suffix(u)| == |Suffix(w)|;
    if Suffix(u) != "" {
      assert Suffix(u)[0] == Suffix(w)[0];
    }
  }

  /** A number, optional spaces and a suffix in any letter case: the suffix switch finds that suffix. */
  lemma SuffixFound(number: string, gap: string, tail: string, u: Unit)
    requires ParseInt64(number).Some? && Blank(gap) && Lower(tail) == Suffix(u) && !u.Plain?
    ensures UnitOf(Lower(number + gap + tail)) == u
  {
    var s := number + gap + tail;
    var k := |number + gap|;
    NumberEnds(number);
    assert |tail| == |Lower(tail)|;
    assert Lower(s)[k..] == Lower(tail);
    LowerSpace(s[k - 1]);
    UnitByEnd(Lower(s), u);
  }

  lemma NotANumber(s: string)
    requires s != [] && !IsDigit(s[|s| - 1])
    ensures ParseInt64(s).None?
  {
    if |s| > 1 {
      assert s[1..][|s[1..]| - 1] == s[|s| - 1];
    }
  }

  lemma ParseWithUnit(s: string, u: Unit, n: int)
    requires s != [] && !IsDigit(s[|s| - 1]) && UnitOf(Lower(s)) == u
    requires ParseInt64(TrimSpace(s[..|s| - SuffixLength(u)])) == Some(n)
    ensures ParseTrimmed(s) == Some(Wrap64(n * Multiplier(u)))
  {
    NotANumber(s);
  }

  /** The last character of a suffix is a letter, in either case. */
  lemma SuffixEnds(tail: string, u: Unit)
    requires Lower(tail) == Suffix(u) && !u.Plain?
    ensures tail != [] && |tail| == SuffixLength(u)
    ensures !IsDigit(tail[|tail| - 1]) && !IsSpace(tail[|tail| - 1])
  {
    assert |tail| == |Lower(tail)|;
    assert Lower(tail)[|tail| - 1] == 'b';
    LowerSpace(tail[|tail| - 1]);
  }

  lemma NumberPart(number: string, gap: string)
    requires ParseInt64(number).Some? && Blank(gap)
    ensures TrimSpace(number + gap) == number
  {
    NumberEnds(number);
    TrimSpacePadded("", number, gap);
    assert "" + number + gap == number + gap;
  }

  lemma ParseSuffixed(number: string, gap: string, tail: string, u: Unit)
    requires ParseInt64(number).Some? && Blank(gap) && Lower(tail) == Suffix(u) && !u.Plain?
    ensures ParseTrimmed(number + gap + tail) == Some(Wrap64(ParseInt64(number).value * Multiplier(u)))
  {
    var s := number + gap + tail;
    SuffixEnds(tail, u);
    SuffixFound(number, gap, tail, u);
    assert s[..|s| - SuffixLength(u)] == number + gap;
    NumberPart(number, gap);
    ParseWithUnit(s, u, ParseInt64(number).value);
  }

  /** How a text reads as a size: a number and the letters of a unit, with spaces around them. */
  datatype Reading = Reading(pre: string, number: string, gap: string, tail: string, post: string, u: Unit)

  predicate Reads(text: string, r: Reading) {
    && Blank(r.pre) && Blank(r.gap) && Blank(r.post) && text == r.pre + (r.number + r.gap + r.tail) + r.post
    && ParseInt64(r.number).Some? && Lower(r.tail) == Suffix(r.u)
  }

  /** The product a reading stands for, in 64-bit arithmetic. */
  function Product(r: Reading): int
    requires ParseInt64(r.number).Some?
  {
    Wrap64(ParseInt64(r.number).value * Multiplier(r.u))
  }

  lemma PlainReadingParses(text: string, r: Reading)
    requires Reads(text, r) && r.u.Plain?
    ensures ParseSize(text) == Some(Product(r))
  {
    NumberEnds(r.number);
    assert |r.tail| == |Lower(r.tail)|;
    BlankConcat(r.gap, r.post);
    assert text == r.pre + r.number + (r.gap + r.post);
    TrimSpacePadded(r.pre, r.number, r.gap + r.post);
  }

  lemma UnitReadingParses(text: string, r: Reading)
    requires Reads(text, r) && !r.u.Plain?
    ensures ParseSize(text) == Some(Product(r))
  {
    var core := r.number + r.gap + r.tail;
    NumberEnds(r.number);
    SuffixEnds(r.tail, r.u);
    assert core[0] == r.number[0] && core[|core| - 1] == r.tail[|r.tail| - 1];
    TrimSpacePadded(r.pre, core, r.post);
    ParseSuffixed(r.number, r.gap, r.tail, r.u);
  }

  lemma ReadingParses(text: string, r: Reading)
    requires Reads(text, r)
    ensures ParseSize(text) == Some(Product(r))
  {
    if r.u.Plain? {
      PlainReadingParses(text, r);
    } else {
      UnitReadingParses(text, r);
    }
  }

  lemma {:induction false} TrimSpaceSplits(s: string) returns (pre: string, post: string)
    ensures Blank(pre) && Blank(post) && s == pre + TrimSpace(s) + post
    decreases |s|
  {
    if s == [] || (!IsSpace(s[0]) && !IsSpace(s[|s| - 1])) {
      pre, post := "", "";
    } else if IsSpace(s[0]) {
      pre, post := TrimSpaceSplits(s[1..]);
      pre := [s[0]] + pre;
    } else {
      pre, post := TrimSpaceSplits(s[..|s| - 1]);
      post := post + [s[|s| - 1]];
    }
  }

  lemma LowerTail(s: string, u: Unit)
    requires HasSuffix(Lower(s), Suffix(u))
    ensures |Suffix(u)| <= |s| && Lower(s[|s| - |Suffix(u)|..]) == Suffix(u)
  {
    var k := |s| - |Suffix(u)|;
    assert Lower(s[k..]) == Lower(s)[k..];
  }

  lemma BlankConcat(a: string, b: string)
    requires Blank(a) && Blank(b)
    ensures Blank(a + b)
  {
  }

  lemma Reassemble(text: string, pre: string, s: string, post: string, k: nat, pre2: string, number: string,
                   gap: string)
    requires text == pre + s + post && k <= |s| && s[..k] == pre2 + number + gap
    ensures text == (pre + pre2) + (number + gap + s[k..]) + post
  {
    assert s == s[..k] + s[k..];
  }

  lemma PlainHasReading(text: string) returns (r: Reading)
    requires ParseInt64(TrimSpace(text)).Some?
    ensures Reads(text, r) && ParseSize(text) == Some(Product(r))
  {
    var s := TrimSpace(text);
    var pre, post := TrimSpaceSplits(text);
    r := Reading(pre, s, "", "", post, Plain);
    assert s + "" + "" == s && Lower("") == Suffix(Plain);
  }

  lemma UnitHasReading(text: string) returns (r: Reading)
    requires ParseInt64(TrimSpace(text)).None? && ParseSize(text).Some?
    ensures Reads(text, r) && ParseSize(text) == Some(Product(r))
  {
    var s := TrimSpace(text);
    var pre, post := TrimSpaceSplits(text);
    var u := UnitOf(Lower(s));
    var k := |s| - SuffixLength(u);
    LowerTail(s, u);
    var pre2, gap := TrimSpaceSplits(s[..k]);
    var number := TrimSpace(s[..k]);
    Reassemble(text, pre, s, post, k, pre2, number, gap);
    BlankConcat(pre, pre2);
    r := Reading(pre + pre2, number, gap, s[k..], post, u);
  }

  /** Exactly which texts have which value: those that read as a 64-bit number, with or without a sign
      and leading zeros, and a unit in any letter case, with only spaces around them; the value is the
      product, modulo 2^64. In particular all readings of a text agree. */
  lemma ParsesIff(text: string, v: int)
    ensures ParseSize(text) == Some(v) <==> exists r :: Reads(text, r) && Product(r) == v
  {
    if ParseSize(text) == Some(v) {
      var r;
      if ParseInt64(TrimSpace(text)).Some? {
        r := PlainHasReading(text);
      } else {
        r := UnitHasReading(text);
      }
      assert Reads(text, r) && Product(r) == v;
    }
    if r :| Reads(text, r) && Product(r) == v {
      ReadingParses(text, r);
    }
  }

  /** The unit table: what each suffix multiplies a count by. */
  lemma UnitTable(n: int)
    requires IsInt64(n)
    ensures ParseSize(Itoa(n)) == Some(n) && ParseSize(Itoa(n) + "b") == Some(n)
    ensures ParseSize(Itoa(n) + "kb") == Some(Wrap64(n * 1000))
    ensures ParseSize(Itoa(n) + "mb") == Some(Wrap64(n * 1_000_000))
    ensures ParseSize(Itoa(n) + "kib") == Some(Wrap64(n * 1024))
    ensures ParseSize(Itoa(n) + "mib") == Some(Wrap64(n * 1_048_576))
    ensures ParseSize(Itoa(n) + "gib") == Some(Wrap64(n * 1_073_741_824))
  {
    UnitRow(n, Plain, "");
    UnitRow(n, Bytes, "b");
    UnitRow(n, KB, "kb");
    UnitRow(n, MB, "mb");
    UnitRow(n, KiB, "kib");
    UnitRow(n, MiB, "mib");
    UnitRow(n, GiB, "gib");
    assert Itoa(n) + "" == Itoa(n);
  }

  lemma LowerSuffix(u: Unit)
    ensures Lower(Suffix(u)) == Suffix(u)
  {
    SuffixLetters(u);
  }

  lemma UnitRow(n: int, u: Unit, tail: string)
    requires IsInt64(n) && tail == Suffix(u)
    ensures ParseSize(Itoa(n) + tail) == Some(Wrap64(n * Multiplier(u)))
  {
    ParseIntItoa(n);
    LowerSuffix(u);
    NoSpaces(Itoa(n), tail);
    ReadingParses(Itoa(n) + tail, Reading("", Itoa(n), "", tail, "", u));
  }

  lemma NoSpaces(number: string, tail: string)
    ensures number + tail == "" + (number + "" + tail) + ""
  {
  }

  /** Parsing inverts printing: every 64-bit count, in every unit, in any letter case and with any
      surrounding spaces, reads back as count times multiplier (modulo 2^64 when that overflows). */
  lemma ParseInvertsPrint(pre: string, n: int, gap: string, tail: string, post: string, u: Unit)
    requires IsInt64(n) && Blank(pre) && Blank(gap) && Blank(post) && Lower(tail) == Suffix(u)
    ensures var text := pre + (Itoa(n) + gap + tail) + post;
            && ParseSize(text) == Some(Wrap64(n * Multiplier(u)))
            && (IsInt64(n * Multiplier(u)) ==> ParseSize(text) == Some(n * Multiplier(u)))
  {
    ParseIntItoa(n);
    ReadingParses(pre + (Itoa(n) + gap + tail) + post, Reading(pre, Itoa(n), gap, tail, post, u));
  }
}
