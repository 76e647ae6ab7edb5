// Shared vocabulary: optional values, ASCII text helpers and the decimal
// notation used by Go's strconv package.
module Prelude {

  datatype Option<+T> = None | Some(value: T)

  /** Appends the value, if there is one. */
  function Push<T>(s: seq<T>, o: Option<T>): seq<T> {
    if o.Some? then s + [o.value] else s
  }

  lemma ConcatAssociates<T>(a: seq<T>, b: seq<T>, c: seq<T>)
    ensures a + (b + c) == (a + b) + c
  {
  }

  datatype Result<+T, +E> = Ok(value: T) | Err(error: E)

  // ---------------------------------------------------------------- text

  function LowerChar(c: char): char {
    if 'A' <= c <= 'Z' then c + 32 as char else c
  }

  /** strings.ToLower on ASCII text. */
  function Lower(s: string): string {
    seq(|s|, i requires 0 <= i < |s| => LowerChar(s[i]))
  }

  /** Lower keeps the length, turns each capital letter into its small one and changes nothing else. */
  lemma LowerLetters(s: string, i: nat, k: nat)
    requires i < |s| && k < 26
    ensures |Lower(s)| == |s|
    ensures s[i] == "ABCDEFGHIJKLMNOPQRSTUVWXYZ"[k] ==> Lower(s)[i] == "abcdefghijklmnopqrstuvwxyz"[k]
    ensures s[i] < 'A' || 'Z' < s[i] ==> Lower(s)[i] == s[i]
  {
    assert "ABCDEFGHIJKLMNOPQRSTUVWXYZ"[k] == 'A' + k as char;
    assert "abcdefghijklmnopqrstuvwxyz"[k] == 'a' + k as char;
  }

  predicate IsSpace(c: char) {
    c == ' ' || '\t' <= c <= '\r' || c == 0x85 as char || c == 0xA0 as char
  }

  /** The spaces of Latin-1: tab, line feed, vertical tab, form feed, carriage return, blank, next line and
      no-break space. */
  lemma SpaceTable(c: char)
    ensures IsSpace(c) <==> c as int in {9, 10, 11, 12, 13, 32, 133, 160}
  {
  }

  /** strings.TrimSpace(s) == "" */
  predicate Blank(s: string) {
    forall i :: 0 <= i < |s| ==> IsSpace(s[i])
  }

  /** strings.TrimSpace: drops the longest space prefix, then the longest space suffix. */
  function TrimSpace(s: string): string {
    if s == [] then []
    else if IsSpace(s[0]) then TrimSpace(s[1..])
    else if IsSpace(s[|s| - 1]) then TrimSpace(s[..|s| - 1])
    else s
  }

  /** Surrounding spaces are invisible to TrimSpace. */
  lemma {:induction false} TrimSpacePadded(pre: string, s: string, post: string)
    requires Blank(pre) && Blank(post)
    requires s != [] && !IsSpace(s[0]) && !IsSpace(s[|s| - 1])
    ensures TrimSpace(pre + s + post) == s
    decreases |pre| + |post|
  {
    var t := pre + s + post;
    if pre != [] {
      assert t[1..] == pre[1..] + s + post;
      TrimSpacePadded(pre[1..], s, post);
    } else if post != [] {
      assert t[..|t| - 1] == pre + s + post[..|post| - 1];
      TrimSpacePadded(pre, s, post[..|post| - 1]);
    } else {
      assert t == s;
    }
  }

  /** strings.IndexByte(g, c), with |g| for absent. */
  function IndexOf(g: string, c: char): (n: nat)
    ensures n <= |g|
    ensures n < |g| ==> g[n] == c
    ensures forall i :: 0 <= i < n ==> g[i] != c
  {
    if g == [] || g[0] == c then 0 else 1 + IndexOf(g[1..], c)
  }

  lemma {:induction false} IndexOfFirst(a: string, c: char, b: string)
    requires c !in a
    ensures IndexOf(a + [c] + b, c) == |a|
  {
    if a == [] {
      assert a + [c] + b == [c] + b;
    } else {
      assert (a + [c] + b)[1..] == a[1..] + [c] + b;
      IndexOfFirst(a[1..], c, b);
    }
  }

  // ------------------------------------------------------------- decimals

  predicate IsDigit(c: char) {
    '0' <= c <= '9'
  }

  predicate AllDigits(s: string) {
    forall i :: 0 <= i < |s| ==> IsDigit(s[i])
  }

  function DigitChar(d: nat): (c: char)
    requires d < 10
    ensures IsDigit(c) && DigitValue(c) == d
  {
    '0' + d as char
  }

  function DigitValue(c: char): (d: nat)
    requires IsDigit(c)
    ensures d < 10
  {
    (c - '0') as nat
  }

  /** The digits of n, without leading zeros. */
  function Decimal(n: nat): (s: string)
    ensures s != [] && AllDigits(s)
  {
    if n < 10 then [DigitChar(n)] else Decimal(n / 10) + [DigitChar(n % 10)]
  }

  /** The canonical digits of a number: no leading zero, except for zero itself. */
  predicate Canonical(s: string) {
    s != [] && AllDigits(s) && (s[0] == '0' ==> |s| == 1)
  }

  lemma {:induction false} PositiveStart(s: string)
    requires Canonical(s) && s[0] != '0'
    ensures DigitsValue(s) > 0
  {
    if |s| > 1 {
      PositiveStart(s[..|s| - 1]);
    } else {
      assert s[..0] == [];
    }
  }

  lemma {:induction false} DecimalIsCanonical(n: nat)
    ensures Canonical(Decimal(n)) && (Decimal(n)[0] == '0' ==> n == 0)
  {
    if n >= 10 {
      DecimalIsCanonical(n / 10);
    }
  }

  /** Decimal(n) is the only canonical digit string with value n. */
  lemma {:induction false} DecimalIsUnique(s: string)
    requires Canonical(s)
    ensures s == Decimal(DigitsValue(s))
    decreases |s|
  {
    var k := |s| - 1;
    if k == 0 {
      assert s[..0] == [] && s == [s[0]];
    } else {
      var init, d := s[..k], DigitValue(s[k]);
      PositiveStart(init);
      DecimalIsUnique(init);
      var n := DigitsValue(s);
      assert n == 10 * DigitsValue(init) + d && n / 10 == DigitsValue(init) && n % 10 == d;
      assert s == init + [s[k]];
      assert DigitChar(d) == s[k];
    }
  }

  /** strconv.Itoa */
  function Itoa(n: int): string {
    if n < 0 then "-" + Decimal(-n) else Decimal(n)
  }

  function DigitsValue(s: string): nat
    requires AllDigits(s)
  {
    if s == [] then 0 else 10 * DigitsValue(s[..|s| - 1]) + DigitValue(s[|s| - 1])
  }

  const INT64_MIN: int := -0x8000_0000_0000_0000
  const INT64_MAX: int := 0x7FFF_FFFF_FFFF_FFFF

  predicate IsInt64(n: int) {
    INT64_MIN <= n <= INT64_MAX
  }

  /** The 64-bit two's complement result of an exact one. */
  function Wrap64(n: int): (r: int)
    ensures IsInt64(n) ==> r == n
    ensures IsInt64(r) && (r - n) % 0x1_0000_0000_0000_0000 == 0
  {
    (n - INT64_MIN) % 0x1_0000_0000_0000_0000 + INT64_MIN
  }

  /** strconv.ParseInt(s, 10, 64): an optional sign, then one or more digits, in range. */
  function ParseInt64(s: string): (r: Option<int>)
    ensures r.Some? ==> IsInt64(r.value)
  {
    var signed := s != [] && (s[0] == '+' || s[0] == '-');
    var digits := if signed then s[1..] else s;
    if digits == [] || !AllDigits(digits) then None
    else
      var d: int := DigitsValue(digits);
      var v := if signed && s[0] == '-' then -d else d;
      if IsInt64(v) then Some(v) else None
  }

  lemma {:induction false} DecimalValue(n: nat)
    ensures DigitsValue(Decimal(n)) == n
  {
    if n < 10 {
      assert [DigitChar(n)][..0] == [];
    } else {
      DecimalValue(n / 10);
      assert Decimal(n)[..|Decimal(n)| - 1] == Decimal(n / 10);
    }
  }

  /** Parsing inverts printing on every 64-bit integer. */
  lemma ParseIntItoa(n: int)
    requires IsInt64(n)
    ensures ParseInt64(Itoa(n)) == Some(n)
  {
    var digits := Decimal(if n < 0 then -n else n);
    DecimalValue(if n < 0 then -n else n);
    assert IsDigit(digits[0]);
    if n < 0 {
      assert Itoa(n)[0] == '-' && Itoa(n)[1..] == digits;
    }
  }
}
