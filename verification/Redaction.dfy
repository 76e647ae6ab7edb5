// accesslog: masking of header values and of sensitive query parameters.
module Redaction {
  import opened Prelude

  // ---------------------------------------------------------- split and join

  /** strings.Split(s, "&") */
  function Split(s: string): (r: seq<string>)
    ensures r != []
  {
    var k := IndexOf(s, '&');
    if k == |s| then [s] else [s[..k]] + Split(s[k + 1..])
  }

  /** strings.Join(parts, "&") */
  function Join(parts: seq<string>): string {
    if parts == [] then "" else if |parts| == 1 then parts[0] else parts[0] + "&" + Join(parts[1..])
  }

  lemma {:induction false} JoinSplit(s: string)
    ensures Join(Split(s)) == s
    ensures forall i :: 0 <= i < |Split(s)| ==> '&' !in Split(s)[i]
    decreases |s|
  {
    var k := IndexOf(s, '&');
    if k < |s| {
      JoinSplit(s[k + 1..]);
      assert Split(s)[1..] == Split(s[k + 1..]);
      assert s == s[..k] + "&" + s[k + 1..];
    }
  }

  lemma SplitFirst(a: string, rest: string)
    requires '&' !in a
    ensures Split(a + "&" + rest) == [a] + Split(rest)
  {
    IndexOfFirst(a, '&', rest);
    assert (a + "&" + rest)[..|a|] == a && (a + "&" + rest)[|a| + 1..] == rest;
  }

  lemma SplitWhole(a: string)
    requires '&' !in a
    ensures Split(a) == [a]
  {
    assert IndexOf(a, '&') == |a|;
  }

  lemma {:induction false} SplitJoin(parts: seq<string>)
    requires parts != [] && forall i :: 0 <= i < |parts| ==> '&' !in parts[i]
    ensures Split(Join(parts)) == parts
    decreases |parts|
  {
    if |parts| == 1 {
      SplitWhole(parts[0]);
      assert parts == [parts[0]];
    } else {
      SplitJoin(parts[1..]);
      SplitFirst(parts[0], Join(parts[1..]));
      assert parts == [parts[0]] + parts[1..];
    }
  }

  // ------------------------------------------------------------- lowerSet

  /** lowerSet: trimmed lower-case names, empty ones ignored. */
  method LowerSet(xs: seq<string>) returns (out: set<string>)
    ensures forall x :: x in out <==> x != "" && exists i :: 0 <= i < |xs| && TrimSpace(Lower(xs[i])) == x
  {
    out := {};
    for i := 0 to |xs|
      invariant forall x :: x in out <==> x != "" && exists j :: 0 <= j < i && TrimSpace(Lower(xs[j])) == x
    {
      var x := TrimSpace(Lower(xs[i]));
      if x != "" {
        out := out + {x};
      }
    }
  }

  // ------------------------------------------------------- redactedQuery

  const STARS := "***"

  /** The part of a pair before its '=' names a sensitive parameter. */
  predicate Sensitive(p: string, names: set<string>, decode: string -> string) {
    var eq := IndexOf(p, '=');
    eq < |p| && Lower(decode(p[..eq])) in names
  }

  function RedactPair(p: string, names: set<string>, decode: string -> string): string {
    if Sensitive(p, names, decode) then p[..IndexOf(p, '=') + 1] + STARS else p
  }

  function RedactPairs(ps: seq<string>, names: set<string>, decode: string -> string): seq<string> {
    seq(|ps|, i requires 0 <= i < |ps| => RedactPair(ps[i], names, decode))
  }

  function Redacted(raw: string, names: set<string>, decode: string -> string): string {
    Join(RedactPairs(Split(raw), names, decode))
  }

  lemma NothingSensitive(raw: string, decode: string -> string)
    ensures Redacted(raw, {}, decode) == raw
  {
    assert RedactPairs(Split(raw), {}, decode) == Split(raw);
    JoinSplit(raw);
  }

  lemma EmptyQuery(names: set<string>, decode: string -> string)
    ensures Redacted("", names, decode) == ""
  {
    assert Split("") == [""];
  }

  /** redactedQuery, for any decoding of parameter names. */
  method RedactedQuery(raw: string, params: seq<string>, decode: string -> string)
    returns (out: string, names: set<string>)
    ensures out == Redacted(raw, names, decode)
    ensures forall x :: x in names <==> x != "" && exists i :: 0 <= i < |params| && TrimSpace(Lower(params[i])) == x
  {
    names := LowerSet(params);
    if raw == "" {
      EmptyQuery(names, decode);
      return "", names;
    }
    if |names| == 0 {
      NothingSensitive(raw, decode);
      return raw, names;
    }
    var pairs := Split(raw);
    for i := 0 to |pairs|
      invariant |pairs| == |Split(raw)|
      invariant forall j :: 0 <= j < |pairs| ==>
                  pairs[j] == if j < i then RedactPair(Split(raw)[j], names, decode) else Split(raw)[j]
    {
      var p := pairs[i];
      var eq := IndexOf(p, '=');
      if eq == |p| {
        continue;
      }
      if Lower(decode(p[..eq])) in names {
        pairs := pairs[i := p[..eq + 1] + STARS];
      }
    }
    assert pairs == RedactPairs(Split(raw), names, decode);
    return Join(pairs), names;
  }

  lemma RedactPairFacts(p: string, names: set<string>, decode: string -> string)
    requires '&' !in p
    ensures '&' !in RedactPair(p, names, decode)
    ensures RedactPair(RedactPair(p, names, decode), names, decode) == RedactPair(p, names, decode)
    ensures Sensitive(p, names, decode) <==> Sensitive(RedactPair(p, names, decode), names, decode)
  {
    if Sensitive(p, names, decode) {
      var eq := IndexOf(p, '=');
      var r := RedactPair(p, names, decode);
      assert r == p[..eq] + ['='] + STARS;
      IndexOfFirst(p[..eq], '=', STARS);
      assert r[..eq] == p[..eq] && r[..eq + 1] == p[..eq + 1];
    }
  }

  /** Redaction keeps the pairs: their number, their order, and every non-sensitive pair as sent. */
  lemma RedactionKeepsPairs(raw: string, names: set<string>, decode: string -> string)
    ensures Split(Redacted(raw, names, decode)) == RedactPairs(Split(raw), names, decode)
    ensures |Split(Redacted(raw, names, decode))| == |Split(raw)|
    ensures forall i :: 0 <= i < |Split(raw)| && !Sensitive(Split(raw)[i], names, decode) ==>
              Split(Redacted(raw, names, decode))[i] == Split(raw)[i]
  {
    JoinSplit(raw);
    forall i | 0 <= i < |Split(raw)|
      ensures '&' !in RedactPair(Split(raw)[i], names, decode)
    {
      RedactPairFacts(Split(raw)[i], names, decode);
    }
    SplitJoin(RedactPairs(Split(raw), names, decode));
  }

  lemma RedactionIsIdempotent(raw: string, names: set<string>, decode: string -> string)
    ensures Redacted(Redacted(raw, names, decode), names, decode) == Redacted(raw, names, decode)
  {
    RedactionKeepsPairs(raw, names, decode);
    JoinSplit(raw);
    var ps := RedactPairs(Split(raw), names, decode);
    forall i | 0 <= i < |ps|
      ensures RedactPair(ps[i], names, decode) == ps[i]
    {
      RedactPairFacts(Split(raw)[i], names, decode);
    }
    assert RedactPairs(ps, names, decode) == ps;
  }

  /** What becomes of one pair: a value is replaced exactly when its name, decoded and in any letter case,
      is a configured one; a pair without '=' is left alone. */
  lemma PairRedaction(k: string, v: string, names: set<string>, decode: string -> string)
    requires '=' !in k
    ensures RedactPair(k + "=" + v, names, decode) ==
            if Lower(decode(k)) in names then k + "=" + "***" else k + "=" + v
    ensures RedactPair(k, names, decode) == k
  {
    var p := k + "=" + v;
    IndexOfFirst(k, '=', v);
    assert p[..|k|] == k && p[..|k| + 1] == k + "=";
  }

  /** In the whole query, a name=value pair loses its value exactly when its decoded name is a configured
      one, up to letter case and the spaces around the configured name. */
  lemma ConfiguredNames(raw: string, params: seq<string>, names: set<string>, decode: string -> string,
                        i: nat, k: string, v: string)
    requires forall x :: x in names <==> x != "" && exists j :: 0 <= j < |params| && TrimSpace(Lower(params[j])) == x
    requires i < |Split(raw)| && Split(raw)[i] == k + "=" + v && '=' !in k
    ensures i < |Split(Redacted(raw, names, decode))|
    ensures Split(Redacted(raw, names, decode))[i] ==
            if && Lower(decode(k)) != ""
               && exists j :: 0 <= j < |params| && TrimSpace(Lower(params[j])) == Lower(decode(k))
            then k + "=" + "***" else k + "=" + v
  {
    RedactionKeepsPairs(raw, names, decode);
    PairRedaction(k, v, names, decode);
  }

  /** Two pairs that a log must not tell apart. */
  predicate SameButSecret(p: string, q: string, names: set<string>, decode: string -> string) {
    p == q ||
    (Sensitive(p, names, decode) && Sensitive(q, names, decode) && p[..IndexOf(p, '=')] == q[..IndexOf(q, '=')])
  }

  lemma SecretPair(p: string, q: string, names: set<string>, decode: string -> string)
    requires SameButSecret(p, q, names, decode)
    ensures RedactPair(p, names, decode) == RedactPair(q, names, decode)
  {
    if p != q {
      var e, f := IndexOf(p, '='), IndexOf(q, '=');
      assert p[..e + 1] == p[..e] + ['='] && q[..f + 1] == q[..f] + ['='];
    }
  }

  /** Queries that differ only in the values of sensitive parameters are logged identically. */
  lemma SecretsDoNotShow(a: string, b: string, names: set<string>, decode: string -> string)
    requires |Split(a)| == |Split(b)|
    requires forall i :: 0 <= i < |Split(a)| ==> SameButSecret(Split(a)[i], Split(b)[i], names, decode)
    ensures Redacted(a, names, decode) == Redacted(b, names, decode)
  {
    var ps, qs := Split(a), Split(b);
    forall i | 0 <= i < |ps|
      ensures RedactPair(ps[i], names, decode) == RedactPair(qs[i], names, decode)
    {
      SecretPair(ps[i], qs[i], names, decode);
    }
    assert RedactPairs(ps, names, decode) == RedactPairs(qs, names, decode);
  }

  // ------------------------------------------------------------------ mask

  function Stars(n: nat): (s: string)
    ensures |s| == n && forall i :: 0 <= i < n ==> s[i] == '*'
  {
    seq(n, _ => '*')
  }

  /** mask, with its 64-bit doubling; None is the panic of slicing past the end. */
  function Mask(v: string, n: int): Option<string> {
    if v == "" then Some("")
    else if n <= 0 || |v| < Wrap64(2 * n) then Some(Stars(|v|))
    else if n > |v| then None
    else Some(v[..n] + Stars(|v| - n))
  }

  /** How many characters a mask is meant to reveal. */
  function Revealed(length: nat, n: int): nat {
    if n <= 0 || length < 2 * n then 0 else n
  }

  /** The first count whose double does not fit in 64 bits. */
  const DOUBLING_WRAPS := 0x4000_0000_0000_0000

  /** For counts whose double fits, a mask keeps the length, shows at most half of the value, and shows
      nothing else of it: values of one length that agree on the revealed prefix are masked alike. */
  lemma MaskHides(v: string, w: string, n: int)
    requires INT64_MIN <= n < DOUBLING_WRAPS
    requires |v| == |w| && v[..Revealed(|v|, n)] == w[..Revealed(|v|, n)]
    ensures Mask(v, n).Some? && |Mask(v, n).value| == |v| && 2 * Revealed(|v|, n) <= |v|
    ensures Mask(v, n).value[..Revealed(|v|, n)] == v[..Revealed(|v|, n)]
    ensures forall i :: Revealed(|v|, n) <= i < |v| ==> Mask(v, n).value[i] == '*'
    ensures Mask(v, n) == Mask(w, n)
  {
  }

  /** Exactly when a mask panics: on a non-empty value, when the double wraps to a negative number that
      lets the guard pass and the value is shorter than the prefix to reveal. No value in memory has
      2^62 characters, so there it is every non-empty value with such a count; a longer value would
      be revealed to more than half. */
  lemma MaskPanicsIff(v: string, n: int)
    requires IsInt64(n) && |v| <= INT64_MAX
    ensures Mask(v, n).None? <==> v != "" && DOUBLING_WRAPS <= n && |v| < n
    ensures |v| < DOUBLING_WRAPS ==> (Mask(v, n).None? <==> v != "" && DOUBLING_WRAPS <= n)
    ensures v != "" && DOUBLING_WRAPS <= n <= |v| ==> Mask(v, n) == Some(v[..n] + Stars(|v| - n)) && |v| < 2 * n
  {
    if n >= DOUBLING_WRAPS {
      assert Wrap64(2 * n) == 2 * n - 0x1_0000_0000_0000_0000;
    }
  }

  /** The smallest such configuration panics on a one-character header. */
  lemma MaskCanPanic()
    ensures Mask("x", DOUBLING_WRAPS).None?
  {
    MaskPanicsIff("x", DOUBLING_WRAPS);
  }
}
