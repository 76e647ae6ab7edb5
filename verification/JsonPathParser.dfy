// jsonpath.Compile: the path parser, its canonical printer, and the proof that
// each inverts the other.
module JsonPathParser {
  import opened Prelude

  datatype Step = Key(name: string) | Index(idx: int) | Wildcard | Recursive(name: string)

  datatype ParseError = EmptyExpression | BadRecursive | BadChild | BadBracket | BadIndex | BadFragment

  predicate IsIdentStart(c: char) {
    c == '_' || 'A' <= c <= 'Z' || 'a' <= c <= 'z'
  }

  predicate IsIdentChar(c: char) {
    IsIdentStart(c) || '0' <= c <= '9' || c == '-'
  }

  /** Full match of [A-Za-z_][A-Za-z0-9_\-]* */
  predicate IsIdent(s: string) {
    s != [] && IsIdentStart(s[0]) && forall i :: 0 <= i < |s| ==> IsIdentChar(s[i])
  }

  /** Length of the longest prefix whose characters all satisfy p (a greedy repetition). */
  function Run(s: string, p: char -> bool): (n: nat)
    ensures n <= |s|
    ensures forall i :: 0 <= i < n ==> p(s[i])
    ensures n < |s| ==> !p(s[n])
  {
    if s != [] && p(s[0]) then 1 + Run(s[1..], p) else 0
  }

  lemma {:induction false} RunIs(s: string, p: char -> bool, n: nat)
    requires n <= |s|
    requires forall i :: 0 <= i < n ==> p(s[i])
    requires n < |s| ==> !p(s[n])
    ensures Run(s, p) == n
  {
    if n > 0 {
      RunIs(s[1..], p, n - 1);
    }
  }

  /** strings.HasPrefix(rest, "..") */
  predicate HasDots(rest: string) {
    |rest| >= 2 && rest[0] == '.' && rest[1] == '.'
  }

  /** Group 1 of ^\.([A-Za-z_][A-Za-z0-9_\-]*) */
  function FindChild(rest: string): (m: Option<string>)
    ensures m.Some? ==> IsIdent(m.value) && 1 + |m.value| <= |rest| && rest[1..1 + |m.value|] == m.value
  {
    if |rest| >= 2 && rest[0] == '.' && IsIdentStart(rest[1])
    then Some(rest[1..1 + Run(rest[1..], IsIdentChar)])
    else None
  }

  /** Group 1 of ^\.\.([A-Za-z_][A-Za-z0-9_\-]*) */
  function FindRecursive(rest: string): (m: Option<string>)
    ensures m.Some? ==> IsIdent(m.value) && 2 + |m.value| <= |rest| && rest[2..2 + |m.value|] == m.value
  {
    if |rest| >= 3 && rest[0] == '.' && rest[1] == '.' && IsIdentStart(rest[2])
    then Some(rest[2..2 + Run(rest[2..], IsIdentChar)])
    else None
  }

  predicate IsIndexText(s: string) {
    var digits := if s != [] && s[0] == '-' then s[1..] else s;
    digits != [] && AllDigits(digits)
  }

  predicate IsQuoted(s: string) {
    |s| >= 2 && (s[0] == '\'' || s[0] == '"') && s[|s| - 1] == s[0] && s[0] !in s[1..|s| - 1]
  }

  /** Length of the match of \*|-?\d+|'[^']*'|"[^"]*" at the start of s, or 0. */
  function BracketBody(s: string): (n: nat)
    ensures n <= |s|
  {
    if s == [] then 0
    else if s[0] == '*' then 1
    else if s[0] == '\'' || s[0] == '"' then
      var k := Run(s[1..], c => c != s[0]);
      if k + 1 < |s| then 2 + k else 0
    else if s[0] == '-' then
      var k := Run(s[1..], IsDigit);
      if k > 0 then 1 + k else 0
    else Run(s, IsDigit)
  }

  /** Group 1 of ^\[(\*|-?\d+|'[^']*'|"[^"]*")\] */
  function FindBracket(rest: string): (m: Option<string>)
    ensures m.Some? ==> m.value != [] && 2 + |m.value| <= |rest|
  {
    if rest == [] || rest[0] != '[' then None
    else
      var n := BracketBody(rest[1..]);
      if n > 0 && n + 1 < |rest| && rest[n + 1] == ']' then Some(rest[1..n + 1]) else None
  }

  predicate BracketText(t: string) {
    t == "*" || IsIndexText(t) || IsQuoted(t)
  }

  lemma BracketBodyShape(s: string)
    ensures BracketBody(s) > 0 ==> BracketText(s[..BracketBody(s)])
  {
    var n := BracketBody(s);
    if n > 0 {
      var t := s[..n];
      if s[0] == '\'' || s[0] == '"' {
        assert t[1..n - 1] == s[1..][..n - 2];
      } else if s[0] == '-' {
        assert t[1..] == s[1..][..n - 1];
      } else if s[0] == '*' {
        assert t == "*";
      }
    }
  }

  lemma BracketShape(rest: string)
    ensures FindBracket(rest).Some? ==> BracketText(FindBracket(rest).value)
  {
    if FindBracket(rest).Some? {
      var n := BracketBody(rest[1..]);
      BracketBodyShape(rest[1..]);
      assert rest[1..n + 1] == rest[1..][..n];
    }
  }

  // ------------------------------------------------------------- parsing

  /** Strictly decreases on every turn of the loop, although the shorthand
      branch makes the text one character longer. */
  function Measure(rest: string): nat {
    2 * |rest| + if rest != [] && IsIdentStart(rest[0]) then 3 else 0
  }

  function BracketStep(inner: string): Result<Step, ParseError>
    requires inner != []
  {
    if inner == "*" then Ok(Wildcard)
    else if inner[0] == '\'' || inner[0] == '"' then
      if |inner| >= 2 then Ok(Key(inner[1..|inner| - 1])) else Err(BadBracket)
    else
      var n := ParseInt64(inner);
      if n.Some? then Ok(Index(n.value)) else Err(BadIndex)
  }

  function Prepend(s: Step, r: Result<seq<Step>, ParseError>): Result<seq<Step>, ParseError> {
    if r.Ok? then Ok([s] + r.value) else r
  }

  /** The steps a path text denotes. */
  function Parse(rest: string): Result<seq<Step>, ParseError>
    decreases Measure(rest)
  {
    if rest == [] then Ok([])
    else if HasDots(rest) then
      var m := FindRecursive(rest);
      if m.None? then Err(BadRecursive) else Prepend(Recursive(m.value), Parse(rest[2 + |m.value|..]))
    else if rest[0] == '.' then
      var m := FindChild(rest);
      if m.None? then Err(BadChild) else Prepend(Key(m.value), Parse(rest[1 + |m.value|..]))
    else if rest[0] == '[' then
      var m := FindBracket(rest);
      if m.None? then Err(BadBracket)
      else
        var s := BracketStep(m.value);
        if s.Err? then Err(s.error) else Prepend(s.value, Parse(rest[2 + |m.value|..]))
    else if IsIdentStart(rest[0]) then Parse("." + rest)
    else Err(BadFragment)
  }

  /** strings.TrimPrefix(expr, "$") */
  function WithoutRoot(expr: string): string {
    if expr != [] && expr[0] == '$' then expr[1..] else expr
  }

  function ParseExpr(expr: string): Result<seq<Step>, ParseError> {
    if expr == [] then Err(EmptyExpression) else Parse(WithoutRoot(expr))
  }

  /** Result of the loop so far, completed by the text still to read. */
  function Combine(done: seq<Step>, r: Result<seq<Step>, ParseError>): Result<seq<Step>, ParseError> {
    if r.Ok? then Ok(done + r.value) else r
  }

  lemma CombinePrepend(done: seq<Step>, s: Step, r: Result<seq<Step>, ParseError>)
    ensures Combine(done + [s], r) == Combine(done, Prepend(s, r))
  {
    if r.Ok? {
      assert done + [s] + r.value == done + ([s] + r.value);
    }
  }

  /** The inner switch of Compile, on the text between the brackets. */
  method ReadInner(inner: string) returns (r: Result<Step, ParseError>)
    requires BracketText(inner)
    ensures inner != [] && r == BracketStep(inner)
  {
    if inner == "*" {
      r := Ok(Wildcard);
    } else if inner[0] == '\'' || inner[0] == '"' {
      r := Ok(Key(inner[1..|inner| - 1]));
    } else {
      var n := ParseInt64(inner);
      if n.None? {
        return Err(BadIndex);
      }
      r := Ok(Index(n.value));
    }
  }

  /** The part of the switch that consumes a step: recursive, child or bracket accessor. */
  method ReadStep(rest: string) returns (s: Result<Step, ParseError>, after: string)
    requires rest != [] && (rest[0] == '.' || rest[0] == '[')
    ensures s.Err? ==> Parse(rest) == Err(s.error)
    ensures s.Ok? ==> Parse(rest) == Prepend(s.value, Parse(after)) && Measure(after) < Measure(rest)
  {
    after := rest;
    if HasDots(rest) {
      var m := FindRecursive(rest);
      if m.None? {
        return Err(BadRecursive), rest;
      }
      s, after := Ok(Recursive(m.value)), rest[2 + |m.value|..];
    } else if rest[0] == '.' {
      var m := FindChild(rest);
      if m.None? {
        return Err(BadChild), rest;
      }
      s, after := Ok(Key(m.value)), rest[1 + |m.value|..];
    } else {
      var m := FindBracket(rest);
      if m.None? {
        return Err(BadBracket), rest;
      }
      BracketShape(rest);
      s := ReadInner(m.value);
      after := rest[2 + |m.value|..];
    }
  }

  /** Compile */
  method Compile(expr: string) returns (r: Result<seq<Step>, ParseError>)
    ensures r == ParseExpr(expr)
  {
    if expr == "" {
      return Err(EmptyExpression);
    }
    var rest := WithoutRoot(expr);
    var steps: seq<Step> := [];
    CombineEmpty(Parse(rest));
    while |rest| > 0
      invariant Combine(steps, Parse(rest)) == ParseExpr(expr)
      decreases Measure(rest)
    {
      if rest[0] == '.' || rest[0] == '[' {
        var s, after := ReadStep(rest);
        if s.Err? {
          return Err(s.error);
        }
        CombinePrepend(steps, s.value, Parse(after));
        steps := steps + [s.value];
        rest := after;
      } else {
        if !IsIdentStart(rest[0]) {
          return Err(BadFragment);
        }
        rest := "." + rest;
      }
    }
    assert steps + [] == steps;
    return Ok(steps);
  }

  lemma CombineEmpty(r: Result<seq<Step>, ParseError>)
    ensures Combine([], r) == r
  {
    if r.Ok? {
      assert [] + r.value == r.value;
    }
  }

  // ------------------------------------------------------------- printing

  /** What the path syntax can express: a key needs one quote character it does not contain. */
  predicate Printable(s: Step) {
    match s
    case Key(k) => '\'' !in k || '"' !in k
    case Index(i) => IsInt64(i)
    case Wildcard => true
    case Recursive(n) => IsIdent(n)
  }

  function Quoted(k: string): string {
    if '\'' !in k then "'" + k + "'" else "\"" + k + "\""
  }

  /** The text between the brackets. */
  function Inner(s: Step): string
    requires !s.Recursive?
  {
    match s
    case Key(k) => Quoted(k)
    case Index(i) => Itoa(i)
    case Wildcard => "*"
  }

  function PrintStep(s: Step): string {
    if s.Recursive? then ".." + s.name else "[" + Inner(s) + "]"
  }

  function Print(steps: seq<Step>): string {
    if steps == [] then [] else PrintStep(steps[0]) + Print(steps[1..])
  }

  lemma QuotedBody(k: string, tail: string)
    requires '\'' !in k || '"' !in k
    ensures BracketBody(Quoted(k) + tail) == |Quoted(k)|
    ensures IsQuoted(Quoted(k))
  {
    var s := Quoted(k) + tail;
    assert s[1..][..|k|] == k;
    assert Quoted(k)[1..|Quoted(k)| - 1] == k;
    RunIs(s[1..], c => c != s[0], |k|);
  }

  lemma DigitsBody(digits: string, tail: string)
    requires digits != [] && AllDigits(digits) && (tail == [] || tail[0] == ']')
    ensures BracketBody(digits + tail) == |digits|
    ensures BracketBody("-" + digits + tail) == 1 + |digits|
  {
    var s := digits + tail;
    RunIs(s, IsDigit, |digits|);
    assert s[0] == digits[0];
    var t := "-" + digits + tail;
    assert t[0] == '-' && t[1..] == s;
  }

  lemma IndexBody(i: int, tail: string)
    requires tail == [] || tail[0] == ']'
    ensures BracketBody(Itoa(i) + tail) == |Itoa(i)|
    ensures Itoa(i)[0] == '-' || IsDigit(Itoa(i)[0])
  {
    DigitsBody(Decimal(if i < 0 then -i else i), tail);
  }

  lemma InnerRoundTrip(s: Step, tail: string)
    requires !s.Recursive? && Printable(s)
    requires tail == [] || tail[0] == ']'
    ensures Inner(s) != [] && BracketBody(Inner(s) + tail) == |Inner(s)|
    ensures BracketStep(Inner(s)) == Ok(s)
  {
    match s
    case Key(k) =>
      QuotedBody(k, tail);
      assert Quoted(k)[1..|Quoted(k)| - 1] == k;
    case Index(i) =>
      IndexBody(i, tail);
      ParseIntItoa(i);
    case Wildcard =>
  }

  lemma FindBracketIs(inner: string, tail: string)
    requires inner != [] && BracketBody(inner + ("]" + tail)) == |inner|
    ensures FindBracket("[" + inner + "]" + tail) == Some(inner)
  {
    var rest := "[" + inner + "]" + tail;
    assert rest[1..] == inner + ("]" + tail);
    assert rest[|inner| + 1] == ']';
    assert rest[1..|inner| + 1] == inner;
  }

  lemma ParseBracketIs(rest: string, inner: string, s: Step)
    requires rest != [] && rest[0] == '[' && FindBracket(rest) == Some(inner) && BracketStep(inner) == Ok(s)
    ensures Parse(rest) == Prepend(s, Parse(rest[2 + |inner|..]))
  {
  }

  lemma BracketRoundTrip(s: Step, tail: string)
    requires !s.Recursive? && Printable(s)
    ensures Parse(PrintStep(s) + tail) == Prepend(s, Parse(tail))
  {
    var inner := Inner(s);
    InnerRoundTrip(s, "]" + tail);
    FindBracketIs(inner, tail);
    var rest := "[" + inner + "]" + tail;
    ParseBracketIs(rest, inner, s);
    assert rest[2 + |inner|..] == tail;
  }

  lemma RecursiveRoundTrip(n: string, tail: string)
    requires IsIdent(n)
    requires tail == [] || tail[0] == '[' || tail[0] == '.'
    ensures Parse(".." + n + tail) == Prepend(Recursive(n), Parse(tail))
  {
    var rest := ".." + n + tail;
    assert rest[2..] == n + tail;
    RunIs(rest[2..], IsIdentChar, |n|);
    assert rest[2..2 + |n|] == n;
    assert FindRecursive(rest) == Some(n);
    assert rest[2 + |n|..] == tail;
  }

  /** What follows a printed step starts with a bracket or a dot. */
  lemma PrintHead(steps: seq<Step>)
    ensures Print(steps) == [] || Print(steps)[0] == '[' || Print(steps)[0] == '.'
  {
    if steps != [] {
      assert Print(steps)[0] == PrintStep(steps[0])[0];
    }
  }

  lemma StepRoundTrip(s: Step, rest: seq<Step>)
    requires Printable(s)
    ensures Parse(PrintStep(s) + Print(rest)) == Prepend(s, Parse(Print(rest)))
  {
    if s.Recursive? {
      PrintHead(rest);
      RecursiveRoundTrip(s.name, Print(rest));
    } else {
      BracketRoundTrip(s, Print(rest));
    }
  }

  lemma {:induction false} PrintThenParse(steps: seq<Step>)
    requires forall i :: 0 <= i < |steps| ==> Printable(steps[i])
    ensures Parse(Print(steps)) == Ok(steps)
  {
    if steps != [] {
      PrintThenParse(steps[1..]);
      StepRoundTrip(steps[0], steps[1..]);
      assert [steps[0]] + steps[1..] == steps;
    }
  }

  predicate AllPrintable(r: Result<seq<Step>, ParseError>) {
    r.Ok? ==> forall i :: 0 <= i < |r.value| ==> Printable(r.value[i])
  }

  lemma PrependPrintable(s: Step, r: Result<seq<Step>, ParseError>)
    requires Printable(s) && AllPrintable(r)
    ensures AllPrintable(Prepend(s, r))
  {
  }

  lemma InnerPrintable(inner: string)
    requires inner != [] && BracketText(inner)
    ensures BracketStep(inner).Ok? ==> Printable(BracketStep(inner).value)
  {
  }

  lemma IdentHasNoQuote(name: string)
    requires IsIdent(name)
    ensures '"' !in name && '\'' !in name
  {
  }

  lemma RecursivePrintable(rest: string)
    requires HasDots(rest) && FindRecursive(rest).Some?
    requires AllPrintable(Parse(rest[2 + |FindRecursive(rest).value|..]))
    ensures AllPrintable(Parse(rest))
  {
    var name := FindRecursive(rest).value;
    PrependPrintable(Recursive(name), Parse(rest[2 + |name|..]));
  }

  lemma ChildPrintable(rest: string)
    requires rest != [] && rest[0] == '.' && !HasDots(rest) && FindChild(rest).Some?
    requires AllPrintable(Parse(rest[1 + |FindChild(rest).value|..]))
    ensures AllPrintable(Parse(rest))
  {
    var name := FindChild(rest).value;
    IdentHasNoQuote(name);
    PrependPrintable(Key(name), Parse(rest[1 + |name|..]));
  }

  lemma BracketPrintable(rest: string)
    requires rest != [] && rest[0] == '[' && !HasDots(rest) && FindBracket(rest).Some?
    requires AllPrintable(Parse(rest[2 + |FindBracket(rest).value|..]))
    ensures AllPrintable(Parse(rest))
  {
    var inner := FindBracket(rest).value;
    BracketShape(rest);
    InnerPrintable(inner);
    if BracketStep(inner).Ok? {
      PrependPrintable(BracketStep(inner).value, Parse(rest[2 + |inner|..]));
    }
  }

  /** Everything the parser accepts is expressible by the printer. */
  lemma {:induction false} ParsedIsPrintable(rest: string)
    ensures AllPrintable(Parse(rest))
    decreases Measure(rest)
  {
    if rest == [] {
    } else if HasDots(rest) {
      if FindRecursive(rest).Some? {
        ParsedIsPrintable(rest[2 + |FindRecursive(rest).value|..]);
        RecursivePrintable(rest);
      }
    } else if rest[0] == '.' {
      if FindChild(rest).Some? {
        ParsedIsPrintable(rest[1 + |FindChild(rest).value|..]);
        ChildPrintable(rest);
      }
    } else if rest[0] == '[' {
      if FindBracket(rest).Some? {
        ParsedIsPrintable(rest[2 + |FindBracket(rest).value|..]);
        BracketPrintable(rest);
      }
    } else if IsIdentStart(rest[0]) {
      ParsedIsPrintable("." + rest);
    }
  }

  /** Parsing inverts printing, and the printable step lists are exactly those some text denotes. */
  lemma ParserInvertsPrinter(steps: seq<Step>)
    ensures (forall i :: 0 <= i < |steps| ==> Printable(steps[i])) <==>
            (exists expr :: ParseExpr(expr) == Ok(steps))
    ensures (forall i :: 0 <= i < |steps| ==> Printable(steps[i])) ==>
            ParseExpr("$" + Print(steps)) == Ok(steps)
  {
    if forall i :: 0 <= i < |steps| ==> Printable(steps[i]) {
      PrintThenParse(steps);
      assert ("$" + Print(steps))[1..] == Print(steps);
      assert ParseExpr("$" + Print(steps)) == Ok(steps);
    }
    if exists expr :: ParseExpr(expr) == Ok(steps) {
      var expr :| ParseExpr(expr) == Ok(steps);
      ParsedIsPrintable(WithoutRoot(expr));
    }
  }

  /** Every accepted text has a canonical form that denotes the same steps. */
  lemma CanonicalForm(expr: string)
    requires ParseExpr(expr).Ok?
    ensures ParseExpr("$" + Print(ParseExpr(expr).value)) == ParseExpr(expr)
  {
    ParserInvertsPrinter(ParseExpr(expr).value);
  }
}
