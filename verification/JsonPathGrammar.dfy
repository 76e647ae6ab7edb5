// The path grammar, stated on whole texts without the parser: which texts denote which
// steps, and which spellings mean the same.
module JsonPathGrammar {
  import opened Prelude
  import opened JsonPathParser

  /** The text cannot be read as a longer identifier at this point. */
  predicate EndsName(tail: string) {
    tail == [] ||
    !('a' <= tail[0] <= 'z' || 'A' <= tail[0] <= 'Z' || '0' <= tail[0] <= '9' || tail[0] == '_' || tail[0] == '-')
  }

  /** Letters, digits, '_' and '-', starting with a letter or '_'. */
  predicate IsName(k: string) {
    && k != [] && ('a' <= k[0] <= 'z' || 'A' <= k[0] <= 'Z' || k[0] == '_')
    && forall i :: 0 <= i < |k| ==>
         'a' <= k[i] <= 'z' || 'A' <= k[i] <= 'Z' || '0' <= k[i] <= '9' || k[i] == '_' || k[i] == '-'
  }

  /** An optional minus sign and digits. */
  predicate IsNumber(t: string) {
    var digits := if t != [] && t[0] == '-' then t[1..] else t;
    digits != [] && forall i :: 0 <= i < |digits| ==> '0' <= digits[i] <= '9'
  }

  /** piece, followed by tail, spells the step. */
  predicate Spells(piece: string, s: Step, tail: string) {
    match s
    case Key(k) =>
      || (IsName(k) && EndsName(tail) && (piece == "." + k || piece == k))
      || ('\'' !in k && piece == "['" + k + "']")
      || ('"' !in k && piece == "[\"" + k + "\"]")
    case Index(i) =>
      && |piece| >= 2 && piece[0] == '[' && piece[|piece| - 1] == ']'
      && IsNumber(piece[1..|piece| - 1]) && ParseInt64(piece[1..|piece| - 1]) == Some(i)
    case Wildcard => piece == "[*]"
    case Recursive(k) => IsName(k) && EndsName(tail) && piece == ".." + k
  }

  /** The text is one spelling per step, in order. */
  ghost predicate Denotes(text: string, steps: seq<Step>)
    decreases |steps|
  {
    if steps == [] then text == []
    else exists n :: 0 <= n <= |text| && Spells(text[..n], steps[0], text[n..]) && Denotes(text[n..], steps[1..])
  }

  lemma NameIsIdent(k: string)
    ensures IsName(k) <==> IsIdent(k)
  {
  }

  lemma EndsNameIs(tail: string)
    ensures EndsName(tail) <==> tail == [] || !IsIdentChar(tail[0])
  {
  }

  // ------------------------------------------------- reading one spelling

  lemma ReadRecursive(k: string, tail: string)
    requires IsName(k) && EndsName(tail)
    ensures Parse(".." + k + tail) == Prepend(Recursive(k), Parse(tail))
  {
    var rest := ".." + k + tail;
    NameIsIdent(k);
    EndsNameIs(tail);
    assert rest[2..] == k + tail;
    RunIs(rest[2..], IsIdentChar, |k|);
    assert rest[2..2 + |k|] == k;
    assert FindRecursive(rest) == Some(k);
    assert rest[2 + |k|..] == tail;
  }

  lemma ReadChild(k: string, tail: string)
    requires IsName(k) && EndsName(tail)
    ensures Parse("." + k + tail) == Prepend(Key(k), Parse(tail))
  {
    var rest := "." + k + tail;
    NameIsIdent(k);
    EndsNameIs(tail);
    assert rest[1..] == k + tail && rest[1] == k[0];
    RunIs(rest[1..], IsIdentChar, |k|);
    assert rest[1..1 + |k|] == k;
    assert FindChild(rest) == Some(k);
    assert rest[1 + |k|..] == tail;
  }

  /** The shorthand without a dot. */
  lemma ReadBare(k: string, tail: string)
    requires IsName(k) && EndsName(tail)
    ensures Parse(k + tail) == Prepend(Key(k), Parse(tail))
  {
    var rest := k + tail;
    assert rest[0] == k[0] && "." + rest == "." + k + tail;
    ReadChild(k, tail);
  }

  lemma ReadQuoted(q: char, k: string, tail: string)
    requires (q == '\'' || q == '"') && q !in k
    ensures Parse("[" + ([q] + k + [q]) + "]" + tail) == Prepend(Key(k), Parse(tail))
  {
    var inner := [q] + k + [q];
    var s := inner + ("]" + tail);
    assert s[0] == q && s[1..][..|k|] == k && s[1..][|k|] == q;
    RunIs(s[1..], c => c != s[0], |k|);
    assert inner[1..|inner| - 1] == k && inner[0] == q;
    ReadBracket(inner, Key(k), tail);
  }

  lemma ReadBracket(inner: string, s: Step, tail: string)
    requires inner != [] && BracketBody(inner + ("]" + tail)) == |inner| && BracketStep(inner) == Ok(s)
    ensures Parse("[" + inner + "]" + tail) == Prepend(s, Parse(tail))
  {
    var rest := "[" + inner + "]" + tail;
    FindBracketIs(inner, tail);
    ParseBracketIs(rest, inner, s);
    assert rest[2 + |inner|..] == tail;
  }

  lemma ReadIndex(t: string, i: int, tail: string)
    requires IsNumber(t) && ParseInt64(t) == Some(i)
    ensures Parse("[" + t + "]" + tail) == Prepend(Index(i), Parse(tail))
  {
    var digits := if t[0] == '-' then t[1..] else t;
    DigitsBody(digits, "]" + tail);
    assert t == if t[0] == '-' then "-" + digits else digits;
    ReadBracket(t, Index(i), tail);
  }

  lemma ReadWildcard(tail: string)
    ensures Parse("[*]" + tail) == Prepend(Wildcard, Parse(tail))
  {
    assert "[" + "*" + "]" + tail == "[*]" + tail;
    ReadBracket("*", Wildcard, tail);
  }

  lemma QuotedText(q: char, k: string, tail: string)
    ensures "[" + ([q] + k + [q]) + "]" + tail == ['[', q] + k + [q, ']'] + tail
  {
    assert "[" + ([q] + k + [q]) + "]" == ['[', q] + k + [q, ']'];
  }

  lemma ReadSingle(k: string, tail: string)
    requires '\'' !in k
    ensures Parse("['" + k + "']" + tail) == Prepend(Key(k), Parse(tail))
  {
    QuotedText('\'', k, tail);
    ReadQuoted('\'', k, tail);
  }

  lemma ReadDouble(k: string, tail: string)
    requires '"' !in k
    ensures Parse("[\"" + k + "\"]" + tail) == Prepend(Key(k), Parse(tail))
  {
    QuotedText('"', k, tail);
    ReadQuoted('"', k, tail);
  }

  lemma ReadKey(piece: string, k: string, tail: string)
    requires Spells(piece, Key(k), tail)
    ensures Parse(piece + tail) == Prepend(Key(k), Parse(tail))
  {
    if IsName(k) && EndsName(tail) && piece == "." + k {
      ReadChild(k, tail);
    } else if IsName(k) && EndsName(tail) && piece == k {
      ReadBare(k, tail);
    } else if '\'' !in k && piece == "['" + k + "']" {
      ReadSingle(k, tail);
    } else {
      ReadDouble(k, tail);
    }
  }

  lemma Bracketed(piece: string)
    requires |piece| >= 2 && piece[0] == '[' && piece[|piece| - 1] == ']'
    ensures piece == "[" + piece[1..|piece| - 1] + "]"
  {
  }

  lemma ReadNumber(piece: string, i: int, tail: string)
    requires Spells(piece, Index(i), tail)
    ensures Parse(piece + tail) == Prepend(Index(i), Parse(tail))
  {
    var t := piece[1..|piece| - 1];
    Bracketed(piece);
    ReadIndex(t, i, tail);
  }

  /** Every spelling is read as its step, and reading goes on after it. */
  lemma ReadSpelling(piece: string, s: Step, tail: string)
    requires Spells(piece, s, tail)
    ensures Parse(piece + tail) == Prepend(s, Parse(tail))
  {
    match s
    case Key(k) => ReadKey(piece, k, tail);
    case Index(i) => ReadNumber(piece, i, tail);
    case Wildcard => ReadWildcard(tail);
    case Recursive(k) => ReadRecursive(k, tail);
  }

  lemma ReadThen(text: string, piece: string, tail: string, s: Step, steps: seq<Step>)
    requires text == piece + tail && Spells(piece, s, tail) && Parse(tail) == Ok(steps)
    ensures Parse(text) == Ok([s] + steps)
  {
    ReadSpelling(piece, s, tail);
  }

  lemma SpelledHead(text: string, steps: seq<Step>) returns (piece: string, tail: string)
    requires Denotes(text, steps) && steps != []
    ensures text == piece + tail && Spells(piece, steps[0], tail) && Denotes(tail, steps[1..])
  {
    var n :| 0 <= n <= |text| && Spells(text[..n], steps[0], text[n..]) && Denotes(text[n..], steps[1..]);
    piece, tail := text[..n], text[n..];
    SplitAt(text, n);
  }

  lemma SplitAt(text: string, n: nat)
    requires n <= |text|
    ensures text == text[..n] + text[n..]
  {
  }

  lemma {:induction false} DenotedIsParsed(text: string, steps: seq<Step>)
    requires Denotes(text, steps)
    ensures Parse(text) == Ok(steps)
    decreases |steps|
  {
    if steps != [] {
      var piece, tail := SpelledHead(text, steps);
      DenotedIsParsed(tail, steps[1..]);
      ReadThen(text, piece, tail, steps[0], steps[1..]);
      assert [steps[0]] + steps[1..] == steps;
    }
  }

  // ------------------------------------------- every step read was spelled

  lemma DenotesOneMore(text: string, n: nat, s: Step, steps: seq<Step>)
    requires n <= |text| && Spells(text[..n], s, text[n..]) && Denotes(text[n..], steps)
    ensures Denotes(text, [s] + steps)
  {
    assert ([s] + steps)[1..] == steps && ([s] + steps)[0] == s;
  }

  lemma RecursiveSpelled(rest: string)
    requires HasDots(rest) && FindRecursive(rest).Some?
    ensures var k := FindRecursive(rest).value;
            2 + |k| <= |rest| && Spells(rest[..2 + |k|], Recursive(k), rest[2 + |k|..])
  {
    var k := FindRecursive(rest).value;
    NameIsIdent(k);
    EndsNameIs(rest[2 + |k|..]);
    assert rest[..2 + |k|] == ".." + k;
    assert |rest| > 2 + |k| ==> rest[2 + |k|..][0] == rest[2..][|k|];
  }

  lemma ChildSpelled(rest: string)
    requires rest != [] && rest[0] == '.' && FindChild(rest).Some?
    ensures var k := FindChild(rest).value;
            1 + |k| <= |rest| && Spells(rest[..1 + |k|], Key(k), rest[1 + |k|..])
  {
    var k := FindChild(rest).value;
    NameIsIdent(k);
    EndsNameIs(rest[1 + |k|..]);
    assert rest[..1 + |k|] == "." + k;
    assert |rest| > 1 + |k| ==> rest[1 + |k|..][0] == rest[1..][|k|];
  }

  lemma BareSpelled(rest: string)
    requires rest != [] && IsIdentStart(rest[0])
    ensures var m := FindChild("." + rest);
            && m.Some? && |m.value| <= |rest| && ("." + rest)[1 + |m.value|..] == rest[|m.value|..]
            && Spells(rest[..|m.value|], Key(m.value), rest[|m.value|..])
  {
    var k := FindChild("." + rest).value;
    ChildSpelled("." + rest);
    assert ("." + rest)[1 + |k|..] == rest[|k|..];
    assert ("." + rest)[1..1 + |k|] == rest[..|k|] == k;
    NameIsIdent(k);
  }

  lemma QuotedSpelled(inner: string, tail: string)
    requires IsQuoted(inner)
    ensures Spells("[" + inner + "]", Key(inner[1..|inner| - 1]), tail)
  {
    var q, k := inner[0], inner[1..|inner| - 1];
    assert inner == [q] + k + [q];
    if q == '\'' {
      assert "[" + inner + "]" == "['" + k + "']";
    } else {
      assert "[" + inner + "]" == "[\"" + k + "\"]";
    }
  }

  lemma NumberSpelled(inner: string, i: int, tail: string)
    requires IsIndexText(inner) && ParseInt64(inner) == Some(i)
    ensures Spells("[" + inner + "]", Index(i), tail)
  {
    var piece := "[" + inner + "]";
    assert piece[1..|piece| - 1] == inner;
  }

  lemma InnerSpelled(inner: string, tail: string)
    requires inner != [] && BracketText(inner) && BracketStep(inner).Ok?
    ensures Spells("[" + inner + "]", BracketStep(inner).value, tail)
  {
    if IsQuoted(inner) {
      QuotedSpelled(inner, tail);
    } else if inner == "*" {
      assert "[" + inner + "]" == "[*]";
    } else {
      NumberSpelled(inner, BracketStep(inner).value.idx, tail);
    }
  }

  lemma BracketPiece(rest: string)
    requires FindBracket(rest).Some?
    ensures var inner := FindBracket(rest).value; rest[..2 + |inner|] == "[" + inner + "]"
  {
    var n := |FindBracket(rest).value|;
    assert rest[0] == '[' && rest[1..n + 1] == FindBracket(rest).value && rest[n + 1] == ']';
  }

  lemma BracketSpelled(rest: string)
    requires FindBracket(rest).Some? && BracketStep(FindBracket(rest).value).Ok?
    ensures var inner := FindBracket(rest).value;
            2 + |inner| <= |rest| && Spells(rest[..2 + |inner|], BracketStep(inner).value, rest[2 + |inner|..])
  {
    BracketShape(rest);
    BracketPiece(rest);
    InnerSpelled(FindBracket(rest).value, rest[2 + |FindBracket(rest).value|..]);
  }

  lemma {:induction false} ParsedIsDenoted(rest: string)
    requires Parse(rest).Ok?
    ensures Denotes(rest, Parse(rest).value)
    decreases Measure(rest)
  {
    if rest == [] {
    } else if HasDots(rest) {
      var n := 2 + |FindRecursive(rest).value|;
      RecursiveSpelled(rest);
      ParsedIsDenoted(rest[n..]);
      DenotesOneMore(rest, n, Recursive(FindRecursive(rest).value), Parse(rest[n..]).value);
    } else if rest[0] == '.' {
      var n := 1 + |FindChild(rest).value|;
      ChildSpelled(rest);
      ParsedIsDenoted(rest[n..]);
      DenotesOneMore(rest, n, Key(FindChild(rest).value), Parse(rest[n..]).value);
    } else if rest[0] == '[' {
      var n := 2 + |FindBracket(rest).value|;
      BracketSpelled(rest);
      ParsedIsDenoted(rest[n..]);
      DenotesOneMore(rest, n, BracketStep(FindBracket(rest).value).value, Parse(rest[n..]).value);
    } else {
      BareSpelled(rest);
      var k := FindChild("." + rest).value;
      BareParses(rest);
      ParsedIsDenoted(rest[|k|..]);
      DenotesOneMore(rest, |k|, Key(k), Parse(rest[|k|..]).value);
    }
  }

  lemma BareParses(rest: string)
    requires rest != [] && IsIdentStart(rest[0]) && FindChild("." + rest).Some?
    requires ("." + rest)[1 + |FindChild("." + rest).value|..] == rest[|FindChild("." + rest).value|..]
    ensures var k := FindChild("." + rest).value; Parse(rest) == Prepend(Key(k), Parse(rest[|k|..]))
  {
    assert ("." + rest)[1] == rest[0];
  }

  // ------------------------------------------------------------ main results

  /** Compile accepts exactly the texts of the grammar, after an optional "$", and returns the steps they
      spell. In particular no text spells two different step lists. */
  lemma GrammarIff(expr: string, steps: seq<Step>)
    ensures ParseExpr(expr) == Ok(steps) <==>
            expr != "" && Denotes(if expr[0] == '$' then expr[1..] else expr, steps)
  {
    if expr != "" {
      var rest := if expr[0] == '$' then expr[1..] else expr;
      if ParseExpr(expr) == Ok(steps) {
        ParsedIsDenoted(rest);
      }
      if Denotes(rest, steps) {
        DenotedIsParsed(rest, steps);
      }
    }
  }

  lemma Rooted(a: string, b: string)
    ensures ParseExpr("$" + a + b) == Parse(a + b)
  {
    assert ("$" + a + b)[1..] == a + b;
  }

  /** The spellings of a key mean the same in every path, valid or not: with a dot, without one, and
      between either kind of quotes. */
  lemma KeySpellings(k: string, tail: string)
    ensures IsName(k) && EndsName(tail) ==>
              && ParseExpr("$" + ("." + k) + tail) == ParseExpr("$" + ("['" + k + "']") + tail)
              && ParseExpr("$" + k + tail) == ParseExpr("$" + ("['" + k + "']") + tail)
              && ParseExpr(k + tail) == ParseExpr("$" + ("['" + k + "']") + tail)
    ensures '\'' !in k && '"' !in k ==>
              ParseExpr("$" + ("['" + k + "']") + tail) == ParseExpr("$" + ("[\"" + k + "\"]") + tail)
  {
    Rooted("['" + k + "']", tail);
    Rooted("[\"" + k + "\"]", tail);
    if IsName(k) && EndsName(tail) {
      NoQuotes(k);
      Rooted("." + k, tail);
      Rooted(k, tail);
      ReadSpelling("." + k, Key(k), tail);
      ReadSpelling(k, Key(k), tail);
      ReadSpelling("['" + k + "']", Key(k), tail);
      assert (k + tail)[0] == k[0];
    }
    if '\'' !in k && '"' !in k {
      ReadSpelling("['" + k + "']", Key(k), tail);
      ReadSpelling("[\"" + k + "\"]", Key(k), tail);
    }
  }

  lemma NoQuotes(k: string)
    requires IsName(k)
    ensures '\'' !in k && '"' !in k
  {
  }
}
