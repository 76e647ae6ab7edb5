// celenv glob helpers: the translation of a shell-style glob into an anchored
// RE2 pattern, and the cache of compiled patterns. A char stands for one rune.
module Glob {
  import opened Prelude

  // ------------------------------------------------- the source language

  predicate IsAlnum(c: char) {
    '0' <= c <= '9' || 'A' <= c <= 'Z' || 'a' <= c <= 'z'
  }

  datatype Token = Literal(c: char) | Star | DoubleStar | Question | Class(members: string)

  /** The first token of a glob and how many characters it spans. */
  function FirstToken(g: string): (r: (Token, nat))
    requires g != []
    ensures 1 <= r.1 <= |g|
  {
    if g[0] == '*' then (if |g| > 1 && g[1] == '*' then (DoubleStar, 2) else (Star, 1))
    else if g[0] == '?' then (Question, 1)
    else if g[0] == '[' && IndexOf(g, ']') < |g| then (Class(g[1..IndexOf(g, ']')]), IndexOf(g, ']') + 1)
    else (Literal(g[0]), 1)
  }

  /** A class lists characters and ranges. */
  predicate InClass(members: string, x: char) {
    members != [] &&
    if |members| >= 3 && members[1] == '-' then members[0] <= x <= members[2] || InClass(members[3..], x)
    else members[0] == x || InClass(members[1..], x)
  }

  /** A class of alphanumerics and ranges of them. */
  predicate PlainClass(members: string) {
    members == [] ||
    if |members| >= 3 && members[1] == '-' then
      IsAlnum(members[0]) && IsAlnum(members[2]) && members[0] <= members[2] && PlainClass(members[3..])
    else IsAlnum(members[0]) && PlainClass(members[1..])
  }

  /** Direct matcher. As documented, '*' is any sequence without '/', '**' any sequence and '?' any
      one character. As implemented, '**' does not cross a newline and '?' does not take '/'. */
  predicate GlobMatch(g: string, s: string, documented: bool)
    decreases |g|, |s|
  {
    if g == [] then s == []
    else
      var (t, n) := FirstToken(g);
      match t
      case Star => GlobMatch(g[n..], s, documented) || (s != [] && s[0] != '/' && GlobMatch(g, s[1..], documented))
      case DoubleStar =>
        || GlobMatch(g[n..], s, documented)
        || (s != [] && (documented || s[0] != '\n') && GlobMatch(g, s[1..], documented))
      case Question => s != [] && (documented || s[0] != '/') && GlobMatch(g[n..], s[1..], documented)
      case Class(members) => s != [] && InClass(members, s[0]) && GlobMatch(g[n..], s[1..], documented)
      case Literal(c) => s != [] && s[0] == c && GlobMatch(g[n..], s[1..], documented)
  }

  /** The globs covered: no '{' before a digit, and closed classes list alphanumerics and ranges of them,
      at least one. */
  predicate Supported(g: string) {
    g == [] ||
    var (t, n) := FirstToken(g);
    && (t == Literal('{') ==> |g| == 1 || !IsDigit(g[1]))
    && (t.Class? ==> t.members != [] && PlainClass(t.members))
    && Supported(g[n..])
  }

  // --------------------------------------------- the target: RE2 fragment

  /** A one-character matcher. The dot excludes newline, as RE2 does without the s flag. */
  datatype Atom = Char(c: char) | Dot | Set(negated: bool, spans: seq<Span>)

  datatype Span = Span(lo: char, hi: char)

  predicate Spanned(spans: seq<Span>, x: char) {
    exists i :: 0 <= i < |spans| && spans[i].lo <= x <= spans[i].hi
  }

  predicate Accepts1(a: Atom, x: char) {
    match a
    case Char(c) => x == c
    case Dot => x != '\n'
    case Set(negated, spans) => Spanned(spans, x) != negated
  }

  datatype Item = Item(atom: Atom, starred: bool)

  /** Meaning of an anchored pattern: the subject splits into one part per item. */
  ghost predicate Matches(items: seq<Item>, s: string) {
    if items == [] then s == []
    else exists k :: 0 <= k <= |s| && Covers(items[0], s[..k]) && Matches(items[1..], s[k..])
  }

  predicate Covers(i: Item, part: string) {
    (i.starred || |part| == 1) && forall j :: 0 <= j < |part| ==> Accepts1(i.atom, part[j])
  }

  predicate IsMeta(c: char) {
    NeedsQuote(c) || c == '*' || c == '?' || c == '{'
  }

  predicate IsClassMember(c: char) {
    IsAlnum(c) || c == '/'
  }

  /** Reads the inside of a class; an empty range is an error. */
  function ParseSpans(t: string): Option<seq<Span>> {
    if t == [] then Some([])
    else if |t| >= 3 && t[1] == '-' then
      if IsClassMember(t[0]) && IsClassMember(t[2]) && t[0] <= t[2] then ConsSpan(Span(t[0], t[2]), ParseSpans(t[3..]))
      else None
    else if IsClassMember(t[0]) then ConsSpan(Span(t[0], t[0]), ParseSpans(t[1..]))
    else None
  }

  function ConsSpan(r: Span, rest: Option<seq<Span>>): Option<seq<Span>> {
    if rest.None? then None else Some([r] + rest.value)
  }

  /** Reads one atom of the fragment: the atom and its length, or None outside the fragment. A '{' can
      start a counted repetition only before a digit; elsewhere it stands for itself. */
  function ParseAtom(t: string): (r: Option<(Atom, nat)>)
    ensures r.Some? ==> 1 <= r.value.1 <= |t|
  {
    if t == [] then None
    else if t[0] == '.' then Some((Dot, 1))
    else if t[0] == '\\' then (if |t| > 1 && IsMeta(t[1]) then Some((Char(t[1]), 2)) else None)
    else if t[0] == '[' then
      var k := IndexOf(t, ']');
      if k == |t| then None
      else
        var negated := |t| > 1 && t[1] == '^';
        var members := if negated then t[2..k] else t[1..k];
        var spans := ParseSpans(members);
        if members != [] && spans.Some? then Some((Set(negated, spans.value), k + 1)) else None
    else if t[0] == '{' then (if |t| > 1 && IsDigit(t[1]) then None else Some((Char('{'), 1)))
    else if IsMeta(t[0]) then None
    else Some((Char(t[0]), 1))
  }

  /** Reads items up to the closing anchor. */
  function ParseItems(t: string): Option<seq<Item>> {
    if t == "$" then Some([])
    else
      var a := ParseAtom(t);
      if a.None? then None
      else
        var n := a.value.1;
        var starred := n < |t| && t[n] == '*';
        ConsItem(Item(a.value.0, starred), ParseItems(t[if starred then n + 1 else n..]))
  }

  function ConsItem(i: Item, rest: Option<seq<Item>>): Option<seq<Item>> {
    if rest.None? then None else Some([i] + rest.value)
  }

  /** Parses a pattern of the form ^items$. */
  function ParseRE2(t: string): Option<seq<Item>> {
    if t != [] && t[0] == '^' then ParseItems(t[1..]) else None
  }

  // -------------------------------------------------------- translation

  /** The characters the translator escapes; '[' only when no ']' closes it. */
  predicate NeedsQuote(c: char) {
    c == '.' || c == '+' || c == '(' || c == ')' || c == '|' || c == '^' || c == '$' || c == '\\' || c == '['
  }

  /** What the translator writes for one token. */
  function Emit(t: Token): string {
    match t
    case Star => "[^/]*"
    case DoubleStar => ".*"
    case Question => "[^/]"
    case Class(members) => "[" + members + "]"
    case Literal(c) => if NeedsQuote(c) then ['\\', c] else [c]
  }

  function EmitAll(g: string): string {
    if g == [] then [] else var (t, n) := FirstToken(g); Emit(t) + EmitAll(g[n..])
  }

  /** The switch of globRE2 at position i: the text written and the position after the token. */
  method TranslateAt(g: string, i: nat) returns (piece: string, next: nat)
    requires i < |g|
    ensures i < next <= |g|
    ensures var (t, n) := FirstToken(g[i..]); piece == Emit(t) && next == i + n
  {
    var c := g[i];
    next := i + 1;
    if c == '*' {
      if i + 1 < |g| && g[i + 1] == '*' {
        piece, next := ".*", i + 2;
      } else {
        piece := "[^/]*";
      }
    } else if c == '?' {
      piece := "[^/]";
    } else if c == '[' {
      var j := IndexOf(g[i..], ']');
      if j == |g[i..]| {
        piece := ['\\', c];
      } else {
        piece, next := g[i..i + j + 1], i + j + 1;
        assert piece == "[" + g[i..][1..j] + "]";
      }
    } else if c == '.' || c == '+' || c == '(' || c == ')' || c == '|' || c == '^' || c == '$' || c == '\\' {
      piece := ['\\', c];
    } else {
      piece := [c];
    }
  }

  lemma EmitRest(g: string, i: nat, next: nat)
    requires i < |g| && next == i + FirstToken(g[i..]).1
    ensures EmitAll(g[i..]) == Emit(FirstToken(g[i..]).0) + EmitAll(g[next..])
  {
    assert g[i..][next - i..] == g[next..];
  }

  /** globRE2 */
  method GlobRE2(g: string) returns (b: string)
    ensures b == "^" + EmitAll(g) + "$"
  {
    b := "^";
    var i := 0;
    while i < |g|
      invariant 0 <= i <= |g|
      invariant b + EmitAll(g[i..]) == "^" + EmitAll(g)
    {
      var piece, next := TranslateAt(g, i);
      EmitRest(g, i, next);
      ConcatAssociates(b, piece, EmitAll(g[next..]));
      b := b + piece;
      i := next;
    }
    assert b + EmitAll(g[i..]) == b;
    b := b + "$";
  }

  // ------------------------------------------------------------- meaning

  const NOT_SLASH := Set(true, [Span('/', '/')])

  function SpansOf(members: string): seq<Span> {
    if ParseSpans(members).Some? then ParseSpans(members).value else []
  }

  lemma ConsSpanned(r: Span, rest: seq<Span>, x: char)
    ensures Spanned([r] + rest, x) <==> r.lo <= x <= r.hi || Spanned(rest, x)
  {
    var all := [r] + rest;
    if Spanned(rest, x) {
      var i :| 0 <= i < |rest| && rest[i].lo <= x <= rest[i].hi;
      assert all[i + 1] == rest[i];
    }
    if r.lo <= x <= r.hi {
      assert all[0] == r;
    }
  }

  /** RE2 reads a plain class as the characters and ranges it lists. */
  lemma {:induction false} SpansMeanClass(members: string, x: char)
    requires PlainClass(members)
    ensures ParseSpans(members).Some? && ']' !in members && '^' !in members
    ensures Spanned(SpansOf(members), x) <==> InClass(members, x)
  {
    if members != [] {
      var n := if |members| >= 3 && members[1] == '-' then 3 else 1;
      SpansMeanClass(members[n..], x);
      ConsSpanned(Span(members[0], members[n - 1]), SpansOf(members[n..]), x);
      assert members == members[..n] + members[n..];
    }
  }

  function ItemOf(t: Token): Item {
    match t
    case Star => Item(NOT_SLASH, true)
    case DoubleStar => Item(Dot, true)
    case Question => Item(NOT_SLASH, false)
    case Class(members) => Item(Set(false, SpansOf(members)), false)
    case Literal(c) => Item(Char(c), false)
  }

  function Items(g: string): seq<Item> {
    if g == [] then [] else var (t, n) := FirstToken(g); [ItemOf(t)] + Items(g[n..])
  }

  lemma IndexOfIs(g: string, c: char, n: nat)
    requires n < |g| && g[n] == c
    requires forall i :: 0 <= i < n ==> g[i] != c
    ensures IndexOf(g, c) == n
  {
  }

  predicate TokenSupported(t: Token) {
    && (t.Literal? ==> t.c != '*' && t.c != '?')
    && (t.Class? ==> t.members != [] && PlainClass(t.members))
  }

  /** The translator's text never starts with a star, so no emitted text changes the previous atom. */
  lemma EmitHead(t: Token)
    requires TokenSupported(t)
    ensures Emit(t) != [] && Emit(t)[0] != '*' && Emit(t)[0] != '$'
    ensures IsDigit(Emit(t)[0]) ==> t == Literal(Emit(t)[0])
  {
  }

  lemma ClosingBracket(open: string, members: string, tail: string)
    requires ']' !in open && ']' !in members
    ensures var t := open + members + "]" + tail;
            IndexOf(t, ']') == |open| + |members| && t[|open|..|open| + |members|] == members
  {
    IndexOfFirst(open + members, ']', tail);
    assert open + members + "]" + tail == (open + members) + [']'] + tail;
  }

  lemma ParseClass(t: string, negated: bool, members: string)
    requires members != [] && members[0] != '^' && ParseSpans(members).Some? && |t| > 1 && t[0] == '['
    requires var open := if negated then 2 else 1;
             && IndexOf(t, ']') == open + |members| < |t| && t[open..open + |members|] == members
             && (t[1] == '^' <==> negated)
    ensures ParseAtom(t) == Some((Set(negated, SpansOf(members)), IndexOf(t, ']') + 1))
  {
  }

  lemma ParseSet(members: string, negated: bool, tail: string)
    requires members != [] && members[0] != '^' && ']' !in members && ParseSpans(members).Some?
    ensures var text := (if negated then "[^" else "[") + members + "]";
            ParseAtom(text + tail) == Some((Set(negated, SpansOf(members)), |text|))
  {
    var open := if negated then "[^" else "[";
    var t := open + members + "]" + tail;
    ClosingBracket(open, members, tail);
    assert t[0] == '[' && t[1] == if negated then '^' else members[0];
    ParseClass(t, negated, members);
  }

  /** One unstarred atom. */
  lemma ParseUnstarred(text: string, a: Atom, n: nat, tail: string)
    requires text != [] && text[0] != '$' && ParseAtom(text) == Some((a, n))
    requires text[n..] == tail && tail != [] && tail[0] != '*'
    ensures ParseItems(text) == ConsItem(Item(a, false), ParseItems(tail))
  {
    assert text[n] == tail[0];
  }

  /** One starred atom. */
  lemma ParseStarred(text: string, a: Atom, n: nat, tail: string)
    requires text != [] && text[0] != '$' && ParseAtom(text) == Some((a, n))
    requires n < |text| && text[n] == '*' && text[n + 1..] == tail
    ensures ParseItems(text) == ConsItem(Item(a, true), ParseItems(tail))
  {
    assert text != "$";
  }

  lemma ParseLiteral(c: char, tail: string)
    requires c != '*' && c != '?' && tail != [] && tail[0] != '*' && (c == '{' ==> !IsDigit(tail[0]))
    ensures ParseItems(Emit(Literal(c)) + tail) == ConsItem(Item(Char(c), false), ParseItems(tail))
  {
    var text := Emit(Literal(c)) + tail;
    assert text[0] == if NeedsQuote(c) then '\\' else c;
    assert NeedsQuote(c) ==> text[1] == c;
    var n := |Emit(Literal(c))|;
    assert text[n..] == tail;
    ParseUnstarred(text, Char(c), n, tail);
  }

  lemma ParseNotSlash(tail: string)
    requires tail != []
    ensures ParseAtom("[^/]" + tail) == Some((NOT_SLASH, 4))
  {
    assert "/"[1..] == "" && ParseSpans("") == Some([]);
    assert [Span('/', '/')] + [] == [Span('/', '/')];
    ParseSet("/", true, tail);
    assert "[^" + "/" + "]" + tail == "[^/]" + tail;
  }

  lemma ParseStar(tail: string)
    ensures ParseItems("[^/]*" + tail) == ConsItem(Item(NOT_SLASH, true), ParseItems(tail))
  {
    var text := "[^/]*" + tail;
    assert text == "[^/]" + ("*" + tail);
    ParseNotSlash("*" + tail);
    ParseStarred(text, NOT_SLASH, 4, tail);
  }

  lemma ParseDoubleStar(tail: string)
    ensures ParseItems(".*" + tail) == ConsItem(Item(Dot, true), ParseItems(tail))
  {
    var text := ".*" + tail;
    assert text[0] == '.' && text[1] == '*' && text[2..] == tail;
    ParseStarred(text, Dot, 1, tail);
  }

  lemma ParseQuestion(tail: string)
    requires tail != [] && tail[0] != '*'
    ensures ParseItems("[^/]" + tail) == ConsItem(Item(NOT_SLASH, false), ParseItems(tail))
  {
    ParseNotSlash(tail);
    assert ("[^/]" + tail)[4..] == tail;
    ParseUnstarred("[^/]" + tail, NOT_SLASH, 4, tail);
  }

  lemma ParseMembers(members: string, tail: string)
    requires members != [] && PlainClass(members) && tail != [] && tail[0] != '*'
    ensures ParseItems("[" + members + "]" + tail) ==
            ConsItem(Item(Set(false, SpansOf(members)), false), ParseItems(tail))
  {
    var text := "[" + members + "]";
    SpansMeanClass(members, 'a');
    assert members[0] in members;
    ParseSet(members, false, tail);
    assert (text + tail)[|text|..] == tail;
    ParseUnstarred(text + tail, Set(false, SpansOf(members)), |text|, tail);
  }

  /** The text of one token, followed by anything that is not a star, reads back as its item. */
  lemma ParseEmit(t: Token, tail: string)
    requires TokenSupported(t)
    requires tail != [] && tail[0] != '*' && (t == Literal('{') ==> !IsDigit(tail[0]))
    ensures ParseItems(Emit(t) + tail) == ConsItem(ItemOf(t), ParseItems(tail))
  {
    match t
    case Star => ParseStar(tail);
    case DoubleStar => ParseDoubleStar(tail);
    case Question => ParseQuestion(tail);
    case Class(members) => ParseMembers(members, tail);
    case Literal(c) => ParseLiteral(c, tail);
  }

  /** RE2 reads the emitted text of a supported glob as exactly the glob's items. */
  lemma {:induction false} TranslationParses(g: string)
    requires Supported(g)
    ensures ParseItems(EmitAll(g) + "$") == Some(Items(g))
    ensures (EmitAll(g) + "$")[0] != '*'
    ensures IsDigit((EmitAll(g) + "$")[0]) ==> g != [] && IsDigit(g[0])
  {
    if g == [] {
      assert EmitAll(g) + "$" == "$";
    } else {
      var (t, n) := FirstToken(g);
      TranslationParses(g[n..]);
      EmitHead(t);
      ParseEmit(t, EmitAll(g[n..]) + "$");
      ConcatAssociates(Emit(t), EmitAll(g[n..]), "$");
    }
  }

  lemma MatchesIntro(i: Item, rest: seq<Item>, s: string, k: nat)
    requires k <= |s| && Covers(i, s[..k]) && Matches(rest, s[k..])
    ensures Matches([i] + rest, s)
  {
    assert ([i] + rest)[1..] == rest;
  }

  lemma MatchesElim(i: Item, rest: seq<Item>, s: string) returns (k: nat)
    requires Matches([i] + rest, s)
    ensures k <= |s| && Covers(i, s[..k]) && Matches(rest, s[k..])
  {
    var items := [i] + rest;
    assert items[1..] == rest && items[0] == i;
    k :| 0 <= k <= |s| && Covers(items[0], s[..k]) && Matches(items[1..], s[k..]);
  }

  lemma MatchesOne(i: Item, rest: seq<Item>, s: string)
    requires !i.starred
    ensures Matches([i] + rest, s) <==> s != [] && Accepts1(i.atom, s[0]) && Matches(rest, s[1..])
  {
    if Matches([i] + rest, s) {
      var k := MatchesElim(i, rest, s);
      assert k == 1 && s[..1][0] == s[0];
    }
    if s != [] && Accepts1(i.atom, s[0]) && Matches(rest, s[1..]) {
      assert Covers(i, s[..1]);
      MatchesIntro(i, rest, s, 1);
    }
  }

  lemma StarUnfolds(i: Item, rest: seq<Item>, s: string)
    requires i.starred && Matches([i] + rest, s)
    ensures Matches(rest, s) || (s != [] && Accepts1(i.atom, s[0]) && Matches([i] + rest, s[1..]))
  {
    var k := MatchesElim(i, rest, s);
    if k == 0 {
      assert s[0..] == s;
    } else {
      assert s[..k][0] == s[0];
      assert s[1..][k - 1..] == s[k..];
      assert s[1..][..k - 1] == s[..k][1..];
      MatchesIntro(i, rest, s[1..], k - 1);
    }
  }

  lemma TailSplits(s: string, k: nat)
    requires s != [] && k < |s|
    ensures s[1..][k..] == s[k + 1..] && s[..k + 1] == [s[0]] + s[1..][..k]
  {
  }

  lemma StarFolds(i: Item, rest: seq<Item>, s: string)
    requires i.starred && s != [] && Accepts1(i.atom, s[0]) && Matches([i] + rest, s[1..])
    ensures Matches([i] + rest, s)
  {
    var k := MatchesElim(i, rest, s[1..]);
    TailSplits(s, k);
    MatchesIntro(i, rest, s, k + 1);
  }

  lemma StarSkips(i: Item, rest: seq<Item>, s: string)
    requires i.starred && Matches(rest, s)
    ensures Matches([i] + rest, s)
  {
    assert s[0..] == s;
    MatchesIntro(i, rest, s, 0);
  }

  /** A starred item either matches nothing more or eats one character and stays. */
  lemma MatchesStar(i: Item, rest: seq<Item>, s: string)
    requires i.starred
    ensures Matches([i] + rest, s) <==>
            Matches(rest, s) || (s != [] && Accepts1(i.atom, s[0]) && Matches([i] + rest, s[1..]))
  {
    if Matches([i] + rest, s) {
      StarUnfolds(i, rest, s);
    }
    if Matches(rest, s) {
      StarSkips(i, rest, s);
    }
    if s != [] && Accepts1(i.atom, s[0]) && Matches([i] + rest, s[1..]) {
      StarFolds(i, rest, s);
    }
  }

  lemma ItemMeansToken(t: Token, x: char)
    requires t.Class? ==> PlainClass(t.members)
    ensures t.Class? ==> (Accepts1(ItemOf(t).atom, x) <==> InClass(t.members, x))
    ensures Accepts1(NOT_SLASH, x) <==> x != '/'
  {
    if t.Class? {
      SpansMeanClass(t.members, x);
    }
    ConsSpanned(Span('/', '/'), [], x);
  }

  /** The items mean exactly what the direct matcher says. */
  lemma {:induction false} ItemsMeanGlob(g: string, s: string)
    requires Supported(g)
    ensures Matches(Items(g), s) <==> GlobMatch(g, s, false)
    decreases |g|, |s|
  {
    if g != [] {
      var (t, n) := FirstToken(g);
      var i, rest := ItemOf(t), Items(g[n..]);
      if t.Star? || t.DoubleStar? {
        MatchesStar(i, rest, s);
        ItemsMeanGlob(g[n..], s);
        if s != [] {
          ItemMeansToken(t, s[0]);
          ItemsMeanGlob(g, s[1..]);
        }
      } else {
        MatchesOne(i, rest, s);
        if s != [] {
          ItemMeansToken(t, s[0]);
          ItemsMeanGlob(g[n..], s[1..]);
        }
      }
    }
  }

  /** The compiled form of a glob accepts a subject. */
  ghost predicate Accepts(g: string, s: string) {
    var p := ParseRE2("^" + EmitAll(g) + "$"); p.Some? && Matches(p.value, s)
  }

  /** The emitted pattern parses and, on every subject, accepts exactly the strings of the pattern
      language, with '*' and '?' never crossing '/' and '**' free to within one line. */
  lemma TranslationPreservesMeaning(g: string, s: string)
    requires Supported(g)
    ensures ParseRE2("^" + EmitAll(g) + "$") == Some(Items(g))
    ensures Accepts(g, s) <==> GlobMatch(g, s, false)
    ensures Accepts(g, s) <==> Shell(g, s, false)
  {
    EmittedItems(g);
    ItemsMeanGlob(g, s);
    MatcherMeansShell(g, s, false);
  }

  lemma Unanchored(t: string)
    ensures ("^" + t + "$")[0] == '^' && ("^" + t + "$")[1..] == t + "$"
  {
  }

  lemma EmittedItems(g: string)
    requires Supported(g)
    ensures ParseRE2("^" + EmitAll(g) + "$") == Some(Items(g))
  {
    TranslationParses(g);
    Unanchored(EmitAll(g));
  }

  // ----------------------------------------- the meaning, read off the pattern

  /** x is one of the characters the class lists: a member, or within one of its ranges. */
  predicate Listed(members: string, x: char) {
    if |members| >= 3 && members[1] == '-' then members[0] <= x <= members[2] || Listed(members[3..], x)
    else members != [] && (x == members[0] || Listed(members[1..], x))
  }

  /** The documented pattern language, character by character: two stars in a row, anywhere, stand for
      any text; a single star for text without '/'; '?' for one character; '[' with a later ']' for
      one of the characters between them; anything else for itself. As implemented, the text of two
      stars has no newline and the character of '?' is not '/'. */
  ghost predicate Shell(g: string, s: string, documented: bool)
    decreases |g|
  {
    if g == "" then s == ""
    else if g[0] == '*' && |g| >= 2 && g[1] == '*' then
      exists k :: 0 <= k <= |s| && (documented || '\n' !in s[..k]) && Shell(g[2..], s[k..], documented)
    else if g[0] == '*' then
      exists k :: 0 <= k <= |s| && '/' !in s[..k] && Shell(g[1..], s[k..], documented)
    else if g[0] == '?' then
      s != "" && (documented || s[0] != '/') && Shell(g[1..], s[1..], documented)
    else if g[0] == '[' && ']' in g then
      exists j :: 0 < j < |g| && g[j] == ']' && ']' !in g[..j]
                  && s != "" && Listed(g[1..j], s[0]) && Shell(g[j + 1..], s[1..], documented)
    else s != "" && s[0] == g[0] && Shell(g[1..], s[1..], documented)
  }

  lemma {:induction false} ListedIsInClass(members: string, x: char)
    ensures Listed(members, x) <==> InClass(members, x)
    decreases |members|
  {
    if members != [] {
      ListedIsInClass(members[if |members| >= 3 && members[1] == '-' then 3 else 1..], x);
    }
  }

  /** What a star of the direct matcher may eat. */
  predicate Eats(double: bool, documented: bool, part: string) {
    if double then documented || '\n' !in part else '/' !in part
  }

  /** The direct matcher's star splits the subject in two. */
  lemma {:induction false} StarSplits(g: string, s: string, documented: bool)
    requires g != [] && FirstToken(g).0 in {Star, DoubleStar}
    ensures GlobMatch(g, s, documented) <==>
            exists k :: 0 <= k <= |s| && Eats(FirstToken(g).0.DoubleStar?, documented, s[..k])
                        && GlobMatch(g[FirstToken(g).1..], s[k..], documented)
    decreases |s|
  {
    var (t, n) := FirstToken(g);
    var rest := g[n..];
    assert s[..0] == "" && s[0..] == s;
    if s != [] {
      StarSplits(g, s[1..], documented);
      forall k | 0 <= k < |s|
        ensures s[1..][k..] == s[k + 1..] && s[..k + 1] == [s[0]] + s[1..][..k]
      {
      }
      if k :| 0 < k <= |s| && Eats(t.DoubleStar?, documented, s[..k]) && GlobMatch(rest, s[k..], documented) {
        assert s[..k][0] == s[0] && s[..k] == [s[0]] + s[1..][..k - 1] && s[1..][k - 1..] == s[k..];
        assert Eats(t.DoubleStar?, documented, s[1..][..k - 1]);
        assert GlobMatch(g, s[1..], documented);
        assert s[0] in s[..k];
      }
      if GlobMatch(g, s[1..], documented) && Eats(t.DoubleStar?, documented, [s[0]]) {
        var k :| && 0 <= k <= |s[1..]| && Eats(t.DoubleStar?, documented, s[1..][..k])
                 && GlobMatch(rest, s[1..][k..], documented);
        assert s[..k + 1] == [s[0]] + s[1..][..k] && s[k + 1..] == s[1..][k..];
      }
    }
  }

  lemma ClassCloses(g: string)
    requires g != [] && g[0] == '[' && ']' in g
    ensures 0 < IndexOf(g, ']') < |g| && g[IndexOf(g, ']')] == ']' && ']' !in g[..IndexOf(g, ']')]
    ensures forall j :: 0 < j < |g| && g[j] == ']' && ']' !in g[..j] ==> j == IndexOf(g, ']')
  {
    var k := IndexOf(g, ']');
    assert forall j :: k < j < |g| ==> g[..j][k] == ']';
  }

  /** The globs covered, read off the pattern: no '{' before a digit, and every class that is closed
      lists at least one letter, digit or range of them. */
  predicate Covered(g: string) {
    g == "" ||
    if g[0] == '[' && ']' in g then
      var j := IndexOf(g, ']');
      j > 1 && PlainClass(g[1..j]) && Covered(g[j + 1..])
    else (g[0] == '{' && |g| >= 2 ==> !('0' <= g[1] <= '9')) && Covered(g[1..])
  }

  lemma {:induction false} SupportedIff(g: string)
    ensures Supported(g) <==> Covered(g)
  {
    if g != [] {
      var (t, n) := FirstToken(g);
      SupportedIff(g[n..]);
      if t.DoubleStar? {
        assert g[1..][0] == '*' && g[1..][1..] == g[2..];
        assert Covered(g[1..]) <==> Covered(g[2..]);
      }
    }
  }

  /** A glob has two stars in a row somewhere. */
  predicate HasStars(g: string) {
    exists i :: 0 <= i < |g| - 1 && g[i] == '*' && g[i + 1] == '*'
  }

  lemma {:induction false} PlainMembers(members: string)
    requires PlainClass(members)
    ensures '*' !in members && '?' !in members
  {
    if members != [] {
      var n := if |members| >= 3 && members[1] == '-' then 3 else 1;
      PlainMembers(members[n..]);
      assert members == members[..n] + members[n..];
    }
  }

  lemma ClassHasNoStar(members: string)
    requires PlainClass(members)
    ensures var text := "[" + members + "]"; '*' !in text && '?' !in text && !HasStars(text)
  {
    PlainMembers(members);
    var text := "[" + members + "]";
    assert forall i :: 0 <= i < |text| ==> text[i] in text;
  }

  lemma HasStarsSplit(a: string, b: string)
    requires a != [] && a[|a| - 1] != '*'
    ensures HasStars(a + b) <==> HasStars(a) || HasStars(b)
  {
    var s := a + b;
    if i :| 0 <= i < |a| - 1 && a[i] == '*' && a[i + 1] == '*' {
      assert s[i] == '*' && s[i + 1] == '*';
    }
    if i :| 0 <= i < |b| - 1 && b[i] == '*' && b[i + 1] == '*' {
      assert s[|a| + i] == '*' && s[|a| + i + 1] == '*';
    }
    if i :| 0 <= i < |s| - 1 && s[i] == '*' && s[i + 1] == '*' {
      if i < |a| - 1 {
        assert a[i] == '*' && a[i + 1] == '*';
      } else {
        assert i != |a| - 1;
        assert b[i - |a|] == '*' && b[i - |a| + 1] == '*';
      }
    }
  }

  lemma StarHead(g: string)
    requires g != [] && g[0] == '*' && !(|g| > 1 && g[1] == '*')
    ensures HasStars(g) <==> HasStars(g[1..])
  {
    if i :| 0 <= i < |g| - 1 && g[i] == '*' && g[i + 1] == '*' {
      assert g[1..][i - 1] == '*' && g[1..][i] == '*';
    }
    if i :| 0 <= i < |g[1..]| - 1 && g[1..][i] == '*' && g[1..][i + 1] == '*' {
      assert g[i + 1] == '*' && g[i + 2] == '*';
    }
  }

  /** The special tokens of a supported glob are its special characters. */
  lemma {:induction false} TokensAreCharacters(g: string)
    requires Supported(g)
    ensures HasToken(g, Question) <==> '?' in g
    ensures HasToken(g, DoubleStar) <==> HasStars(g)
  {
    if g != [] {
      var (t, n) := FirstToken(g);
      TokensAreCharacters(g[n..]);
      assert g == g[..n] + g[n..];
      match t
      case DoubleStar => assert g[0] == '*' && g[1] == '*' && g[..2] == "**";
      case Star =>
        StarHead(g);
        assert g[..1] == "*";
      case Class(members) =>
        assert g[..n] == "[" + members + "]";
        ClassHasNoStar(members);
        HasStarsSplit(g[..n], g[n..]);
      case _ =>
        assert g[..1] == [g[0]];
        HasStarsSplit(g[..1], g[1..]);
    }
  }

  lemma StarMeansShell(g: string, s: string, documented: bool)
    requires g != [] && g[0] == '*'
    requires var rest := g[FirstToken(g).1..];
             forall k :: 0 <= k <= |s| ==> (GlobMatch(rest, s[k..], documented) <==> Shell(rest, s[k..], documented))
    ensures GlobMatch(g, s, documented) <==> Shell(g, s, documented)
  {
    StarSplits(g, s, documented);
  }

  /** The class is closed by the first ']', so Shell reads it in one way. */
  lemma ShellClass(g: string, s: string, documented: bool)
    requires g != [] && g[0] == '[' && ']' in g
    ensures var j := IndexOf(g, ']');
            0 < j < |g| &&
            (Shell(g, s, documented) <==>
             s != "" && Listed(g[1..j], s[0]) && Shell(g[j + 1..], s[1..], documented))
  {
    ClassCloses(g);
    var k := IndexOf(g, ']');
    if Shell(g, s, documented) {
      var j :| && 0 < j < |g| && g[j] == ']' && ']' !in g[..j]
               && s != "" && Listed(g[1..j], s[0]) && Shell(g[j + 1..], s[1..], documented);
      assert j == k;
    }
    if s != "" && Listed(g[1..k], s[0]) && Shell(g[k + 1..], s[1..], documented) {
      assert 0 < k < |g| && g[k] == ']' && ']' !in g[..k];
    }
  }

  lemma ClassMeansShell(g: string, s: string, documented: bool)
    requires g != [] && g[0] == '[' && ']' in g
    requires s != [] ==> var rest := g[FirstToken(g).1..];
                         (GlobMatch(rest, s[1..], documented) <==> Shell(rest, s[1..], documented))
    ensures GlobMatch(g, s, documented) <==> Shell(g, s, documented)
  {
    ShellClass(g, s, documented);
    var j := IndexOf(g, ']');
    assert FirstToken(g) == (Class(g[1..j]), j + 1);
    if s != [] {
      ListedIsInClass(g[1..j], s[0]);
    }
  }

  /** The direct matcher means the documented pattern language, for every glob and every subject. */
  lemma {:induction false} MatcherMeansShell(g: string, s: string, documented: bool)
    ensures GlobMatch(g, s, documented) <==> Shell(g, s, documented)
    decreases |g|
  {
    if g != [] {
      var n := FirstToken(g).1;
      if g[0] == '*' {
        forall k | 0 <= k <= |s|
          ensures GlobMatch(g[n..], s[k..], documented) <==> Shell(g[n..], s[k..], documented)
        {
          MatcherMeansShell(g[n..], s[k..], documented);
        }
        StarMeansShell(g, s, documented);
      } else {
        if s != [] {
          MatcherMeansShell(g[n..], s[1..], documented);
        }
        if g[0] == '[' && ']' in g {
          ClassMeansShell(g, s, documented);
        }
      }
    }
  }

  // ----------------------------------- agreement with the documented meaning

  predicate HasToken(g: string, t: Token) {
    g != [] && var (u, n) := FirstToken(g); u == t || HasToken(g[n..], t)
  }

  /** The pattern never accepts more than documented; it accepts as much where the glob has neither
      '**' nor '?', or the subject neither a newline nor a '/'. */
  lemma {:induction false} NarrowerThanDocumented(g: string, s: string)
    ensures GlobMatch(g, s, false) ==> GlobMatch(g, s, true)
    ensures (!HasToken(g, DoubleStar) && !HasToken(g, Question)) || ('\n' !in s && '/' !in s) ==>
              (GlobMatch(g, s, true) ==> GlobMatch(g, s, false))
    decreases |g|, |s|
  {
    if g != [] {
      var (t, n) := FirstToken(g);
      if t.Star? || t.DoubleStar? {
        NarrowerThanDocumented(g[n..], s);
        if s != [] {
          NarrowerThanDocumented(g, s[1..]);
        }
      } else if s != [] {
        NarrowerThanDocumented(g[n..], s[1..]);
      }
    }
  }

  /** As many question marks. */
  function Questions(k: nat): string {
    if k == 0 then "" else "?" + Questions(k - 1)
  }

  lemma {:induction false} QuestionsMatch(s: string)
    ensures Supported(Questions(|s|)) && GlobMatch(Questions(|s|), s, true)
    ensures GlobMatch(Questions(|s|), s, false) ==> '/' !in s
  {
    if s != [] {
      QuestionsMatch(s[1..]);
      var g := Questions(|s|);
      assert g[0] == '?' && g[1..] == Questions(|s| - 1) && FirstToken(g) == (Question, 1);
    }
  }

  lemma {:induction false} DoubleStarMatches(s: string)
    ensures Supported("**") && GlobMatch("**", s, true)
    ensures GlobMatch("**", s, false) ==> '\n' !in s
  {
    assert FirstToken("**") == (DoubleStar, 2) && "**"[2..] == "";
    if s != [] {
      DoubleStarMatches(s[1..]);
      assert s == [s[0]] + s[1..] && !GlobMatch("", s, false);
    }
  }

  /** Exactly which subjects every supported glob treats as documented: those without a newline and
      without a '/'. */
  lemma SubjectAsDocumented(s: string)
    ensures (forall g :: Supported(g) ==> (Accepts(g, s) <==> Shell(g, s, true))) <==> '\n' !in s && '/' !in s
  {
    if '\n' !in s && '/' !in s {
      forall g | Supported(g)
        ensures Accepts(g, s) <==> Shell(g, s, true)
      {
        TranslationPreservesMeaning(g, s);
        NarrowerThanDocumented(g, s);
        MatcherMeansShell(g, s, true);
      }
    } else {
      var g := if '/' in s then Questions(|s|) else "**";
      QuestionsMatch(s);
      DoubleStarMatches(s);
      TranslationPreservesMeaning(g, s);
      MatcherMeansShell(g, s, true);
    }
  }

  // A glob with '**' is refuted by a subject in which '/' and newline alternate more often than
  // the pattern has items; one with '?' only, by a subject with more '/' than the glob spells out.

  function Clashes(c: char, d: char): nat {
    if (c == '/' && d == '\n') || (c == '\n' && d == '/') then 1 else 0
  }

  /** How often '/' and newline meet in a text. */
  function Alternations(s: string): nat {
    if |s| < 2 then 0 else Clashes(s[0], s[1]) + Alternations(s[1..])
  }

  lemma {:induction false} AlternationsSplit(s: string, k: nat)
    requires k <= |s|
    ensures Alternations(s) <= Alternations(s[..k]) + 1 + Alternations(s[k..])
    ensures Alternations(s[k..]) <= Alternations(s)
  {
    if k > 0 {
      AlternationsSplit(s[1..], k - 1);
      assert s[1..][k - 1..] == s[k..];
      assert s[1..][..k - 1] == s[..k][1..];
      assert k > 1 ==> s[..k][1] == s[1];
    }
  }

  /** No item of a glob spans a '/' next to a newline. */
  lemma {:induction false} CoveredDoesNotAlternate(t: Token, part: string)
    requires Covers(ItemOf(t), part)
    ensures Alternations(part) == 0
  {
    if |part| > 1 {
      assert Accepts1(ItemOf(t).atom, part[0]) && Accepts1(ItemOf(t).atom, part[1]);
      ItemMeansToken(Star, part[0]);
      ItemMeansToken(Star, part[1]);
      CoveredDoesNotAlternate(t, part[1..]);
    }
  }

  lemma {:induction false} MatchedAlternations(g: string, s: string)
    requires Matches(Items(g), s)
    ensures Alternations(s) <= |Items(g)|
  {
    if g != [] {
      var (t, n) := FirstToken(g);
      var k := MatchesElim(ItemOf(t), Items(g[n..]), s);
      CoveredDoesNotAlternate(t, s[..k]);
      MatchedAlternations(g[n..], s[k..]);
      AlternationsSplit(s, k);
    }
  }

  function Slashes(s: string): nat {
    if s == [] then 0 else (if s[0] == '/' then 1 else 0) + Slashes(s[1..])
  }

  /** The '/' a glob spells out. */
  function OwnSlashes(g: string): nat {
    if g == [] then 0 else var (t, n) := FirstToken(g); (if t == Literal('/') then 1 else 0) + OwnSlashes(g[n..])
  }

  lemma {:induction false} PlainHasNoSlash(members: string)
    requires PlainClass(members)
    ensures !InClass(members, '/')
  {
    if members != [] {
      PlainHasNoSlash(members[if |members| >= 3 && members[1] == '-' then 3 else 1..]);
    }
  }

  /** Without '**', the implemented matcher accepts '/' only where the glob spells it out. */
  lemma {:induction false} MatchedSlashes(g: string, s: string)
    requires Supported(g) && !HasToken(g, DoubleStar) && GlobMatch(g, s, false)
    ensures Slashes(s) == OwnSlashes(g)
    decreases |g|, |s|
  {
    if g != [] {
      var (t, n) := FirstToken(g);
      if !t.Star? {
        if t.Class? {
          PlainHasNoSlash(t.members);
        }
        MatchedSlashes(g[n..], s[1..]);
      } else if GlobMatch(g[n..], s, false) {
        MatchedSlashes(g[n..], s);
      } else {
        MatchedSlashes(g, s[1..]);
      }
    }
  }

  /** A text in which '/' and newline alternate k times. */
  function Zigzag(k: nat): (z: string)
    ensures |z| == k + 1 && z[0] == if k % 2 == 0 then '/' else '\n'
  {
    if k == 0 then "/" else [if k % 2 == 0 then '/' else '\n'] + Zigzag(k - 1)
  }

  lemma {:induction false} ZigzagAlternates(k: nat, rest: string)
    ensures Alternations(Zigzag(k) + rest) >= k
  {
    if k > 0 {
      ZigzagAlternates(k - 1, rest);
      var z := Zigzag(k) + rest;
      assert z[1..] == Zigzag(k - 1) + rest && z[1] == Zigzag(k - 1)[0];
    }
  }

  /** A subject the documented meaning of g accepts: k alternations for each '**', '/' for each '?'. */
  function Instance(g: string, k: nat): string {
    if g == [] then ""
    else var (t, n) := FirstToken(g); Part(t, k) + Instance(g[n..], k)
  }

  function Part(t: Token, k: nat): string {
    match t
    case Star => ""
    case DoubleStar => Zigzag(k)
    case Question => "/"
    case Class(members) => if members == [] then "" else [members[0]]
    case Literal(c) => [c]
  }

  lemma {:induction false} DoubleStarEats(g: string, part: string, rest: string)
    requires g != [] && FirstToken(g).0.DoubleStar? && GlobMatch(g[FirstToken(g).1..], rest, true)
    ensures GlobMatch(g, part + rest, true)
  {
    if part == [] {
      assert part + rest == rest;
    } else {
      DoubleStarEats(g, part[1..], rest);
      assert (part + rest)[1..] == part[1..] + rest;
    }
  }

  lemma {:induction false} InstanceMatches(g: string, k: nat)
    requires Supported(g)
    ensures GlobMatch(g, Instance(g, k), true)
  {
    if g != [] {
      var (t, n) := FirstToken(g);
      var part, rest := Part(t, k), Instance(g[n..], k);
      InstanceMatches(g[n..], k);
      if t.DoubleStar? {
        DoubleStarEats(g, part, rest);
      } else if t.Star? {
        assert part + rest == rest;
      } else {
        assert (part + rest)[0] == part[0] && (part + rest)[1..] == rest;
      }
    }
  }

  lemma {:induction false} InstanceAlternates(g: string, k: nat)
    requires HasToken(g, DoubleStar)
    ensures Alternations(Instance(g, k)) >= k
  {
    var (t, n) := FirstToken(g);
    var part, rest := Part(t, k), Instance(g[n..], k);
    if t.DoubleStar? {
      ZigzagAlternates(k, rest);
    } else {
      InstanceAlternates(g[n..], k);
      AlternationsSplit(part + rest, |part|);
      assert (part + rest)[|part|..] == rest;
    }
  }

  lemma {:induction false} InstanceSlashes(g: string, k: nat)
    requires Supported(g) && !HasToken(g, DoubleStar)
    ensures Slashes(Instance(g, k)) >= OwnSlashes(g) + if HasToken(g, Question) then 1 else 0
  {
    if g != [] {
      var (t, n) := FirstToken(g);
      var part, rest := Part(t, k), Instance(g[n..], k);
      InstanceSlashes(g[n..], k);
      if t.Star? {
        assert part + rest == rest;
      } else {
        assert (part + rest)[0] == part[0] && (part + rest)[1..] == rest;
      }
    }
  }

  /** A subject on which a supported glob with '**' or '?' departs from the documentation. */
  lemma Departs(g: string) returns (s: string)
    requires Supported(g) && (HasToken(g, DoubleStar) || HasToken(g, Question))
    ensures GlobMatch(g, s, true) && !GlobMatch(g, s, false)
  {
    var k := |Items(g)| + 1;
    s := Instance(g, k);
    InstanceMatches(g, k);
    if HasToken(g, DoubleStar) {
      InstanceAlternates(g, k);
      ItemsMeanGlob(g, s);
      if GlobMatch(g, s, false) {
        MatchedAlternations(g, s);
      }
    } else {
      InstanceSlashes(g, k);
      if GlobMatch(g, s, false) {
        MatchedSlashes(g, s);
      }
    }
  }

  /** Exactly which supported globs mean what is documented on every subject: those with neither two
      stars in a row nor a '?'. */
  lemma GlobAsDocumented(g: string)
    requires Supported(g)
    ensures (forall s :: Accepts(g, s) <==> Shell(g, s, true)) <==> !HasStars(g) && '?' !in g
  {
    TokensAreCharacters(g);
    if !HasStars(g) && '?' !in g {
      forall s
        ensures Accepts(g, s) <==> Shell(g, s, true)
      {
        TranslationPreservesMeaning(g, s);
        NarrowerThanDocumented(g, s);
        MatcherMeansShell(g, s, true);
      }
    } else {
      var s := Departs(g);
      TranslationPreservesMeaning(g, s);
      MatcherMeansShell(g, s, true);
    }
  }

  /** The two smallest departures: '**' rejects a lone newline and '?' rejects a lone '/'. */
  lemma DocumentedButRejected()
    ensures Shell("**", "\n", true) && !Accepts("**", "\n")
    ensures Shell("?", "/", true) && !Accepts("?", "/")
  {
    DoubleStarMatches("\n");
    TranslationPreservesMeaning("**", "\n");
    MatcherMeansShell("**", "\n", true);
    assert Questions(1) == "?" && '/' in "/" && '\n' in "\n";
    QuestionsMatch("/");
    TranslationPreservesMeaning("?", "/");
    MatcherMeansShell("?", "/", true);
  }
}
