// The two shared caches: Env.compile's program cache (a read-locked lookup, an
// unlocked compilation, a write-locked store) and matchGlob's sync.Map. Both are
// the same protocol over an arbitrary deterministic producer.
module Caches {
  import opened Prelude
  import opened Transitions
  import opened Policy
  import Glob

  /** One call: about to look up, or holding what it compiled after a miss. */
  datatype Call<K, V> = AtLookup(key: K) | AtStore(key: K, made: V)

  datatype State<K, V> = State(cache: map<K, V>, calls: map<nat, Call<K, V>>, answers: seq<(K, Option<V>)>)

  datatype Step<K> = Begin(t: nat, key: K) | Lookup(t: nat) | Store(t: nat)

  predicate Enabled<K(==), V(==)>(s: State<K, V>, a: Step<K>) {
    match a
    case Begin(t, _) => t !in s.calls
    case Lookup(t) => t in s.calls && s.calls[t].AtLookup?
    case Store(t) => t in s.calls && s.calls[t].AtStore?
  }

  /** A hit answers from the cache; a miss produces afresh, answers a failure at once, and
      stores a success before answering it. */
  function Apply<K(==), V(==)>(make: K -> Option<V>, s: State<K, V>, a: Step<K>): State<K, V>
    requires Enabled(s, a)
  {
    match a
    case Begin(t, key) => s.(calls := s.calls[t := AtLookup(key)])
    case Lookup(t) =>
      var k := s.calls[t].key;
      if k in s.cache then State(s.cache, s.calls - {t}, s.answers + [(k, Some(s.cache[k]))])
      else if make(k).None? then State(s.cache, s.calls - {t}, s.answers + [(k, None)])
      else s.(calls := s.calls[t := AtStore(k, make(k).value)])
    case Store(t) =>
      var k, v := s.calls[t].key, s.calls[t].made;
      State(s.cache[k := v], s.calls - {t}, s.answers + [(k, Some(v))])
  }

  function Next<K(==), V(==)>(make: K -> Option<V>): (State<K, V>, Step<K>) -> Option<State<K, V>> {
    (s: State<K, V>, a: Step<K>) => if Enabled(s, a) then Some(Apply(make, s, a)) else None
  }

  /** Cached entries, values about to be stored and past answers are all what a fresh production yields. */
  predicate Transparent<K(==), V(==)>(make: K -> Option<V>, s: State<K, V>) {
    && (forall k :: k in s.cache ==> make(k) == Some(s.cache[k]))
    && (forall t :: t in s.calls && s.calls[t].AtStore? ==> make(s.calls[t].key) == Some(s.calls[t].made))
    && (forall i :: 0 <= i < |s.answers| ==> s.answers[i].1 == make(s.answers[i].0))
  }

  /** From an empty cache, every answer of every interleaving is what a fresh production yields. */
  lemma RunTransparent<K, V>(make: K -> Option<V>, run: seq<Step<K>>)
    requires Runs(Next(make), State(map[], map[], []), run)
    ensures Transparent(make, Exec(Next(make), State(map[], map[], []), run))
  {
    RunsKeep(Next(make), (s: State<K, V>) => Transparent(make, s), State(map[], map[], []), run);
  }

  // ----------------------------------------------------------- CEL programs

  /** cacheKey: scope, expected type and source. */
  datatype ProgramKey = ProgramKey(scope: Scope, kind: Kind, src: string)

  function Compiler(cel: Cel): ProgramKey -> Option<Program> {
    (k: ProgramKey) =>
      if cel.compiles(k.scope, k.kind, k.src) then Some(Program(k.scope, k.kind, k.src)) else None
  }

  /** From an empty cache, under any interleaving of compile calls: each call succeeds exactly when
      a fresh compilation would, and the program it gets has its own scope, type and source. */
  lemma CompileIsTransparent(cel: Cel, run: seq<Step<ProgramKey>>)
    requires Runs(Next(Compiler(cel)), State(map[], map[], []), run)
    ensures var s := Exec(Next(Compiler(cel)), State(map[], map[], []), run);
            && (forall k :: k in s.cache ==> s.cache[k] == Program(k.scope, k.kind, k.src))
            && (forall i :: 0 <= i < |s.answers| ==>
                  var (k, p) := s.answers[i];
                  && (p.Some? <==> cel.compiles(k.scope, k.kind, k.src))
                  && (p.Some? ==> p.value == Program(k.scope, k.kind, k.src)))
  {
    var start: State<ProgramKey, Program> := State(map[], map[], []);
    RunTransparent(Compiler(cel), run);
    var s := Exec(Next(Compiler(cel)), start, run);
    forall i | 0 <= i < |s.answers|
      ensures s.answers[i].1 == Compiler(cel)(s.answers[i].0)
    {
    }
  }

  // ------------------------------------------------------------------ globs

  /** regexp.Compile(globRE2(pattern)), for any regexp compiler. */
  function GlobCompiler<R>(regexp: string -> Option<R>): string -> Option<R> {
    (g: string) => regexp("^" + Glob.EmitAll(g) + "$")
  }

  /** matchGlob: a pattern that does not compile matches nothing. */
  predicate Answer<R>(re: Option<R>, accepts: (R, string) -> bool, subject: string) {
    re.Some? && accepts(re.value, subject)
  }

  /** Whatever the cache went through, matchGlob answers as it would with no cache, for every pattern
      and every regexp library. */
  lemma MatchGlobIsTransparent<R>(regexp: string -> Option<R>, accepts: (R, string) -> bool,
                                  run: seq<Step<string>>, i: nat, subject: string)
    requires Runs(Next(GlobCompiler(regexp)), State(map[], map[], []), run)
    requires i < |Exec(Next(GlobCompiler(regexp)), State(map[], map[], []), run).answers|
    ensures var (g, re) := Exec(Next(GlobCompiler(regexp)), State(map[], map[], []), run).answers[i];
            Answer(re, accepts, subject) <==> Answer(regexp("^" + Glob.EmitAll(g) + "$"), accepts, subject)
  {
    RunTransparent(GlobCompiler(regexp), run);
    var (g, re) := Exec(Next(GlobCompiler(regexp)), State(map[], map[], []), run).answers[i];
    assert re == GlobCompiler(regexp)(g);
  }

  /** With RE2, a supported glob therefore always means the pattern language. */
  lemma CachedGlobMeaning(run: seq<Step<string>>, i: nat, subject: string)
    requires Runs(Next(GlobCompiler(Glob.ParseRE2)), State(map[], map[], []), run)
    requires i < |Exec(Next(GlobCompiler(Glob.ParseRE2)), State(map[], map[], []), run).answers|
    ensures var (g, re) := Exec(Next(GlobCompiler(Glob.ParseRE2)), State(map[], map[], []), run).answers[i];
            Glob.Supported(g) ==> re.Some? && (Glob.Matches(re.value, subject) <==> Glob.Shell(g, subject, false))
  {
    RunTransparent(GlobCompiler(Glob.ParseRE2), run);
    var (g, re) := Exec(Next(GlobCompiler(Glob.ParseRE2)), State(map[], map[], []), run).answers[i];
    assert re == GlobCompiler(Glob.ParseRE2)(g);
    if Glob.Supported(g) {
      Glob.TranslationPreservesMeaning(g, subject);
    }
  }
}
