/** The pattern import extractor (GIT-BE/fs_service.py, `JS_IMPORT_RE` and
    `get_js_imports`).

    The pattern is
        (?:import\s+.*?\s+from\s+['"](.*?)['"]|require\(['"](.*?)['"]\))
    and `finditer` scans it left to right. Instead of a general regular
    expression engine, this module matches that one pattern the way a
    backtracking engine does: the first alternative before the second,
    greedy `\s+` trying its longest run first, lazy `.*?` trying its
    shortest span first. `.` is any character but a newline; `\s` is
    Python's Unicode whitespace, which includes the newline. */
module JsImports {
  import opened Wrappers

  /** Which alternative of the pattern matched. */
  datatype Form = ImportFromForm | RequireForm

  /** A match: the matched span [start, end) and the span [capStart, capEnd)
      of the capture group of the alternative that matched. */
  datatype Match = Match(start: nat, end: nat, capStart: nat, capEnd: nat, form: Form)

  /** `\s`: the characters Python's `str.isspace` accepts. */
  predicate IsSpace(c: char)
  {
    c == ' ' || '\t' <= c <= '\r' || '\U{1c}' <= c <= '\U{1f}' || c == '\U{85}' || c == '\U{a0}' ||
    c == '\U{1680}' || '\U{2000}' <= c <= '\U{200a}' || c == '\U{2028}' || c == '\U{2029}' ||
    c == '\U{202f}' || c == '\U{205f}' || c == '\U{3000}'
  }

  /** `['"]`: the opening and the closing quote are matched independently. */
  predicate IsQuote(c: char)
  {
    c == '\'' || c == '"'
  }

  ghost predicate AllSpace(s: string, i: nat, j: nat)
    requires i <= j <= |s|
  {
    forall k :: i <= k < j ==> IsSpace(s[k])
  }

  ghost predicate NoNewline(s: string, i: nat, j: nat)
    requires i <= j <= |s|
  {
    forall k :: i <= k < j ==> s[k] != '\n'
  }

  ghost predicate NoQuote(s: string, i: nat, j: nat)
    requires i <= j <= |s|
  {
    forall k :: i <= k < j ==> !IsQuote(s[k])
  }

  // ---------------------------------------------------------------------
  // What the pattern accepts, as a language: a parse of each alternative
  // at position p, with every split point named.

  /** `import\s+.*?\s+from\s+['"](.*?)['"]` matches s[p..c+1]: `\s+` ends at
      x0, `.*?` at x1, `from` starts at f, the quotes are at g and c. */
  ghost predicate ImportFromParse(s: string, p: nat, x0: nat, x1: nat, f: nat, g: nat, c: nat)
  {
    p + 6 < x0 <= x1 < f && f + 4 < g < c < |s| &&
    s[p..p + 6] == "import" && AllSpace(s, p + 6, x0) && NoNewline(s, x0, x1) &&
    AllSpace(s, x1, f) && s[f..f + 4] == "from" && AllSpace(s, f + 4, g) &&
    IsQuote(s[g]) && NoNewline(s, g + 1, c) && IsQuote(s[c])
  }

  /** `\s+from\s+['"](.*?)['"]` matches s[e..c+1]. */
  ghost predicate TailParse(s: string, e: nat, f: nat, g: nat, c: nat)
  {
    e < f && f + 4 < g < c < |s| &&
    AllSpace(s, e, f) && s[f..f + 4] == "from" && AllSpace(s, f + 4, g) &&
    IsQuote(s[g]) && NoNewline(s, g + 1, c) && IsQuote(s[c])
  }

  /** `require\(['"](.*?)['"]\)` matches s[p..c+2]. */
  ghost predicate RequireParse(s: string, p: nat, c: nat)
  {
    p + 9 <= c && c + 1 < |s| && s[p..p + 8] == "require(" && IsQuote(s[p + 8]) &&
    NoNewline(s, p + 9, c) && IsQuote(s[c]) && s[c + 1] == ')'
  }

  // ---------------------------------------------------------------------
  // The matcher.

  /** Where the run of whitespace starting at i ends. */
  function SpaceRunEnd(s: string, i: nat): (j: nat)
    requires i <= |s|
    ensures i <= j <= |s| && AllSpace(s, i, j)
    ensures j == |s| || !IsSpace(s[j])
    decreases |s| - i
  {
    if i < |s| && IsSpace(s[i]) then SpaceRunEnd(s, i + 1) else i
  }

  /** Lazy `(.*?)` followed by `['"]`: the first quote at or after i,
      unless a newline comes before it. */
  function QuoteAfter(s: string, i: nat): (q: Option<nat>)
    requires i <= |s|
    ensures q.Some? ==> i <= q.value < |s| && IsQuote(s[q.value]) &&
                        NoNewline(s, i, q.value) && NoQuote(s, i, q.value)
    ensures q.None? ==> forall c :: i <= c < |s| && IsQuote(s[c]) ==> !NoNewline(s, i, c)
    decreases |s| - i
  {
    if i == |s| || s[i] == '\n' then None
    else if IsQuote(s[i]) then Some(i)
    else QuoteAfter(s, i + 1)
  }

  /** `\s+from\s+['"](.*?)['"]` tried at e. Only the longest run of each
      `\s+` can be followed by `f` or a quote, so backtracking into them
      never helps and the outcome depends on e alone. */
  function FromTail(s: string, e: nat): (r: Option<(nat, nat, nat)>)
    requires e <= |s|
    ensures r.Some? ==> TailParse(s, e, r.value.0, r.value.1, r.value.2) &&
                        NoQuote(s, r.value.1 + 1, r.value.2)
  {
    var f := SpaceRunEnd(s, e);
    if f == e || f + 4 > |s| || s[f..f + 4] != "from" then None
    else
      var g := SpaceRunEnd(s, f + 4);
      if g == f + 4 || g == |s| || !IsQuote(s[g]) then None
      else
        match QuoteAfter(s, g + 1)
        case None => None
        case Some(c) => Some((f, g, c))
  }

  /** Lazy `.*?` whose span has reached e: the tail is tried at e, then the
      span is widened by one character, which must not be a newline. */
  function SearchX(s: string, e: nat): (r: Option<(nat, nat, nat, nat)>)
    requires e <= |s|
    ensures r.Some? ==> e <= r.value.0 <= |s| && NoNewline(s, e, r.value.0) &&
                        TailParse(s, r.value.0, r.value.1, r.value.2, r.value.3) &&
                        NoQuote(s, r.value.2 + 1, r.value.3)
    decreases |s| - e
  {
    match FromTail(s, e)
    case Some((f, g, c)) => Some((e, f, g, c))
    case None => if e < |s| && s[e] != '\n' then SearchX(s, e + 1) else None
  }

  /** Greedy `\s+` after `import`: k whitespace characters first, then one
      fewer, down to one. */
  function SearchWs(s: string, p: nat, k: nat): (r: Option<(nat, nat, nat, nat, nat)>)
    requires 1 <= k && p + 6 + k <= |s| && AllSpace(s, p + 6, p + 6 + k)
    ensures r.Some? ==> p + 6 < r.value.0 <= p + 6 + k && r.value.0 <= r.value.1 <= |s| &&
                        AllSpace(s, p + 6, r.value.0) && NoNewline(s, r.value.0, r.value.1) &&
                        TailParse(s, r.value.1, r.value.2, r.value.3, r.value.4) &&
                        NoQuote(s, r.value.3 + 1, r.value.4)
    decreases k
  {
    match SearchX(s, p + 6 + k)
    case Some((x1, f, g, c)) => Some((p + 6 + k, x1, f, g, c))
    case None => if k > 1 then SearchWs(s, p, k - 1) else None
  }

  /** The first alternative at p, as the split points (x0, x1, f, g, c) of
      the parse a backtracking engine reports. */
  function ImportFromSearch(s: string, p: nat): (r: Option<(nat, nat, nat, nat, nat)>)
    ensures r.Some? ==> ImportFromParse(s, p, r.value.0, r.value.1, r.value.2, r.value.3, r.value.4) &&
                        NoQuote(s, r.value.3 + 1, r.value.4)
  {
    if p + 6 <= |s| && s[p..p + 6] == "import" then
      var k := SpaceRunEnd(s, p + 6) - (p + 6);
      if k == 0 then None else SearchWs(s, p, k)
    else None
  }

  /** The lazy `(.*?)` of `require(...)`: the first quote at or after c that
      is directly followed by `)`, unless a newline comes before it. */
  function RequireClose(s: string, i: nat, c: nat): (r: Option<nat>)
    requires i <= c <= |s| && NoNewline(s, i, c)
    ensures r.Some? ==> c <= r.value && r.value + 1 < |s| && IsQuote(s[r.value]) && s[r.value + 1] == ')' &&
                        NoNewline(s, i, r.value)
    ensures r.Some? ==> forall k :: c <= k < r.value ==> !(IsQuote(s[k]) && s[k + 1] == ')')
    decreases |s| - c
  {
    if c + 1 < |s| && IsQuote(s[c]) && s[c + 1] == ')' then Some(c)
    else if c < |s| && s[c] != '\n' then RequireClose(s, i, c + 1)
    else None
  }

  /** The second alternative at p. */
  function RequireAt(s: string, p: nat): (r: Option<Match>)
    ensures r.Some? ==> r.value.form == RequireForm && r.value.start == p &&
                        r.value.capStart == p + 9 && r.value.end == r.value.capEnd + 2 &&
                        RequireParse(s, p, r.value.capEnd)
    ensures r.Some? ==> forall k :: p + 9 <= k < r.value.capEnd ==> !(IsQuote(s[k]) && s[k + 1] == ')')
  {
    if p + 9 <= |s| && s[p..p + 8] == "require(" && IsQuote(s[p + 8]) then
      match RequireClose(s, p + 9, p + 9)
      case None => None
      case Some(c) => Some(Match(p, c + 2, p + 9, c, RequireForm))
    else None
  }

  /** The first alternative at p, as a match. */
  function ImportFromAt(s: string, p: nat): (r: Option<Match>)
    ensures r.Some? <==> ImportFromSearch(s, p).Some?
    ensures r.Some? ==> r.value.form == ImportFromForm && r.value.start == p &&
                        r.value.capStart == ImportFromSearch(s, p).value.3 + 1 &&
                        r.value.capEnd == ImportFromSearch(s, p).value.4 &&
                        r.value.end == r.value.capEnd + 1
  {
    match ImportFromSearch(s, p)
    case None => None
    case Some((x0, x1, f, g, c)) => Some(Match(p, c + 1, g + 1, c, ImportFromForm))
  }

  /** The whole pattern at p: the first alternative, else the second. */
  function MatchAt(s: string, p: nat): (r: Option<Match>)
    ensures r.Some? ==> r.value.start == p && p <= r.value.capStart <= r.value.capEnd < r.value.end <= |s|
    ensures r.Some? ==> NoNewline(s, r.value.capStart, r.value.capEnd)
    ensures r.Some? && r.value.form == ImportFromForm ==> NoQuote(s, r.value.capStart, r.value.capEnd)
  {
    var first := ImportFromAt(s, p);
    if first.Some? then first else RequireAt(s, p)
  }

  /** `search` from pos: the match at the leftmost position that has one. */
  function NextMatch(s: string, pos: nat): (r: Option<Match>)
    requires pos <= |s|
    ensures r.Some? ==> pos <= r.value.start && MatchAt(s, r.value.start) == r
    ensures forall q :: pos <= q < (if r.Some? then r.value.start else |s| + 1) ==> MatchAt(s, q).None?
    decreases |s| - pos
  {
    var m := MatchAt(s, pos);
    if m.Some? then m
    else if pos < |s| then NextMatch(s, pos + 1)
    else None
  }

  /** `finditer` from pos: each search resumes where the previous match ended. */
  function MatchesFrom(s: string, pos: nat): (ms: seq<Match>)
    requires pos <= |s|
    ensures forall m :: m in ms ==> pos <= m.start && MatchAt(s, m.start) == Some(m)
    decreases |s| - pos
  {
    match NextMatch(s, pos)
    case None => []
    case Some(m) => [m] + MatchesFrom(s, m.end)
  }

  /** The captured text of each match, the empty ones dropped
      (`m.group(1) or m.group(2)`, then `if mod`). */
  function ModulesOf(s: string, ms: seq<Match>): seq<string>
    requires forall m :: m in ms ==> m.capStart <= m.capEnd <= |s|
  {
    if ms == [] then []
    else
      var mod := s[ms[0].capStart..ms[0].capEnd];
      (if mod != "" then [mod] else []) + ModulesOf(s, ms[1..])
  }

  /** `get_js_imports` as a value. */
  function JsImports(code: string): seq<string>
  {
    ModulesOf(code, MatchesFrom(code, 0))
  }

  lemma {:induction false} ModulesOfAppend(s: string, a: seq<Match>, b: seq<Match>)
    requires forall m :: m in a + b ==> m.capStart <= m.capEnd <= |s|
    ensures ModulesOf(s, a + b) == ModulesOf(s, a) + ModulesOf(s, b)
  {
    if a == [] {
      assert a + b == b;
    } else {
      var mod := s[a[0].capStart..a[0].capEnd];
      var head := if mod != "" then [mod] else [];
      assert (a + b)[0] == a[0];
      assert (a + b)[1..] == a[1..] + b;
      calc {
        ModulesOf(s, a + b);
        head + ModulesOf(s, a[1..] + b);
        { ModulesOfAppend(s, a[1..], b); }
        head + (ModulesOf(s, a[1..]) + ModulesOf(s, b));
        (head + ModulesOf(s, a[1..])) + ModulesOf(s, b);
      }
    }
  }

  /** The captures of the reported matches all lie within the input. */
  lemma MatchesInBounds(s: string, pos: nat)
    requires pos <= |s|
    ensures forall m :: m in MatchesFrom(s, pos) ==> m.capStart <= m.capEnd <= |s|
  {
    forall m | m in MatchesFrom(s, pos) ensures m.capStart <= m.capEnd <= |s| {
      assert MatchAt(s, m.start) == Some(m);
    }
  }

  /** `get_js_imports`: the loop over the matches `finditer` yields. */
  method GetJsImports(code: string) returns (imports: seq<string>)
    ensures imports == JsImports(code)
  {
    var matches := MatchesFrom(code, 0);
    MatchesInBounds(code, 0);
    imports := CollectModules(code, matches);
  }

  /** The loop body on each match in turn: its captured text, kept when
      non-empty. */
  method CollectModules(code: string, matches: seq<Match>) returns (imports: seq<string>)
    requires forall m :: m in matches ==> m.capStart <= m.capEnd <= |code|
    ensures imports == ModulesOf(code, matches)
  {
    imports := [];
    for i := 0 to |matches|
      invariant imports == ModulesOf(code, matches[..i])
    {
      var m := matches[i];
      assert matches[..i + 1] == matches[..i] + [m];
      ModulesOfAppend(code, matches[..i], [m]);
      var mod := code[m.capStart..m.capEnd];
      if mod != "" {
        imports := imports + [mod];
      }
    }
    assert matches[..|matches|] == matches;
  }

  // ---------------------------------------------------------------------
  // Properties.

  lemma RunEndAt(s: string, i: nat, j: nat)
    requires i <= j < |s| && AllSpace(s, i, j) && !IsSpace(s[j])
    ensures SpaceRunEnd(s, i) == j
  {
  }

  /** A run of spaces from i reaches at least as far as any all-space
      stretch starting at i. */
  lemma {:induction false} SpaceRunCovers(s: string, i: nat, x: nat)
    requires i <= x <= |s| && AllSpace(s, i, x)
    ensures x <= SpaceRunEnd(s, i)
    decreases |s| - i
  {
    if i < x {
      SpaceRunCovers(s, i + 1, x);
    }
  }

  lemma {:induction false} QuoteAfterFinds(s: string, i: nat, c: nat)
    requires i <= c < |s| && IsQuote(s[c]) && NoNewline(s, i, c)
    ensures QuoteAfter(s, i).Some? && QuoteAfter(s, i).value <= c
  {
  }

  /** The tail is decided by e alone: if it can match at e, the matcher finds it. */
  lemma FromTailComplete(s: string, e: nat, f: nat, g: nat, c: nat)
    requires e <= |s| && TailParse(s, e, f, g, c)
    ensures FromTail(s, e).Some? && FromTail(s, e).value.0 == f && FromTail(s, e).value.1 == g
    ensures FromTail(s, e).value.2 <= c
  {
    assert !IsSpace(s[f]) by { assert s[f] == s[f..f + 4][0] == 'f'; }
    RunEndAt(s, e, f);
    RunEndAt(s, f + 4, g);
    QuoteAfterFinds(s, g + 1, c);
  }

  lemma SearchXFirst(s: string, e: nat, x1: nat, f: nat, g: nat, c: nat)
    requires e <= x1 <= |s| && NoNewline(s, e, x1) && TailParse(s, x1, f, g, c)
    ensures SearchX(s, e).Some? && SearchX(s, e).value.0 <= x1
    ensures SearchX(s, e).value.0 == x1 ==>
              SearchX(s, e).value.1 == f && SearchX(s, e).value.2 == g && SearchX(s, e).value.3 <= c
  {
    FromTailComplete(s, x1, f, g, c);
    SearchXReaches(s, e, x1);
  }

  /** The search for `\s+from` stops at the latest at x1, where the tail
      matches, and reports that tail's parse if it gets there. */
  lemma {:induction false} SearchXReaches(s: string, e: nat, x1: nat)
    requires e <= x1 <= |s| && NoNewline(s, e, x1) && FromTail(s, x1).Some?
    ensures SearchX(s, e).Some? && SearchX(s, e).value.0 <= x1
    ensures SearchX(s, e).value.0 == x1 ==>
              SearchX(s, e).value == (x1, FromTail(s, x1).value.0, FromTail(s, x1).value.1, FromTail(s, x1).value.2)
    decreases |s| - e
  {
    var here := FromTail(s, e);
    if here.Some? {
      assert SearchX(s, e) == Some((e, here.value.0, here.value.1, here.value.2));
      assert SearchX(s, e).value.0 == x1 ==> here == FromTail(s, x1);
    } else {
      assert e < x1;
      assert s[e] != '\n';
      SearchXReaches(s, e + 1, x1);
      assert SearchX(s, e) == SearchX(s, e + 1);
    }
  }

  /** The engine's order on parses of the first alternative: a longer first
      `\s+` is tried first, then a shorter `.*?`, then a shorter capture. */
  predicate TriedFirst(r: (nat, nat, nat, nat, nat), x0: nat, x1: nat, f: nat, g: nat, c: nat)
  {
    r.0 > x0 || (r.0 == x0 && (r.1 < x1 || (r.1 == x1 && r.2 == f && r.3 == g && r.4 <= c)))
  }

  lemma {:induction false} SearchWsFirst(s: string, p: nat, k: nat, x0: nat, x1: nat, f: nat, g: nat, c: nat)
    requires 1 <= k && p + 6 + k <= |s| && AllSpace(s, p + 6, p + 6 + k)
    requires p + 6 < x0 <= p + 6 + k && x0 <= x1 <= |s| && NoNewline(s, x0, x1) && TailParse(s, x1, f, g, c)
    ensures SearchWs(s, p, k).Some? && TriedFirst(SearchWs(s, p, k).value, x0, x1, f, g, c)
    decreases k
  {
    var e := p + 6 + k;
    if x0 == e {
      SearchXFirst(s, x0, x1, f, g, c);
    }
    var here := SearchX(s, e);
    if here.Some? {
      assert SearchWs(s, p, k).value == (e, here.value.0, here.value.1, here.value.2, here.value.3);
    } else {
      assert x0 < e && k > 1;
      assert SearchWs(s, p, k) == SearchWs(s, p, k - 1);
      assert AllSpace(s, p + 6, p + 6 + (k - 1));
      SearchWsFirst(s, p, k - 1, x0, x1, f, g, c);
    }
  }

  /** The first alternative matches at p exactly when the pattern can match
      there, and the parse reported is the one a backtracking engine tries
      first: the longest first `\s+`, then the shortest `.*?`, then the
      shortest capture. */
  lemma ImportFromReportsFirstParse(s: string, p: nat, x0: nat, x1: nat, f: nat, g: nat, c: nat)
    requires ImportFromParse(s, p, x0, x1, f, g, c)
    ensures ImportFromSearch(s, p).Some? && TriedFirst(ImportFromSearch(s, p).value, x0, x1, f, g, c)
  {
    var run := SpaceRunEnd(s, p + 6);
    SpaceRunCovers(s, p + 6, x0);
    assert TailParse(s, x1, f, g, c);
    SearchWsFirst(s, p, run - (p + 6), x0, x1, f, g, c);
    assert ImportFromSearch(s, p) == SearchWs(s, p, run - (p + 6));
  }

  lemma {:induction false} RequireCloseFinds(s: string, i: nat, k: nat, c: nat)
    requires i <= k <= c && c + 1 < |s| && NoNewline(s, i, c) && IsQuote(s[c]) && s[c + 1] == ')'
    ensures RequireClose(s, i, k).Some? && RequireClose(s, i, k).value <= c
    decreases c - k
  {
    if !(k + 1 < |s| && IsQuote(s[k]) && s[k + 1] == ')') {
      RequireCloseFinds(s, i, k + 1, c);
    }
  }

  /** The second alternative matches at p exactly when the pattern can match
      there, and its capture is the shortest possible. */
  lemma RequireReportsShortestCapture(s: string, p: nat, c: nat)
    requires RequireParse(s, p, c)
    ensures RequireAt(s, p).Some? && RequireAt(s, p).value.capEnd <= c
  {
    RequireCloseFinds(s, p + 9, p + 9, c);
  }

  /** The pattern matches at p exactly when one of its alternatives can. */
  lemma MatchAtComplete(s: string, p: nat)
    ensures MatchAt(s, p).Some? <==>
              (exists x0, x1, f, g, c :: ImportFromParse(s, p, x0, x1, f, g, c)) ||
              (exists c :: RequireParse(s, p, c))
  {
    if exists x0, x1, f, g, c :: ImportFromParse(s, p, x0, x1, f, g, c) {
      var x0, x1, f, g, c :| ImportFromParse(s, p, x0, x1, f, g, c);
      ImportFromReportsFirstParse(s, p, x0, x1, f, g, c);
    }
    if exists c :: RequireParse(s, p, c) {
      var c :| RequireParse(s, p, c);
      RequireReportsShortestCapture(s, p, c);
    }
    if MatchAt(s, p).Some? {
      var r := ImportFromSearch(s, p);
      if r.Some? {
        assert ImportFromParse(s, p, r.value.0, r.value.1, r.value.2, r.value.3, r.value.4);
      } else {
        assert RequireParse(s, p, MatchAt(s, p).value.capEnd);
      }
    }
  }

  /** Each span ends before the next one starts. */
  ghost predicate InOrder(ms: seq<Match>)
  {
    forall i, j :: 0 <= i < j < |ms| ==> ms[i].end <= ms[j].start
  }

  lemma ConsInOrder(m: Match, rest: seq<Match>)
    requires forall r :: r in rest ==> m.end <= r.start
    requires InOrder(rest)
    ensures InOrder([m] + rest)
  {
    var ms := [m] + rest;
    forall i, j | 0 <= i < j < |ms| ensures ms[i].end <= ms[j].start {
      assert ms[j] == rest[j - 1];
      if i > 0 { assert ms[i] == rest[i - 1]; }
    }
  }

  /** `finditer` reports matches left to right and without overlap. */
  lemma {:induction false} MatchesInOrder(s: string, pos: nat)
    requires pos <= |s|
    ensures InOrder(MatchesFrom(s, pos))
    decreases |s| - pos
  {
    var next := NextMatch(s, pos);
    if next.Some? {
      var m := next.value;
      MatchesInOrder(s, m.end);
      var rest := MatchesFrom(s, m.end);
      assert MatchesFrom(s, pos) == [m] + rest;
      ConsInOrder(m, rest);
    }
  }

  /** Whether position q lies inside one of the matched spans. */
  predicate Covered(ms: seq<Match>, q: nat)
  {
    ms != [] && (ms[0].start <= q < ms[0].end || Covered(ms[1..], q))
  }

  /** No position outside the reported spans has a match: `finditer` misses
      a match only when it overlaps one reported before it. */
  lemma {:induction false} UncoveredHasNoMatch(s: string, pos: nat, q: nat)
    requires pos <= q <= |s| && !Covered(MatchesFrom(s, pos), q)
    ensures MatchAt(s, q).None?
    decreases |s| - pos
  {
    var next := NextMatch(s, pos);
    if next.Some? {
      var m := next.value;
      var rest := MatchesFrom(s, m.end);
      assert MatchesFrom(s, pos) == [m] + rest;
      assert ([m] + rest)[1..] == rest;
      if m.end <= q {
        UncoveredHasNoMatch(s, m.end, q);
      }
    }
  }

  lemma {:induction false} ModulesAreCaptures(s: string, ms: seq<Match>, x: string)
    requires forall m :: m in ms ==> m.capStart <= m.capEnd <= |s|
    requires x in ModulesOf(s, ms)
    ensures x != "" && exists m :: m in ms && x == s[m.capStart..m.capEnd]
  {
    var mod := s[ms[0].capStart..ms[0].capEnd];
    if !(mod != "" && x == mod) {
      ModulesAreCaptures(s, ms[1..], x);
      var m :| m in ms[1..] && x == s[m.capStart..m.capEnd];
      assert m in ms;
    }
  }

  /** What a match's capture looks like: no newline, and no quote when the
      first alternative matched. */
  lemma CaptureText(code: string, m: Match)
    requires MatchAt(code, m.start) == Some(m)
    ensures m.capStart <= m.capEnd <= |code|
    ensures '\n' !in code[m.capStart..m.capEnd]
    ensures m.form == ImportFromForm ==> '"' !in code[m.capStart..m.capEnd] && '\'' !in code[m.capStart..m.capEnd]
  {
    var x := code[m.capStart..m.capEnd];
    assert NoNewline(code, m.capStart, m.capEnd);
    forall k | 0 <= k < |x| ensures x[k] != '\n' && (m.form == ImportFromForm ==> !IsQuote(x[k])) {
      assert x[k] == code[m.capStart + k];
    }
  }

  /** Every extracted module is non-empty, contains no newline, and is the
      captured text of a reported match, so it occurs in the input; one
      captured by `import ... from` contains no quote character. */
  lemma ExtractedModules(code: string, x: string)
    requires x in JsImports(code)
    ensures x != "" && '\n' !in x
    ensures exists m :: m in MatchesFrom(code, 0) && m.capStart <= m.capEnd <= |code| &&
                        x == code[m.capStart..m.capEnd] &&
                        (m.form == ImportFromForm ==> '"' !in x && '\'' !in x)
  {
    var ms := MatchesFrom(code, 0);
    MatchesInBounds(code, 0);
    ModulesAreCaptures(code, ms, x);
    var m :| m in ms && x == code[m.capStart..m.capEnd];
    CaptureText(code, m);
    assert m in ms && m.capStart <= m.capEnd <= |code| && x == code[m.capStart..m.capEnd] &&
           (m.form == ImportFromForm ==> '"' !in x && '\'' !in x);
  }

  // ---------------------------------------------------------------------
  // Examples.

  /** The search finds no `from` when no position from e on starts the
      `\s+from\s+['"]` tail. */
  lemma {:induction false} SearchXFails(s: string, e: nat)
    requires e <= |s|
    requires forall k :: e <= k <= |s| ==> FromTail(s, k).None?
    ensures SearchX(s, e).None?
    decreases |s| - e
  {
    if e < |s| && s[e] != '\n' {
      SearchXFails(s, e + 1);
    }
  }

  /** No match starts at p when the character there begins neither alternative. */
  lemma NoMatchAt(s: string, p: nat)
    requires p < |s| && s[p] != 'i' && s[p] != 'r'
    ensures MatchAt(s, p).None?
  {
    if p + 6 <= |s| { assert s[p..p + 6][0] == s[p]; }
    if p + 9 <= |s| { assert s[p..p + 8][0] == s[p]; }
  }

  /** `require('a')` yields `a`. */
  lemma RequireExample(s: string)
    requires s == "require('a')"
    ensures JsImports(s) == ["a"]
  {
    var m := Match(0, 12, 9, 10, RequireForm);
    assert s[..8] == "require(";
    assert RequireClose(s, 9, 10) == Some(10);
    assert RequireClose(s, 9, 9) == Some(10);
    assert ImportFromSearch(s, 0) == None by {
      assert s[0] == (s[..6])[0] == 'r';
      assert "import"[0] == 'i';
    }
    assert MatchAt(s, 0) == Some(m);
    assert MatchAt(s, 12) == None;
    assert MatchesFrom(s, 12) == [];
    assert MatchesFrom(s, 0) == [m];
    assert ModulesOf(s, [m]) == ["a"] by {
      assert s[9..10] == "a";
      assert [m][1..] == [];
    }
  }

  /** `import  from "x"` yields `x`: the greedy `\s+` after `import` first
      takes both spaces, finds no `from` behind them, and gives one back. */
  lemma ImportFromBacktracks(s: string)
    requires s == "import  from \"x\""
    ensures JsImports(s) == ["x"]
  {
    var m := Match(0, 16, 14, 15, ImportFromForm);
    BacktrackedMatches(s);
    assert ModulesOf(s, [m]) == ["x"] by {
      assert s[14..15] == "x";
      assert [m][1..] == [];
    }
  }

  lemma BacktrackedMatches(s: string)
    requires s == "import  from \"x\""
    ensures MatchesFrom(s, 0) == [Match(0, 16, 14, 15, ImportFromForm)]
  {
    BacktrackedMatch(s);
    assert MatchAt(s, 16).None?;
    assert MatchesFrom(s, 16) == [];
  }

  lemma BacktrackedMatch(s: string)
    requires s == "import  from \"x\""
    ensures MatchAt(s, 0) == Some(Match(0, 16, 14, 15, ImportFromForm))
  {
    assert s[..6] == "import";
    assert SpaceRunEnd(s, 8) == 8;
    assert SpaceRunEnd(s, 6) == 8;
    NoTailAfterTwoSpaces(s);
    SearchXFails(s, 8);
    assert SpaceRunEnd(s, 7) == 8;
    assert s[8..12] == "from";
    assert SpaceRunEnd(s, 12) == 13;
    assert QuoteAfter(s, 14) == Some(15);
    assert FromTail(s, 7) == Some((8, 13, 15));
    assert SearchX(s, 7) == Some((7, 8, 13, 15));
    assert SearchWs(s, 0, 2) == SearchWs(s, 0, 1) == Some((7, 7, 8, 13, 15));
    assert ImportFromSearch(s, 0) == Some((7, 7, 8, 13, 15));
  }

  /** `import from "x"` yields nothing: the pattern needs whitespace on
      both sides of the name part, and a single space cannot serve as both. */
  lemma SingleSpaceNotMatched(s: string)
    requires s == "import from \"x\""
    ensures JsImports(s) == []
  {
    assert s[..6] == "import";
    assert SpaceRunEnd(s, 7) == 7;
    assert SpaceRunEnd(s, 6) == 7;
    NoTailAfterOneSpace(s);
    SearchXFails(s, 7);
    assert s[..8][0] == 'i';
    NoMatchAfterStart(s);
    assert MatchAt(s, 0).None?;
    assert MatchesFrom(s, 0) == [];
  }

  lemma NoTailAfterTwoSpaces(s: string)
    requires s == "import  from \"x\""
    ensures forall k :: 8 <= k <= |s| ==> FromTail(s, k).None?
  {
    forall k | 8 <= k <= |s| ensures FromTail(s, k).None? {
      if k == 12 {
        assert SpaceRunEnd(s, 13) == 13;
        assert SpaceRunEnd(s, 12) == 13;
      } else if k < |s| {
        assert !IsSpace(s[k]);
      }
    }
  }

  lemma NoTailAfterOneSpace(s: string)
    requires s == "import from \"x\""
    ensures forall k :: 7 <= k <= |s| ==> FromTail(s, k).None?
  {
    forall k | 7 <= k <= |s| ensures FromTail(s, k).None? {
      if k == 11 {
        assert SpaceRunEnd(s, 12) == 12;
        assert SpaceRunEnd(s, 11) == 12;
      } else if k < |s| {
        assert !IsSpace(s[k]);
      }
    }
  }

  lemma NoMatchAfterStart(s: string)
    requires s == "import from \"x\""
    ensures forall p :: 1 <= p <= |s| ==> MatchAt(s, p).None?
  {
    forall p | 1 <= p <= |s| ensures MatchAt(s, p).None? {
      if p == 4 {
        assert s[4..12][1] == 't';
      } else if p < |s| && p != 8 {
        NoMatchAt(s, p);
      }
    }
  }
}
