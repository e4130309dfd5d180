/**
  The regular expressions of concorde/instructions.py, as patterns of the `Regex`
  model, and what each of them accepts, stated without the matcher.
 */
module InstructionSyntax {
  import opened Wrappers
  import opened Regex
  import opened Text

  /** `COMMENT_RE = '\s*#'`, used with `match`. */
  const CommentRe: seq<Atom> := [Rep(Space, 0), Lit('#')]
  /** `EMPTYLINE_RE = '^\s*$'`, used with `match` (the `^` holds at the start of every match). */
  const EmptyLineRe: seq<Atom> := [Rep(Space, 0), LineEnd]
  /** `INSTR_RE = '(.+)\s+--\s+(.+)'`, used with `match`. */
  const InstrRe: seq<Atom> := [Rep(Dot, 1), Rep(Space, 1), Lit('-'), Lit('-'), Rep(Space, 1), Rep(Dot, 1)]
  /** `ACTION_RE = '([^(]+)(\(([^)]*)\))?'`, group 1. */
  const ActionNameRe: seq<Atom> := [Rep(NoneOf({'('}, false), 1)]
  /** `ACTION_RE`, the optional group 2 `\(([^)]*)\)` holding group 3. */
  const ActionArgsRe: seq<Atom> := [Lit('('), Rep(NoneOf({')'}, false), 0), Lit(')')]
  /** The separator `'\s*,\s*'` that argument lists are split on. */
  const ArgSepRe: seq<Atom> := [Rep(Space, 0), Lit(','), Rep(Space, 0)]
  /** The separator `'\s+'` that the actions part of an instruction is split on. */
  const BlanksRe: seq<Atom> := [Rep(Space, 1)]

  predicate NoNewline(s: string) {
    forall i | 0 <= i < |s| :: s[i] != '\n'
  }

  // ---------------------------------------------------------------------------
  // Comment and blank lines

  lemma CommentShape(line: string)
    ensures MatchAt(CommentRe, line, 0).Some? <==>
            exists k :: 0 <= k < |line| && line[k] == '#' && AllSpace(line[..k])
  {
    var r := MatchAt(CommentRe, line, 0);
    if r.Some? {
      var k := r.value[0];
      AllSpaceIn(line, 0, k);
      assert line[0..k] == line[..k];
    }
    forall k | 0 <= k < |line| && line[k] == '#' && AllSpace(line[..k]) ensures r.Some? {
      assert line[0..k] == line[..k];
      AllSpaceIn(line, 0, k);
      ParseMatches(CommentRe, line, 0, [k, k + 1]);
    }
  }

  /** `COMMENT_RE.match(line)`: the first character that is not whitespace is `#`. */
  function IsComment(line: string): (b: bool)
    ensures b <==> exists k :: 0 <= k < |line| && line[k] == '#' && AllSpace(line[..k])
  {
    CommentShape(line);
    MatchAt(CommentRe, line, 0).Some?
  }

  lemma EmptyLineShape(line: string)
    ensures MatchAt(EmptyLineRe, line, 0).Some? <==> AllSpace(line)
  {
    var r := MatchAt(EmptyLineRe, line, 0);
    if r.Some? {
      var k := r.value[0];
      AllSpaceIn(line, 0, k);
      assert line[0..k] == line[..k];
      assert k == |line| || (k + 1 == |line| && line[k] == '\n');
      assert line == line[..k] + line[k..];
    }
    if AllSpace(line) {
      AllSpaceIn(line, 0, |line|);
      assert line[0..|line|] == line;
      ParseMatches(EmptyLineRe, line, 0, [|line|, |line|]);
    }
  }

  /** `EMPTYLINE_RE.match(line)`: the line is whitespace only (`$` may also sit before a
      final newline, which is whitespace itself). */
  function IsBlank(line: string): (b: bool)
    ensures b <==> AllSpace(line)
  {
    EmptyLineShape(line);
    MatchAt(EmptyLineRe, line, 0).Some?
  }

  // ---------------------------------------------------------------------------
  // Instruction lines

  /** The two groups of `INSTR_RE`: the actions part and the query. */
  datatype InstrParts = InstrParts(actions: string, query: string)

  /** From `k`, `line` holds whitespace, `--` at `a`, whitespace, and at `b` a character
      other than a newline. */
  predicate SeparatorAt(line: string, k: nat, a: nat, b: nat) {
    k < a && a + 2 < b < |line| && AllSpace(line[k..a]) &&
    line[a] == '-' && line[a + 1] == '-' && AllSpace(line[a + 2..b]) && line[b] != '\n'
  }

  /** `line` reads as an instruction whose actions part is the newline-free `line[..k]`. */
  ghost predicate SplitsAt(line: string, k: nat) {
    0 < k <= |line| && NoNewline(line[..k]) && exists a, b :: SeparatorAt(line, k, a, b)
  }

  /** The text from `b` up to the next newline or the end of the line. */
  function RestOfLine(line: string, b: nat): string
    requires b <= |line|
  {
    line[b..][..IndexOf(line[b..], '\n')]
  }

  lemma InstrWitness(line: string, k: nat, a: nat, b: nat)
    requires 0 < k <= |line| && NoNewline(line[..k]) && SeparatorAt(line, k, a, b)
    ensures Parse(InstrRe, line, 0, [k, a, a + 1, a + 2, b, RunEnd(line, b, Dot)])
  {
    assert AllIn(line, 0, k, Dot) by {
      forall i | 0 <= i < k ensures line[i] != '\n' {
        assert line[..k][i] == line[i];
      }
    }
    AllSpaceIn(line, k, a);
    AllSpaceIn(line, a + 2, b);
  }

  lemma InstrParseShape(line: string, e: seq<nat>)
    requires Parse(InstrRe, line, 0, e)
    ensures |e| == 6 && 0 < e[0] && NoNewline(line[..e[0]])
    ensures e[2] == e[1] + 1 && e[3] == e[1] + 2
    ensures SeparatorAt(line, e[0], e[1], e[4])
    ensures e[4] < e[5] <= |line| && AllIn(line, e[4], e[5], Dot)
  {
    var p := InstrRe;
    assert Spans(p[0], line, 0, e[0]);
    assert Parse(p[1..], line, e[0], e[1..]);
    assert Spans(p[1], line, e[0], e[1]);
    assert Parse(p[2..], line, e[1], e[2..]) by { assert p[1..][1..] == p[2..]; assert e[1..][1..] == e[2..]; }
    assert Parse(p[3..], line, e[2], e[3..]) by { assert p[2..][1..] == p[3..]; assert e[2..][1..] == e[3..]; }
    assert Parse(p[4..], line, e[3], e[4..]) by { assert p[3..][1..] == p[4..]; assert e[3..][1..] == e[4..]; }
    assert Parse(p[5..], line, e[4], e[5..]) by { assert p[4..][1..] == p[5..]; assert e[4..][1..] == e[5..]; }
    assert AllIn(line, 0, e[0], Dot);
    assert NoNewline(line[..e[0]]);
    AllSpaceIn(line, e[0], e[1]);
    AllSpaceIn(line, e[3], e[4]);
  }

  /** The reported query runs to the end of the physical line. */
  lemma InstrQueryLongest(line: string, e: seq<nat>)
    requires Preferred(InstrRe, line, 0, e)
    ensures |e| == 6 && e[4] <= |line| && e[5] == e[4] + IndexOf(line[e[4]..], '\n')
  {
    InstrParseShape(line, e);
    var full := e[..5] + [RunEnd(line, e[4], Dot)];
    assert full == [e[0], e[1], e[1] + 1, e[1] + 2, e[4], RunEnd(line, e[4], Dot)];
    InstrWitness(line, e[0], e[1], e[4]);
    assert full[..5] == e[..5];
    LexLeAt(full, e, 5);
    RunEndLongest(line, e[4], Dot, e[5]);
    RunEndIndexOf(line, e[4], Dot, '\n');
  }

  /** The reported query starts after all the whitespace that follows `--`. */
  lemma InstrQueryStart(line: string, e: seq<nat>, b: nat)
    requires Preferred(InstrRe, line, 0, e) && |e| == 6 && SeparatorAt(line, e[0], e[1], b)
    ensures b <= e[4]
  {
    InstrParseShape(line, e);
    InstrWitness(line, e[0], e[1], b);
    var w := [e[0], e[1], e[1] + 1, e[1] + 2, b, RunEnd(line, b, Dot)];
    assert w[..4] == e[..4];
    LexLeAt(w, e, 4);
  }

  /** The reported actions part ends at the last separator. */
  lemma InstrLastSeparator(line: string, e: seq<nat>, k: nat)
    requires Preferred(InstrRe, line, 0, e) && SplitsAt(line, k)
    ensures |e| > 0 && k <= e[0]
  {
    var a: nat, b: nat :| SeparatorAt(line, k, a, b);
    InstrWitness(line, k, a, b);
    var w := [k, a, a + 1, a + 2, b, RunEnd(line, b, Dot)];
    assert LexLe(w, e);
  }

  lemma InstrShape(line: string)
    ensures MatchAt(InstrRe, line, 0).None? <==> forall k: nat :: !SplitsAt(line, k)
    ensures MatchAt(InstrRe, line, 0).Some? ==>
              var e := MatchAt(InstrRe, line, 0).value;
              && SplitsAt(line, e[0])
              && SeparatorAt(line, e[0], e[1], e[4])
              && e[5] == e[4] + IndexOf(line[e[4]..], '\n')
              && (forall k: nat :: SplitsAt(line, k) ==> k <= e[0])
              && forall b: nat :: SeparatorAt(line, e[0], e[1], b) ==> b <= e[4]
  {
    var r := MatchAt(InstrRe, line, 0);
    forall k: nat | SplitsAt(line, k) ensures r.Some? {
      InstrSplitMatches(line, k);
    }
    if r.Some? {
      MatchAtBest(InstrRe, line, 0);
      InstrPreferred(line, r.value);
    }
  }

  /** A line that splits somewhere matches. */
  lemma InstrSplitMatches(line: string, k: nat)
    requires SplitsAt(line, k)
    ensures MatchAt(InstrRe, line, 0).Some?
  {
    var a: nat, b: nat :| SeparatorAt(line, k, a, b);
    InstrWitness(line, k, a, b);
    ParseMatches(InstrRe, line, 0, [k, a, a + 1, a + 2, b, RunEnd(line, b, Dot)]);
  }

  /** The reported match splits at the last separator and takes the rest of the line. */
  lemma InstrPreferred(line: string, e: seq<nat>)
    requires Preferred(InstrRe, line, 0, e)
    ensures |e| == 6 && SplitsAt(line, e[0]) && SeparatorAt(line, e[0], e[1], e[4])
    ensures e[5] == e[4] + IndexOf(line[e[4]..], '\n')
    ensures forall k: nat :: SplitsAt(line, k) ==> k <= e[0]
    ensures forall b: nat :: SeparatorAt(line, e[0], e[1], b) ==> b <= e[4]
  {
    InstrParseShape(line, e);
    assert SplitsAt(line, e[0]);
    InstrQueryLongest(line, e);
    forall k: nat | SplitsAt(line, k) ensures k <= e[0] {
      InstrLastSeparator(line, e, k);
    }
    forall b: nat | SeparatorAt(line, e[0], e[1], b) ensures b <= e[4] {
      InstrQueryStart(line, e, b);
    }
  }

  /** `INSTR_RE.match(line)`: the actions part is the longest newline-free prefix that is
      followed by a whitespace-`--`-whitespace separator and a query, so the line splits at
      its last separator; the query is the rest of the physical line from the last position
      after `--` and some whitespace that holds a character other than a newline. */
  function MatchInstr(line: string): (r: Option<InstrParts>)
    ensures r.None? <==> forall k: nat :: !SplitsAt(line, k)
    ensures r.Some? ==> SplitsAt(line, |r.value.actions|) && r.value.actions == line[..|r.value.actions|]
    ensures r.Some? ==> forall k: nat :: SplitsAt(line, k) ==> k <= |r.value.actions|
    ensures r.Some? ==> exists a, b :: SeparatorAt(line, |r.value.actions|, a, b) && r.value.query == RestOfLine(line, b)
                          && forall b': nat :: SeparatorAt(line, |r.value.actions|, a, b') ==> b' <= b
    ensures r.Some? ==> r.value.actions != "" && r.value.query != "" && NoNewline(r.value.query)
  {
    InstrShape(line);
    match MatchAt(InstrRe, line, 0)
    case None => None
    case Some(e) =>
      InstrGroups(line, e);
      Some(InstrParts(line[..e[0]], line[e[4]..e[5]]))
  }

  /** Groups 1 and 2 of a match whose separator ends at `e[4]` and whose query runs to
      the first newline after it. */
  lemma InstrGroups(line: string, e: seq<nat>)
    requires |e| == 6 && SplitsAt(line, e[0]) && SeparatorAt(line, e[0], e[1], e[4])
    requires e[5] == e[4] + IndexOf(line[e[4]..], '\n')
    ensures e[4] <= e[5] <= |line|
    ensures var x := InstrParts(line[..e[0]], line[e[4]..e[5]]);
            && |x.actions| == e[0] && SeparatorAt(line, |x.actions|, e[1], e[4]) && x.query == RestOfLine(line, e[4])
            && x.actions != "" && x.query != "" && NoNewline(x.query)
  {
    var q := line[e[4]..e[5]];
    assert q == RestOfLine(line, e[4]);
    assert q[0] == line[e[4]];
  }

  // ---------------------------------------------------------------------------
  // Action tokens

  /** Groups 1 and 3 of `ACTION_RE`: the text before the parenthesis and, when the
      optional group matched, the text inside it. */
  datatype ActionGroups = ActionGroups(name: string, inner: Option<string>)

  /** The text between the `(` at `k` and the first `)` after it, when there is one. */
  function Parenthesised(rest: string, k: nat): Option<string> {
    if k < |rest| && IndexOf(rest[k + 1..], ')') < |rest| - (k + 1) then
      Some(rest[k + 1..][..IndexOf(rest[k + 1..], ')')])
    else None
  }

  lemma ActionNameShape(rest: string)
    ensures MatchAt(ActionNameRe, rest, 0).None? <==> |rest| == 0 || rest[0] == '('
    ensures MatchAt(ActionNameRe, rest, 0).Some? ==> MatchAt(ActionNameRe, rest, 0).value == [IndexOf(rest, '(')]
  {
    var k := NoneOf({'('}, false);
    RunEndIndexOf(rest, 0, k, '(');
    assert rest[0..] == rest;
  }

  lemma ActionArgsShape(rest: string, k: nat)
    requires k < |rest| && rest[k] == '('
    ensures MatchAt(ActionArgsRe, rest, k).Some? <==> Parenthesised(rest, k).Some?
    ensures MatchAt(ActionArgsRe, rest, k).Some? ==>
              Parenthesised(rest, k) == Some(rest[k + 1..MatchAt(ActionArgsRe, rest, k).value[1]])
  {
    var r := MatchAt(ActionArgsRe, rest, k);
    if r.Some? {
      ActionArgsParsed(rest, k, r.value);
    }
    var j := k + 1 + IndexOf(rest[k + 1..], ')');
    if j < |rest| {
      ActionArgsWitness(rest, k, j);
      ParseMatches(ActionArgsRe, rest, k, [k + 1, j, j + 1]);
    }
  }

  /** Any match of `\(([^)]*)\)` at the `(` ends its group at the first `)` after it. */
  lemma ActionArgsParsed(rest: string, k: nat, f: seq<nat>)
    requires k < |rest| && Parse(ActionArgsRe, rest, k, f)
    ensures |f| == 3 && Parenthesised(rest, k) == Some(rest[k + 1..f[1]])
  {
    assert Parse(ActionArgsRe[1..], rest, f[0], f[1..]);
    assert Parse(ActionArgsRe[2..], rest, f[1], f[2..]) by {
      assert ActionArgsRe[1..][1..] == ActionArgsRe[2..];
      assert f[1..][1..] == f[2..];
    }
    assert rest[f[1]] == ')' && AllIn(rest, k + 1, f[1], NoneOf({')'}, false));
    IndexOfAt(rest[k + 1..], ')', f[1] - (k + 1));
    assert rest[k + 1..][..f[1] - (k + 1)] == rest[k + 1..f[1]];
  }

  /** With a `)` after the `(`, the pattern matches there. */
  lemma ActionArgsWitness(rest: string, k: nat, j: nat)
    requires k < |rest| && rest[k] == '(' && j == k + 1 + IndexOf(rest[k + 1..], ')') && j < |rest|
    ensures Parse(ActionArgsRe, rest, k, [k + 1, j, j + 1])
  {
    RunEndIndexOf(rest, k + 1, NoneOf({')'}, false), ')');
    assert rest[j] == ')' by {
      assert rest[k + 1..][j - (k + 1)] == rest[j];
    }
    ActionArgsParseAt(rest, k, j);
  }

  /** The `(` at `k`, no `)` up to `j`, the `)` at `j`. */
  lemma ActionArgsParseAt(rest: string, k: nat, j: nat)
    requires k < j < |rest| && rest[k] == '(' && rest[j] == ')' && AllIn(rest, k + 1, j, NoneOf({')'}, false))
    ensures Parse(ActionArgsRe, rest, k, [k + 1, j, j + 1])
  {
    var cls := NoneOf({')'}, false);
    ParseCons(Lit(')'), [], rest, j, j + 1, []);
    assert [Lit(')')] + [] == [Lit(')')] && [j + 1] + [] == [j + 1];
    ParseCons(Rep(cls, 0), [Lit(')')], rest, k + 1, j, [j + 1]);
    ParseCons(Lit('('), [Rep(cls, 0), Lit(')')], rest, k, k + 1, [j, j + 1]);
    assert [Lit('(')] + [Rep(cls, 0), Lit(')')] == ActionArgsRe;
    assert [k + 1] + [j, j + 1] == [k + 1, j, j + 1];
  }

  /** `ACTION_RE.match(rest)`, where `rest` is the token after its sigil. Group 1 is the
      text before the first `(` and must be non-empty; group 3 is the text between that `(`
      and the first `)` after it, and is missing when there is no such pair. */
  function MatchAction(rest: string): (r: Option<ActionGroups>)
    ensures r.None? <==> |rest| == 0 || rest[0] == '('
    ensures r.Some? ==> r.value.name == rest[..IndexOf(rest, '(')] && r.value.name != ""
    ensures r.Some? ==> r.value.inner == Parenthesised(rest, IndexOf(rest, '('))
  {
    ActionNameShape(rest);
    match MatchAt(ActionNameRe, rest, 0)
    case None => None
    case Some(e) =>
      var inner :=
        if e[0] < |rest| then
          ActionArgsShape(rest, e[0]);
          match MatchAt(ActionArgsRe, rest, e[0])
          case None => None
          case Some(f) => Some(rest[e[0] + 1..f[1]])
        else None;
      Some(ActionGroups(rest[..e[0]], inner))
  }

  // ---------------------------------------------------------------------------
  // Argument lists

  /** The reference for argument splitting: the text before the first comma without the
      whitespace that ends it, then the fields of what follows that comma once its leading
      whitespace is removed. Whitespace at the two ends of `s` is kept. */
  function ArgFields(s: string): seq<string>
    decreases |s|
  {
    var k := IndexOf(s, ',');
    if k == |s| then [s]
    else
      TrimStartShape(s[k + 1..]);
      [TrimEnd(s[..k])] + ArgFields(TrimStart(s[k + 1..]))
  }

  lemma ArgSepParseShape(s: string, j: nat, e: seq<nat>)
    requires Parse(ArgSepRe, s, j, e)
    ensures |e| == 3 && j <= e[0] < |s| && s[e[0]] == ',' && AllIn(s, j, e[0], Space)
    ensures e[1] == e[0] + 1 && e[1] <= e[2] <= |s| && AllIn(s, e[1], e[2], Space)
  {
    assert Parse(ArgSepRe[1..], s, e[0], e[1..]);
    assert Parse(ArgSepRe[2..], s, e[1], e[2..]) by {
      assert ArgSepRe[1..][1..] == ArgSepRe[2..];
      assert e[1..][1..] == e[2..];
    }
  }

  /** Position of the first comma at or after `from`, or `|s|`. */
  function CommaFrom(s: string, from: nat): (c: nat)
    requires from <= |s|
    ensures from <= c <= |s|
    ensures c < |s| ==> s[c] == ','
  {
    var k := IndexOf(s[from..], ',');
    assert k < |s| - from ==> s[from..][k] == s[from + k];
    from + k
  }

  /** Where the whitespace run that ends at the first comma after `from` starts. */
  function SepStart(s: string, from: nat): nat
    requires from <= |s|
  {
    from + |TrimEnd(s[from..CommaFrom(s, from)])|
  }

  /** With no comma at or after `from`, the separator is not found. */
  lemma ArgSepAbsent(s: string, from: nat)
    requires from <= |s| && CommaFrom(s, from) == |s|
    ensures SearchFrom(ArgSepRe, s, from).None?
  {
    forall j: nat, e: seq<nat> | from <= j && Parse(ArgSepRe, s, j, e)
      ensures from <= e[0] < |s| && s[from..][e[0] - from] == ','
    {
      ArgSepParseShape(s, j, e);
    }
  }

  lemma ArgSepStart(s: string, from: nat, j: nat, e: seq<nat>)
    requires from <= |s| && CommaFrom(s, from) < |s|
    requires from <= j <= SepStart(s, from) && Parse(ArgSepRe, s, j, e)
    ensures j == SepStart(s, from) && e[0] == CommaFrom(s, from) && e[1] == e[0] + 1
  {
    var c := CommaFrom(s, from);
    CommaFromFirst(s, from);
    TrimEndRun(s, from, c);
    SepStartEdge(s, from, c);
    ArgSepStartAt(s, from, c, SepStart(s, from), j, e);
  }

  /** No comma lies between `from` and `CommaFrom(s, from)`. */
  lemma CommaFromFirst(s: string, from: nat)
    requires from <= |s|
    ensures forall i | from <= i < CommaFrom(s, from) :: s[i] != ','
  {
    var t := s[from..];
    forall i | from <= i < CommaFrom(s, from) ensures s[i] != ',' {
      assert t[i - from] == s[i];
    }
  }

  /** The character just before the trimmed whitespace run is not whitespace. */
  lemma SepStartEdge(s: string, from: nat, c: nat)
    requires from <= c <= |s|
    ensures var w := from + |TrimEnd(s[from..c])|; w <= c && (w > from ==> !IsSpace(s[w - 1]))
  {
    var x := s[from..c];
    var w := from + |TrimEnd(x)|;
    TrimEndShape(x);
    if w > from {
      assert x[w - 1 - from] == s[w - 1];
    }
  }

  /** A separator match starting in `[from, w]` starts at `w`, with its comma at `c`. */
  lemma ArgSepStartAt(s: string, from: nat, c: nat, w: nat, j: nat, e: seq<nat>)
    requires from <= w <= c < |s| && s[c] == ',' && AllIn(s, w, c, Space)
    requires forall i | from <= i < c :: s[i] != ','
    requires w > from ==> !IsSpace(s[w - 1])
    requires from <= j <= w && Parse(ArgSepRe, s, j, e)
    ensures j == w && e[0] == c && e[1] == e[0] + 1
  {
    ArgSepParseShape(s, j, e);
    assert e[0] == c by {
      assert c <= e[0];
      assert !IsSpace(s[c]);
    }
  }

  /** Whitespace from `w`, the comma at `c`, then whitespace up to `R`. */
  lemma ArgSepParseAt(s: string, w: nat, c: nat, R: nat)
    requires w <= c < R <= |s| && s[c] == ',' && AllIn(s, w, c, Space) && AllIn(s, c + 1, R, Space)
    ensures Parse(ArgSepRe, s, w, [c, c + 1, R])
  {
    ParseCons(Rep(Space, 0), [], s, c + 1, R, []);
    assert [Rep(Space, 0)] + [] == [Rep(Space, 0)] && [R] + [] == [R];
    ParseCons(Lit(','), [Rep(Space, 0)], s, c, c + 1, [R]);
    ParseCons(Rep(Space, 0), [Lit(','), Rep(Space, 0)], s, w, c, [c + 1, R]);
    assert [Rep(Space, 0)] + [Lit(','), Rep(Space, 0)] == ArgSepRe;
    assert [c] + [c + 1, R] == [c, c + 1, R];
  }

  lemma ArgSepWitness(s: string, from: nat, c: nat, w: nat, R: nat)
    requires from <= |s| && c == CommaFrom(s, from) < |s|
    requires w == SepStart(s, from) && R == RunEnd(s, c + 1, Space)
    ensures Parse(ArgSepRe, s, w, [c, c + 1, R])
  {
    TrimEndRun(s, from, c);
    ArgSepParseAt(s, w, c, R);
  }

  /** The whitespace `TrimEnd` removes from `s[lo..hi]` is a `\s` run ending at `hi`. */
  lemma TrimEndRun(s: string, lo: nat, hi: nat)
    requires lo <= hi <= |s|
    ensures lo + |TrimEnd(s[lo..hi])| <= hi && AllIn(s, lo + |TrimEnd(s[lo..hi])|, hi, Space)
  {
    var x := s[lo..hi];
    var w := lo + |TrimEnd(x)|;
    TrimEndShape(x);
    assert x[|TrimEnd(x)|..] == s[w..hi];
    AllSpaceIn(s, w, hi);
  }


  /** The reported parse takes all the whitespace after the comma. */
  lemma ArgSepLongest(s: string, w: nat, e: seq<nat>, c: nat)
    requires Preferred(ArgSepRe, s, w, e) && c < |s| && Parse(ArgSepRe, s, w, [c, c + 1, RunEnd(s, c + 1, Space)])
    requires |e| == 3 && e[0] == c && e[1] == c + 1
    ensures e == [c, c + 1, RunEnd(s, c + 1, Space)]
  {
    var wit := [c, c + 1, RunEnd(s, c + 1, Space)];
    ArgSepParseShape(s, w, e);
    assert LexLe(wit, e);
    assert wit[..2] == e[..2];
    LexLeAt(wit, e, 2);
    RunEndLongest(s, c + 1, Space, e[2]);
  }

  /** One `\s*,\s*` search from `from`: it starts where the whitespace before the first
      comma starts and ends after the whitespace that follows that comma. */
  lemma ArgSepFound(s: string, from: nat)
    requires from <= |s| && CommaFrom(s, from) < |s|
    ensures SearchFrom(ArgSepRe, s, from) ==
              Some(Hit(SepStart(s, from), [CommaFrom(s, from), CommaFrom(s, from) + 1, RunEnd(s, CommaFrom(s, from) + 1, Space)]))
  {
    var c := CommaFrom(s, from);
    var w := SepStart(s, from);
    var wit := [c, c + 1, RunEnd(s, c + 1, Space)];
    ArgSepWitness(s, from, c, w, wit[2]);
    ParseFound(ArgSepRe, s, from, w, wit);
    SearchFromBest(ArgSepRe, s, from);
    var h := SearchFrom(ArgSepRe, s, from).value;
    ArgSepStart(s, from, h.start, h.ends);
    ArgSepLongest(s, w, h.ends, c);
  }

  /** One step of the source's split: the field before the first comma, right-trimmed. */
  lemma SplitArgsStep(s: string, from: nat, c: nat, R: nat)
    requires from <= |s| && c == CommaFrom(s, from) < |s| && R == RunEnd(s, c + 1, Space)
    ensures Split(ArgSepRe, s, from) == [TrimEnd(s[from..c])] + Split(ArgSepRe, s, R)
  {
    var w := SepStart(s, from);
    ArgSepFound(s, from);
    SepStartField(s, from, c, w);
    SplitAt(ArgSepRe, s, from, w, [c, c + 1, R]);
  }

  /** The text before the separator is the field, right-trimmed. */
  lemma SepStartField(s: string, from: nat, c: nat, w: nat)
    requires from <= c <= |s| && w == from + |TrimEnd(s[from..c])|
    ensures w <= c && s[from..w] == TrimEnd(s[from..c])
  {
    TrimEndShape(s[from..c]);
  }

  /** `ArgFields` takes one field off the front. */
  lemma ArgFieldsCons(t: string, k: nat, head: string, rest: string)
    requires k == IndexOf(t, ',') < |t| && head == t[..k] && rest == TrimStart(t[k + 1..])
    ensures ArgFields(t) == [TrimEnd(head)] + ArgFields(rest)
  {
  }

  lemma ArgFieldsSuffix(s: string, from: nat, c: nat, R: nat)
    requires from <= c < |s| && c + 1 <= R <= |s|
    requires c - from == IndexOf(s[from..], ',')
    requires s[R..] == TrimStart(s[c + 1..])
    ensures ArgFields(s[from..]) == [TrimEnd(s[from..c])] + ArgFields(s[R..])
  {
    var t := s[from..];
    var k := c - from;
    assert t[..k] == s[from..c];
    assert t[k + 1..] == s[c + 1..];
    ArgFieldsCons(t, k, s[from..c], s[R..]);
  }

  /** With no comma left, the split and the reference both keep the rest whole. */
  lemma SplitArgsLast(s: string, from: nat)
    requires from <= |s| && CommaFrom(s, from) == |s|
    ensures Split(ArgSepRe, s, from) == ArgFields(s[from..]) == [s[from..]]
  {
    ArgSepAbsent(s, from);
  }

  /** The split and the reference take the same first field and go on from the same place. */
  lemma SplitArgsNext(s: string, from: nat, c: nat, R: nat)
    requires from <= |s| && c == CommaFrom(s, from) < |s| && R == RunEnd(s, c + 1, Space)
    requires Split(ArgSepRe, s, R) == ArgFields(s[R..])
    ensures Split(ArgSepRe, s, from) == ArgFields(s[from..])
  {
    SplitArgsStep(s, from, c, R);
    ArgFieldsStepFrom(s, from, c, R);
  }

  /** The reference takes the same field off and goes on after the same whitespace. */
  lemma ArgFieldsStepFrom(s: string, from: nat, c: nat, R: nat)
    requires from <= |s| && c == CommaFrom(s, from) < |s| && R == RunEnd(s, c + 1, Space)
    ensures ArgFields(s[from..]) == [TrimEnd(s[from..c])] + ArgFields(s[R..])
  {
    RunEndTrimStart(s, c + 1);
    ArgFieldsSuffix(s, from, c, R);
  }

  lemma {:induction false} SplitArgsFields(s: string, from: nat)
    requires from <= |s|
    ensures Split(ArgSepRe, s, from) == ArgFields(s[from..])
    decreases |s| - from
  {
    if CommaFrom(s, from) == |s| {
      SplitArgsLast(s, from);
    } else {
      var c := CommaFrom(s, from);
      var R := RunEnd(s, c + 1, Space);
      SplitArgsFields(s, R);
      SplitArgsNext(s, from, c, R);
    }
  }

  /** `re.split('\s*,\s*', s)`: the comma-separated fields with the whitespace next to each
      comma removed; whitespace at the two ends of `s` is kept, and the empty text gives
      one empty field. */
  function SplitArgs(s: string): (r: seq<string>)
    ensures r == ArgFields(s)
    ensures |r| > 0
  {
    SplitArgsFields(s, 0);
    assert s[0..] == s;
    Split(ArgSepRe, s, 0)
  }

  /** A list of fields that `SplitArgs` gives back unchanged once joined with commas. */
  predicate PlainArgs(xs: seq<string>) {
    && |xs| > 0
    && (forall i | 0 <= i < |xs| :: ',' !in xs[i])
    && (forall i | 0 < i < |xs| :: TrimStart(xs[i]) == xs[i])
    && (forall i | 0 <= i < |xs| - 1 :: TrimEnd(xs[i]) == xs[i])
  }

  /** Fields joined with commas give the fields back. */
  lemma {:induction false} ArgFieldsJoin(xs: seq<string>)
    requires PlainArgs(xs)
    ensures ArgFields(Join(xs, ",")) == xs
    decreases |xs|
  {
    var s := Join(xs, ",");
    var a := xs[0];
    if |xs| == 1 {
      IndexOfAt(a, ',', |a|);
    } else {
      var ys := xs[1..];
      var j := Join(ys, ",");
      assert s == a + "," + j;
      IndexOfAt(s, ',', |a|);
      assert s[..|a|] == a;
      assert s[|a| + 1..] == j;
      assert PlainArgs(ys) by {
        forall i | 0 <= i < |ys| ensures ',' !in ys[i] && (i > 0 ==> TrimStart(ys[i]) == ys[i]) {
          assert ys[i] == xs[i + 1];
        }
      }
      assert TrimStart(j) == j by {
        if |ys[0]| > 0 {
          TrimStartShape(ys[0]);
          assert !IsSpace(ys[0][0]);
          assert j[0] == ys[0][0];
        } else if |ys| > 1 {
          assert j == ys[0] + "," + Join(ys[1..], ",");
          assert j[0] == ',';
        }
      }
      ArgFieldsJoin(ys);
    }
  }

  /** Joining fields with commas and splitting them again gives the fields back. */
  lemma SplitArgsJoin(xs: seq<string>)
    requires PlainArgs(xs)
    ensures SplitArgs(Join(xs, ",")) == xs
  {
    ArgFieldsJoin(xs);
  }

  // ---------------------------------------------------------------------------
  // The actions part

  lemma BlanksParseShape(s: string, j: nat, e: seq<nat>)
    requires Parse(BlanksRe, s, j, e)
    ensures |e| == 1 && j < e[0] <= |s| && AllIn(s, j, e[0], Space)
  {
  }

  /** Position of the first whitespace character at or after `from`, or `|s|`. */
  function BlankFrom(s: string, from: nat): (k: nat)
    requires from <= |s|
    ensures from <= k <= |s|
  {
    from + SpaceIndex(s[from..])
  }

  /** With no whitespace at or after `from`, `\s+` is not found. */
  lemma BlanksAbsent(s: string, from: nat)
    requires from <= |s| && BlankFrom(s, from) == |s|
    ensures SearchFrom(BlanksRe, s, from).None?
  {
    forall j: nat, e: seq<nat> | from <= j && Parse(BlanksRe, s, j, e)
      ensures j < |s| && IsSpace(s[from..][j - from])
    {
      BlanksParseShape(s, j, e);
    }
  }

  /** One `\s+` search from `from` takes the first whitespace run after `from`, whole. */
  lemma BlanksFound(s: string, from: nat)
    requires from <= |s| && BlankFrom(s, from) < |s|
    ensures SearchFrom(BlanksRe, s, from) ==
              Some(Hit(BlankFrom(s, from), [RunEnd(s, BlankFrom(s, from), Space)]))
  {
    var k := BlankFrom(s, from);
    var R := RunEnd(s, k, Space);
    assert Parse(BlanksRe, s, k, [R]);
    ParseFound(BlanksRe, s, from, k, [R]);
    SearchFromBest(BlanksRe, s, from);
    var h := SearchFrom(BlanksRe, s, from).value;
    BlanksParseShape(s, h.start, h.ends);
    assert h.start == k by {
      assert IsSpace(s[from..][h.start - from]);
    }
    assert LexLe([R], h.ends);
    RunEndLongest(s, k, Space, h.ends[0]);
    assert h.ends == [R];
    assert SearchFrom(BlanksRe, s, from) == Some(h);
  }

  lemma SplitBlanksStep(s: string, from: nat, k: nat, R: nat)
    requires from <= |s| && k == BlankFrom(s, from) < |s| && R == RunEnd(s, k, Space)
    ensures Split(BlanksRe, s, from) == [s[from..k]] + Split(BlanksRe, s, R)
  {
    BlanksFound(s, from);
    SplitAt(BlanksRe, s, from, k, [R]);
  }

  lemma SpaceFieldsStepAt(s: string, from: nat, k: nat, R: nat)
    requires from <= |s| && k == BlankFrom(s, from) < |s| && R == RunEnd(s, k, Space)
    ensures SpaceFields(s[from..]) == [s[from..k]] + SpaceFields(s[R..])
  {
    RunEndTrimStart(s, k);
    SpaceFieldsSuffix(s, from, k, R);
  }

  lemma SpaceFieldsSuffix(s: string, from: nat, k: nat, R: nat)
    requires from <= k < |s| && k - from == SpaceIndex(s[from..]) && k <= R <= |s|
    requires s[R..] == TrimStart(s[k..])
    ensures SpaceFields(s[from..]) == [s[from..k]] + SpaceFields(s[R..])
  {
    var t := s[from..];
    assert t[..k - from] == s[from..k];
    assert t[k - from..] == s[k..];
    SpaceFieldsCons(t, k - from, s[from..k], s[R..]);
  }

  lemma SplitBlanksNext(s: string, from: nat, k: nat, R: nat)
    requires from <= |s| && k == BlankFrom(s, from) < |s| && R == RunEnd(s, k, Space)
    requires Split(BlanksRe, s, R) == SpaceFields(s[R..])
    ensures Split(BlanksRe, s, from) == SpaceFields(s[from..])
  {
    SplitBlanksStep(s, from, k, R);
    SpaceFieldsStepAt(s, from, k, R);
  }

  lemma {:induction false} SplitBlanksFields(s: string, from: nat)
    requires from <= |s|
    ensures Split(BlanksRe, s, from) == SpaceFields(s[from..])
    decreases |s| - from
  {
    if BlankFrom(s, from) == |s| {
      BlanksAbsent(s, from);
    } else {
      var k := BlankFrom(s, from);
      var R := RunEnd(s, k, Space);
      SplitBlanksFields(s, R);
      SplitBlanksNext(s, from, k, R);
    }
  }

  /** `re.split('\s+', s)` as the source calls it: the pieces between whitespace runs,
      with an empty piece for whitespace at either end. */
  function SplitBlanks(s: string): (r: seq<string>)
    ensures r == SpaceFields(s)
    ensures |r| > 0
  {
    SplitBlanksFields(s, 0);
    assert s[0..] == s;
    Split(BlanksRe, s, 0)
  }

  /** The non-empty strings of `xs`, in order. */
  function NonEmpty(xs: seq<string>): (r: seq<string>)
    ensures |r| <= |xs|
    ensures forall i | 0 <= i < |r| :: r[i] != "" && r[i] in xs
    ensures (forall i | 0 <= i < |xs| :: xs[i] != "") ==> r == xs
  {
    if |xs| == 0 then []
    else if xs[0] == "" then NonEmpty(xs[1..])
    else [xs[0]] + NonEmpty(xs[1..])
  }

  /** The whitespace-separated words of `s` (Python's `s.split()`): the tokeniser the
      instruction reader evidently intends. */
  function Words(s: string): (r: seq<string>)
    ensures r == NonEmpty(SpaceFields(s))
    ensures forall i | 0 <= i < |r| :: r[i] != "" && NoSpace(r[i])
  {
    SpaceFieldsNoSpace(s);
    NonEmpty(SplitBlanks(s))
  }

  /** Joining words with single blanks and taking the words again gives them back. */
  lemma WordsJoin(ws: seq<string>)
    requires forall i | 0 <= i < |ws| :: ws[i] != "" && NoSpace(ws[i])
    ensures Words(Join(ws, " ")) == ws
  {
    if |ws| > 0 {
      SpaceFieldsJoin(ws);
    }
  }

  /** `re.split('\s+', s)` yields only words exactly when `s` is non-empty and has no
      whitespace at either end; otherwise it yields an empty token. */
  lemma SplitBlanksAllWords(s: string)
    ensures SplitBlanks(s) == Words(s) <==> |s| > 0 && !IsSpace(s[0]) && !IsSpace(s[|s| - 1])
    ensures "" in SplitBlanks(s) <==> |s| == 0 || IsSpace(s[0]) || IsSpace(s[|s| - 1])
  {
    var r := SplitBlanks(s);
    SpaceFieldsFirst(s);
    SpaceFieldsLast(s);
    SpaceFieldsInterior(s);
    assert "" !in Words(s);
  }

}
