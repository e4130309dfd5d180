/**
  A small model of Python 2's `re` module, enough for the patterns concorde uses.

  A pattern is a sequence of atoms: a literal character, a greedy repetition of a
  character class with a minimum count, or `$`. A `Parse` is one way for the
  pattern to consume text: `ends[i]` is where atom `i` stops. Python's
  backtracking matcher tries the longest repetition first and backs off one
  character at a time, so the parse it reports is the lexicographically greatest
  `ends` vector (`Preferred`); `search` reports that parse at the leftmost start
  that has one. `MatchAt` and `SearchFrom` compute it; `MatchAtBest` and
  `SearchFromBest` prove it is the one `Preferred` describes.
 */
module Regex {
  import opened Wrappers

  /** Python 2's `\s` on byte strings: space, tab, newline, carriage return, vertical tab, form feed. */
  predicate IsSpace(c: char) {
    c == ' ' || c == '\t' || c == '\n' || c == '\r' || c == '\U{000B}' || c == '\U{000C}'
  }

  datatype CharClass =
    | Dot                                         // `.`: any character but a newline
    | Space                                       // `\s`
    | NoneOf(excluded: set<char>, orSpace: bool)  // `[^...]`, also excluding `\s` when orSpace

  predicate InClass(c: char, k: CharClass) {
    match k
    case Dot => c != '\n'
    case Space => IsSpace(c)
    case NoneOf(ex, sp) => c !in ex && !(sp && IsSpace(c))
  }

  datatype Atom =
    | Lit(c: char)                 // one literal character
    | Rep(cls: CharClass, min: nat) // greedy `cls*` (min 0) or `cls+` (min 1)
    | LineEnd                      // `$`: end of text, or just before a final newline

  predicate AllIn(s: string, lo: nat, hi: nat, k: CharClass)
    requires lo <= hi <= |s|
  {
    forall i | lo <= i < hi :: InClass(s[i], k)
  }

  /** Atom `a` can consume exactly `s[lo..hi]`. */
  predicate Spans(a: Atom, s: string, lo: nat, hi: nat) {
    lo <= hi <= |s| &&
    match a
    case Lit(c) => hi == lo + 1 && s[lo] == c
    case LineEnd => hi == lo && (lo == |s| || (lo + 1 == |s| && s[lo] == '\n'))
    case Rep(k, min) => lo + min <= hi && AllIn(s, lo, hi, k)
  }

  /** Pattern `p`, started at `pos`, can consume the text with atom `i` ending at `ends[i]`. */
  predicate Parse(p: seq<Atom>, s: string, pos: nat, ends: seq<nat>)
    decreases |p|
  {
    |ends| == |p| &&
    (|p| == 0 || (Spans(p[0], s, pos, ends[0]) && Parse(p[1..], s, ends[0], ends[1..])))
  }

  /** Lexicographic order on equally long end vectors. */
  predicate LexLe(a: seq<nat>, b: seq<nat>)
    decreases |a|
  {
    |a| == |b| && (|a| == 0 || a[0] < b[0] || (a[0] == b[0] && LexLe(a[1..], b[1..])))
  }

  /** The parse Python's backtracking matcher reports at `pos`. */
  ghost predicate Preferred(p: seq<Atom>, s: string, pos: nat, ends: seq<nat>) {
    Parse(p, s, pos, ends) && forall e :: Parse(p, s, pos, e) ==> LexLe(e, ends)
  }

  ghost predicate NoParse(p: seq<Atom>, s: string, pos: nat) {
    forall e :: !Parse(p, s, pos, e)
  }

  /** End of the longest run of `k` characters starting at `lo`. */
  function RunEnd(s: string, lo: nat, k: CharClass): (hi: nat)
    requires lo <= |s|
    ensures lo <= hi <= |s| && AllIn(s, lo, hi, k)
    ensures hi == |s| || !InClass(s[hi], k)
    decreases |s| - lo
  {
    if lo < |s| && InClass(s[lo], k) then RunEnd(s, lo + 1, k) else lo
  }

  /** Python's `pattern.match(s, pos)`: the end vector of the reported parse, if any. */
  function MatchAt(p: seq<Atom>, s: string, pos: nat): (r: Option<seq<nat>>)
    requires pos <= |s|
    ensures r.Some? ==> Parse(p, s, pos, r.value)
    decreases |p|, 1, 0
  {
    if |p| == 0 then Some([])
    else match p[0]
      case Lit(c) =>
        if pos < |s| && s[pos] == c then
          match MatchAt(p[1..], s, pos + 1)
          case Some(e) => Some([pos + 1] + e)
          case None => None
        else None
      case LineEnd =>
        if pos == |s| || (pos + 1 == |s| && s[pos] == '\n') then
          match MatchAt(p[1..], s, pos)
          case Some(e) => Some([pos] + e)
          case None => None
        else None
      case Rep(k, min) => Backtrack(p, s, pos, RunEnd(s, pos, k))
  }

  /** Try the leading repetition ending at `hi`, then at `hi - 1`, ... down to its minimum. */
  function Backtrack(p: seq<Atom>, s: string, pos: nat, hi: nat): (r: Option<seq<nat>>)
    requires |p| > 0 && p[0].Rep? && pos <= hi <= |s| && AllIn(s, pos, hi, p[0].cls)
    ensures r.Some? ==> Parse(p, s, pos, r.value) && r.value[0] <= hi
    decreases |p|, 0, hi
  {
    if hi < pos + p[0].min then None
    else match MatchAt(p[1..], s, hi)
      case Some(e) => Some([hi] + e)
      case None => if hi == pos then None else Backtrack(p, s, pos, hi - 1)
  }

  lemma LexLeCons(a: nat, x: seq<nat>, b: nat, y: seq<nat>)
    requires |x| == |y|
    ensures LexLe([a] + x, [b] + y) <==> a < b || (a == b && LexLe(x, y))
  {
    assert ([a] + x)[1..] == x;
    assert ([b] + y)[1..] == y;
  }

  lemma ParseTail(p: seq<Atom>, s: string, pos: nat, e: seq<nat>)
    requires |p| > 0
    ensures Parse(p, s, pos, e) ==> Parse(p[1..], s, e[0], e[1..])
  {
  }

  /** No run of `k` characters from `lo` is longer than `RunEnd`'s. */
  lemma RunEndLongest(s: string, lo: nat, k: CharClass, x: nat)
    requires lo <= x <= |s|
    ensures AllIn(s, lo, x, k) ==> x <= RunEnd(s, lo, k)
  {
  }

  /** Where two vectors agree before `i`, the order compares them at `i`. */
  lemma {:induction false} LexLeAt(a: seq<nat>, b: seq<nat>, i: nat)
    requires LexLe(a, b) && i < |a| && a[..i] == b[..i]
    ensures a[i] <= b[i]
    decreases i
  {
    if i > 0 {
      assert a[..i][0] == b[..i][0];
      assert a[1..][..i - 1] == b[1..][..i - 1] by {
        forall j | 0 <= j < i - 1 ensures a[1..][j] == b[1..][j] {
          assert a[..i][j + 1] == b[..i][j + 1];
        }
      }
      LexLeAt(a[1..], b[1..], i - 1);
    }
  }

  lemma SplitHead(e: seq<nat>)
    requires |e| > 0
    ensures e == [e[0]] + e[1..]
  {
  }

  lemma {:induction false} MatchAtBest(p: seq<Atom>, s: string, pos: nat)
    requires pos <= |s|
    ensures MatchAt(p, s, pos).Some? ==> Preferred(p, s, pos, MatchAt(p, s, pos).value)
    ensures MatchAt(p, s, pos).None? ==> NoParse(p, s, pos)
    decreases |p|, 1, 0
  {
    if |p| == 0 {
      forall e | Parse(p, s, pos, e) ensures LexLe(e, []) { }
    } else {
      match p[0]
      case Lit(c) =>
        if pos < |s| && s[pos] == c {
          MatchAtBest(p[1..], s, pos + 1);
          match MatchAt(p[1..], s, pos + 1)
          case Some(t) =>
            forall e | Parse(p, s, pos, e) ensures LexLe(e, [pos + 1] + t) {
              SplitHead(e);
              LexLeCons(e[0], e[1..], pos + 1, t);
            }
          case None =>
            forall e ensures !Parse(p, s, pos, e) {
              ParseTail(p, s, pos, e);
            }
        }
      case LineEnd =>
        if pos == |s| || (pos + 1 == |s| && s[pos] == '\n') {
          MatchAtBest(p[1..], s, pos);
          match MatchAt(p[1..], s, pos)
          case Some(t) =>
            forall e | Parse(p, s, pos, e) ensures LexLe(e, [pos] + t) {
              SplitHead(e);
              LexLeCons(e[0], e[1..], pos, t);
            }
          case None =>
            forall e ensures !Parse(p, s, pos, e) {
              ParseTail(p, s, pos, e);
            }
        }
      case Rep(k, min) =>
        var hi := RunEnd(s, pos, k);
        BacktrackBest(p, s, pos, hi);
        forall e ensures Parse(p, s, pos, e) ==> e[0] <= hi {
          if |e| > 0 && e[0] <= |s| && pos <= e[0] {
            RunEndLongest(s, pos, k, e[0]);
          }
        }
    }
  }

  lemma {:induction false} BacktrackBest(p: seq<Atom>, s: string, pos: nat, hi: nat)
    requires |p| > 0 && p[0].Rep? && pos <= hi <= |s| && AllIn(s, pos, hi, p[0].cls)
    ensures Backtrack(p, s, pos, hi).Some? ==>
              forall e :: Parse(p, s, pos, e) && e[0] <= hi ==> LexLe(e, Backtrack(p, s, pos, hi).value)
    ensures Backtrack(p, s, pos, hi).None? ==> forall e :: Parse(p, s, pos, e) ==> e[0] > hi
    decreases |p|, 0, hi
  {
    if hi < pos + p[0].min {
    } else {
      MatchAtBest(p[1..], s, hi);
      match MatchAt(p[1..], s, hi)
      case Some(t) =>
        forall e | Parse(p, s, pos, e) && e[0] <= hi ensures LexLe(e, [hi] + t) {
          SplitHead(e);
          LexLeCons(e[0], e[1..], hi, t);
        }
      case None =>
        forall e ensures Parse(p, s, pos, e) ==> e[0] != hi {
          ParseTail(p, s, pos, e);
        }
        if hi > pos {
          BacktrackBest(p, s, pos, hi - 1);
        }
    }
  }

  /** A match found by `search`: where it starts and the ends of its atoms. */
  datatype Hit = Hit(start: nat, ends: seq<nat>)

  /** Python's `pattern.search(s, from)`: the first start position, from `from` up to and
      including `|s|`, at which `MatchAt` succeeds. */
  function SearchFrom(p: seq<Atom>, s: string, from: nat): (r: Option<Hit>)
    requires from <= |s|
    ensures r.Some? ==> from <= r.value.start <= |s| && Parse(p, s, r.value.start, r.value.ends)
    decreases |s| - from
  {
    match MatchAt(p, s, from)
    case Some(e) => Some(Hit(from, e))
    case None => if from == |s| then None else SearchFrom(p, s, from + 1)
  }

  lemma {:induction false} SearchFromBest(p: seq<Atom>, s: string, from: nat)
    requires from <= |s|
    ensures SearchFrom(p, s, from).Some? ==>
              var h := SearchFrom(p, s, from).value;
              Preferred(p, s, h.start, h.ends) && forall j :: from <= j < h.start ==> NoParse(p, s, j)
    ensures SearchFrom(p, s, from).None? ==> forall j :: from <= j <= |s| ==> NoParse(p, s, j)
    decreases |s| - from
  {
    MatchAtBest(p, s, from);
    if MatchAt(p, s, from).None? && from < |s| {
      SearchFromBest(p, s, from + 1);
    }
  }

  /** A parse at `pos` means `match` succeeds there. */
  lemma ParseMatches(p: seq<Atom>, s: string, pos: nat, e: seq<nat>)
    requires pos <= |s| && Parse(p, s, pos, e)
    ensures MatchAt(p, s, pos).Some?
  {
    MatchAtBest(p, s, pos);
  }

  /** A parse at `j >= from` means `search` from `from` succeeds, no later than `j`. */
  lemma ParseFound(p: seq<Atom>, s: string, from: nat, j: nat, e: seq<nat>)
    requires from <= j <= |s| && Parse(p, s, j, e)
    ensures SearchFrom(p, s, from).Some? && SearchFrom(p, s, from).value.start <= j
  {
    assert !NoParse(p, s, j);
    SearchFromBest(p, s, from);
  }

  /** The fewest characters a parse of `p` consumes. */
  function MinWidth(p: seq<Atom>): nat {
    if |p| == 0 then 0
    else
      (match p[0] case Lit(_) => 1 case Rep(_, min) => min case LineEnd => 0) + MinWidth(p[1..])
  }

  /** Where a parse started at `pos` stops. */
  function Stop(pos: nat, ends: seq<nat>): nat {
    if |ends| == 0 then pos else ends[|ends| - 1]
  }

  lemma {:induction false} ParseWidth(p: seq<Atom>, s: string, pos: nat, e: seq<nat>)
    requires Parse(p, s, pos, e)
    ensures pos + MinWidth(p) <= Stop(pos, e) <= |s| || (|p| == 0 && Stop(pos, e) == pos)
    ensures pos <= Stop(pos, e)
    decreases |p|
  {
    if |p| > 0 {
      ParseWidth(p[1..], s, e[0], e[1..]);
      if |p| > 1 {
        assert Stop(e[0], e[1..]) == Stop(pos, e);
      }
    }
  }

  /** Python 2's `re.split(pattern, s[from..])` for a pattern that never matches the empty
      string: the text between successive non-overlapping leftmost matches. */
  function Split(p: seq<Atom>, s: string, from: nat): (r: seq<string>)
    requires from <= |s| && MinWidth(p) > 0
    ensures |r| > 0
    decreases |s| - from
  {
    match SearchFrom(p, s, from)
    case None => [s[from..]]
    case Some(h) =>
      ParseWidth(p, s, h.start, h.ends);
      [s[from..h.start]] + Split(p, s, Stop(h.start, h.ends))
  }

  /** A found separator splits off the text before it; the split goes on after it. */
  lemma SplitAt(p: seq<Atom>, s: string, from: nat, start: nat, ends: seq<nat>)
    requires from <= |s| && MinWidth(p) > 0
    requires SearchFrom(p, s, from) == Some(Hit(start, ends))
    ensures from <= start <= Stop(start, ends) <= |s|
    ensures Split(p, s, from) == [s[from..start]] + Split(p, s, Stop(start, ends))
  {
    ParseWidth(p, s, start, ends);
  }

  /** The pattern that matches the literal text `w`. */
  function Lits(w: string): (p: seq<Atom>)
    ensures |p| == |w| && forall i | 0 <= i < |w| :: p[i] == Lit(w[i])
  {
    seq(|w|, i requires 0 <= i < |w| => Lit(w[i]))
  }

  /** The ends of `n` one-character atoms started at `pos`. */
  function Steps(pos: nat, n: nat): (e: seq<nat>)
    ensures |e| == n && forall i | 0 <= i < n :: e[i] == pos + i + 1
  {
    seq(n, i => pos + i + 1)
  }

  /** A parse of `p + q` is a parse of `p` followed by a parse of `q` from where it stops. */
  lemma {:induction false} ParseAppend(p: seq<Atom>, q: seq<Atom>, s: string, pos: nat, e: seq<nat>)
    requires |e| == |p| + |q|
    ensures Parse(p + q, s, pos, e) <==>
              Parse(p, s, pos, e[..|p|]) && Parse(q, s, Stop(pos, e[..|p|]), e[|p|..])
    decreases |p|
  {
    if |p| == 0 {
      assert p + q == q;
      assert e[..0] == [] && e[0..] == e;
    } else {
      assert (p + q)[1..] == p[1..] + q;
      assert e[..|p|][1..] == e[1..][..|p| - 1];
      assert e[|p|..] == e[1..][|p| - 1..];
      ParseAppend(p[1..], q, s, e[0], e[1..]);
      assert Stop(e[0], e[1..][..|p| - 1]) == Stop(pos, e[..|p|]);
    }
  }

  /** A parse of a pattern with a first atom is a span of that atom followed by a parse
      of the rest. */
  lemma ParseCons(a: Atom, p: seq<Atom>, s: string, pos: nat, x: nat, e: seq<nat>)
    ensures Parse([a] + p, s, pos, [x] + e) <==> Spans(a, s, pos, x) && Parse(p, s, x, e)
  {
    assert ([a] + p)[1..] == p;
    assert ([x] + e)[1..] == e;
  }

  lemma ConsEq<T>(a: T, x: seq<T>, b: T, y: seq<T>)
    ensures [a] + x == [b] + y <==> a == b && x == y
  {
    if [a] + x == [b] + y {
      assert ([a] + x)[0] == a && ([b] + y)[0] == b;
      assert ([a] + x)[1..] == x && ([b] + y)[1..] == y;
    }
  }

  /** The literal pattern matches at `pos` exactly when `w` is written there, and then each
      atom takes one character. */
  lemma {:induction false} ParseLits(w: string, s: string, pos: nat, e: seq<nat>)
    requires pos <= |s|
    ensures Parse(Lits(w), s, pos, e) <==>
              pos + |w| <= |s| && s[pos..pos + |w|] == w && e == Steps(pos, |w|)
    decreases |w|
  {
    if |w| > 0 && |e| > 0 {
      if pos < |s| {
        ParseLits(w[1..], s, pos + 1, e[1..]);
      }
      ParseLitsHead(w, s, pos, e);
      LitsTextHead(w, s, pos, e);
    }
  }

  /** The first literal takes one character; the rest of the pattern goes on after it. */
  lemma ParseLitsHead(w: string, s: string, pos: nat, e: seq<nat>)
    requires |w| > 0 && |e| > 0
    ensures Parse(Lits(w), s, pos, e) <==>
              pos < |s| && s[pos] == w[0] && e[0] == pos + 1 && Parse(Lits(w[1..]), s, pos + 1, e[1..])
  {
    assert Lits(w) == [Lit(w[0])] + Lits(w[1..]);
    assert e == [e[0]] + e[1..];
    ParseCons(Lit(w[0]), Lits(w[1..]), s, pos, e[0], e[1..]);
  }

  /** `w` is written at `pos` with one end per character exactly when its first character
      is, and the rest is written after it. */
  lemma LitsTextHead(w: string, s: string, pos: nat, e: seq<nat>)
    requires |w| > 0 && |e| > 0 && pos <= |s|
    ensures (pos + |w| <= |s| && s[pos..pos + |w|] == w && e == Steps(pos, |w|)) <==>
              (pos < |s| && s[pos] == w[0] && e[0] == pos + 1 &&
               pos + 1 + |w[1..]| <= |s| && s[pos + 1..pos + 1 + |w[1..]|] == w[1..] && e[1..] == Steps(pos + 1, |w[1..]|))
  {
    var v := w[1..];
    assert Steps(pos, |w|) == [pos + 1] + Steps(pos + 1, |v|);
    assert w == [w[0]] + v;
    assert e == [e[0]] + e[1..];
    ConsEq(e[0], e[1..], pos + 1, Steps(pos + 1, |v|));
    if pos + |w| <= |s| {
      assert s[pos..pos + |w|] == [s[pos]] + s[pos + 1..pos + 1 + |v|];
      ConsEq(s[pos], s[pos + 1..pos + 1 + |v|], w[0], v);
    }
  }
}
