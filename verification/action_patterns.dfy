/**
  The regular expressions of concorde/actions.py, as patterns of the `Regex` model,
  and what a `search` with each of them finds, stated without the matcher.
 */
module ActionPatterns {
  import opened Wrappers
  import opened Regex
  import opened Text

  // ---------------------------------------------------------------------------
  // Subaddresses

  const NotLtOrSpace: CharClass := NoneOf({'<'}, true)
  const NotAtOrSpace: CharClass := NoneOf({'@'}, true)
  const NotGtOrSpace: CharClass := NoneOf({'>'}, true)

  /** `EMAIL_SUBADDR_RE = '[^\s<]+\+([^@\s]+)@[^\s>]+'`, used with `search`. */
  const SubaddrRe: seq<Atom> :=
    [Rep(NotLtOrSpace, 1), Lit('+'), Rep(NotAtOrSpace, 1), Lit('@'), Rep(NotGtOrSpace, 1)]

  /** From `j`, `s` holds a subaddressed address whose `+` is at `p` and whose `@` is at
      `q`: characters other than `<` and whitespace, the `+`, a subaddress of characters
      other than `@` and whitespace, the `@`, and a character other than `>` and
      whitespace. */
  predicate SubaddrAt(s: string, j: nat, p: nat, q: nat) {
    && j < p && p + 1 < q && q + 1 < |s|
    && (forall i | j <= i < p :: s[i] != '<' && !IsSpace(s[i]))
    && s[p] == '+'
    && (forall i | p < i < q :: s[i] != '@' && !IsSpace(s[i]))
    && s[q] == '@'
    && s[q + 1] != '>' && !IsSpace(s[q + 1])
  }

  /** The address at `j` with its `+` at `p` is the one `search` reports: no address starts
      before `j`, and none starting at `j` has a later `+`. */
  ghost predicate FirstSubaddr(s: string, j: nat, p: nat) {
    forall j': nat, p': nat, q': nat :: SubaddrAt(s, j', p', q') ==> j <= j' && (j' == j ==> p' <= p)
  }

  lemma SubaddrParseShape(s: string, j: nat, e: seq<nat>)
    requires Parse(SubaddrRe, s, j, e)
    ensures |e| == 5 && e[1] == e[0] + 1 && e[3] == e[2] + 1 && SubaddrAt(s, j, e[0], e[2])
  {
    var p := SubaddrRe;
    assert Parse(p[1..], s, e[0], e[1..]);
    assert Parse(p[2..], s, e[1], e[2..]) by { assert p[1..][1..] == p[2..]; assert e[1..][1..] == e[2..]; }
    assert Parse(p[3..], s, e[2], e[3..]) by { assert p[2..][1..] == p[3..]; assert e[2..][1..] == e[3..]; }
    assert Parse(p[4..], s, e[3], e[4..]) by { assert p[3..][1..] == p[4..]; assert e[3..][1..] == e[4..]; }
    assert InClass(s[e[3]], NotGtOrSpace);
  }

  lemma SubaddrWitness(s: string, j: nat, p: nat, q: nat)
    requires SubaddrAt(s, j, p, q)
    ensures Parse(SubaddrRe, s, j, [p, p + 1, q, q + 1, RunEnd(s, q + 1, NotGtOrSpace)])
  {
    var R := RunEnd(s, q + 1, NotGtOrSpace);
    RunEndLongest(s, q + 1, NotGtOrSpace, q + 2);
    assert Parse([Rep(NotGtOrSpace, 1)], s, q + 1, [R]);
    assert Parse([Lit('@'), Rep(NotGtOrSpace, 1)], s, q, [q + 1, R]);
    assert Parse([Rep(NotAtOrSpace, 1), Lit('@'), Rep(NotGtOrSpace, 1)], s, p + 1, [q, q + 1, R]);
    assert Parse(SubaddrRe[1..], s, p, [p + 1, q, q + 1, R]);
  }

  /** An address at the reported start has its `+` no later than the reported one. */
  lemma SubaddrLastPlus(s: string, j: nat, e: seq<nat>, p: nat, q: nat)
    requires Preferred(SubaddrRe, s, j, e) && SubaddrAt(s, j, p, q)
    ensures |e| == 5 && p <= e[0]
  {
    SubaddrWitness(s, j, p, q);
    var w := [p, p + 1, q, q + 1, RunEnd(s, q + 1, NotGtOrSpace)];
    assert LexLe(w, e);
  }

  lemma SubaddrFound(s: string, h: Hit)
    requires SearchFrom(SubaddrRe, s, 0) == Some(h)
    ensures |h.ends| == 5 && SubaddrAt(s, h.start, h.ends[0], h.ends[2])
    ensures FirstSubaddr(s, h.start, h.ends[0])
  {
    SearchFromBest(SubaddrRe, s, 0);
    SubaddrParseShape(s, h.start, h.ends);
    forall j': nat, p': nat, q': nat | SubaddrAt(s, j', p', q')
      ensures h.start <= j' && (j' == h.start ==> p' <= h.ends[0])
    {
      SubaddrWitness(s, j', p', q');
      ParseFound(SubaddrRe, s, 0, j', [p', p' + 1, q', q' + 1, RunEnd(s, q' + 1, NotGtOrSpace)]);
      if j' == h.start {
        SubaddrLastPlus(s, h.start, h.ends, p', q');
      }
    }
  }

  lemma SubaddrMissing(s: string)
    ensures SearchFrom(SubaddrRe, s, 0).None? <==> forall j: nat, p: nat, q: nat :: !SubaddrAt(s, j, p, q)
  {
    forall j: nat, p: nat, q: nat | SubaddrAt(s, j, p, q) ensures SearchFrom(SubaddrRe, s, 0).Some? {
      SubaddrWitness(s, j, p, q);
      ParseFound(SubaddrRe, s, 0, j, [p, p + 1, q, q + 1, RunEnd(s, q + 1, NotGtOrSpace)]);
    }
    if SearchFrom(SubaddrRe, s, 0).Some? {
      SubaddrFound(s, SearchFrom(SubaddrRe, s, 0).value);
    }
  }

  /** `EMAIL_SUBADDR_RE.search(s).group(1)`: the subaddress of the first subaddressed
      address in `s`, taken at the address's last `+` and running to the next `@`. */
  function SearchSubaddr(s: string): (r: Option<string>)
    ensures r.None? <==> forall j: nat, p: nat, q: nat :: !SubaddrAt(s, j, p, q)
    ensures r.Some? ==>
              exists j: nat, p: nat, q: nat :: SubaddrAt(s, j, p, q) && FirstSubaddr(s, j, p) && r.value == s[p + 1..q]
    ensures r.Some? ==> r.value != "" && '@' !in r.value && NoSpace(r.value)
  {
    SubaddrMissing(s);
    match SearchFrom(SubaddrRe, s, 0)
    case None => None
    case Some(h) =>
      SubaddrFound(s, h);
      var x := s[h.ends[0] + 1..h.ends[2]];
      assert forall i | 0 <= i < |x| :: x[i] == s[h.ends[0] + 1 + i];
      Some(x)
  }

  // ---------------------------------------------------------------------------
  // List identifiers

  const NotDot: CharClass := NoneOf({'.'}, false)
  const NotGt: CharClass := NoneOf({'>'}, false)

  /** `LIST_ID_RE = '<([^.]+)\.[^>]+>'`, used with `search`. */
  const ListIdRe: seq<Atom> := [Lit('<'), Rep(NotDot, 1), Lit('.'), Rep(NotGt, 1), Lit('>')]

  /** From `j`, `s` holds `<name.rest>`: the `<`, a non-empty name without `.`, the `.` at
      `d`, a non-empty rest without `>`, and the `>` at `g`. */
  predicate ListIdAt(s: string, j: nat, d: nat, g: nat) {
    && j + 1 < d && d + 1 < g < |s|
    && s[j] == '<'
    && (forall i | j < i < d :: s[i] != '.')
    && s[d] == '.'
    && (forall i | d < i < g :: s[i] != '>')
    && s[g] == '>'
  }

  lemma ListIdParseShape(s: string, j: nat, e: seq<nat>)
    requires Parse(ListIdRe, s, j, e)
    ensures |e| == 5 && e[0] == j + 1 && e[2] == e[1] + 1 && ListIdAt(s, j, e[1], e[3])
  {
    var p := ListIdRe;
    assert Parse(p[1..], s, e[0], e[1..]);
    assert Parse(p[2..], s, e[1], e[2..]) by { assert p[1..][1..] == p[2..]; assert e[1..][1..] == e[2..]; }
    assert Parse(p[3..], s, e[2], e[3..]) by { assert p[2..][1..] == p[3..]; assert e[2..][1..] == e[3..]; }
    assert Parse(p[4..], s, e[3], e[4..]) by { assert p[3..][1..] == p[4..]; assert e[3..][1..] == e[4..]; }
    assert forall i | j < i < e[1] :: InClass(s[i], NotDot);
    assert forall i | e[1] < i < e[3] :: InClass(s[i], NotGt);
  }

  lemma ListIdWitness(s: string, j: nat, d: nat, g: nat)
    requires ListIdAt(s, j, d, g)
    ensures Parse(ListIdRe, s, j, [j + 1, d, d + 1, g, g + 1])
  {
    assert AllIn(s, d + 1, g, NotGt);
    assert AllIn(s, j + 1, d, NotDot);
    assert Parse([Lit('>')], s, g, [g + 1]);
    assert Parse([Rep(NotGt, 1), Lit('>')], s, d + 1, [g, g + 1]);
    assert Parse([Lit('.'), Rep(NotGt, 1), Lit('>')], s, d, [d + 1, g, g + 1]);
    assert Parse(ListIdRe[1..], s, j + 1, [d, d + 1, g, g + 1]);
  }

  /** No list identifier starts before `j`. */
  ghost predicate FirstListId(s: string, j: nat) {
    forall j': nat, d': nat, g': nat :: ListIdAt(s, j', d', g') ==> j <= j'
  }

  lemma ListIdFound(s: string, h: Hit)
    requires SearchFrom(ListIdRe, s, 0) == Some(h)
    ensures |h.ends| == 5 && h.ends[0] == h.start + 1 && ListIdAt(s, h.start, h.ends[1], h.ends[3])
    ensures FirstListId(s, h.start)
  {
    ListIdParseShape(s, h.start, h.ends);
    forall j': nat, d': nat, g': nat | ListIdAt(s, j', d', g') ensures h.start <= j' {
      ListIdWitness(s, j', d', g');
      ParseFound(ListIdRe, s, 0, j', [j' + 1, d', d' + 1, g', g' + 1]);
    }
  }

  lemma ListIdMissing(s: string)
    ensures SearchFrom(ListIdRe, s, 0).None? <==> forall j: nat, d: nat, g: nat :: !ListIdAt(s, j, d, g)
  {
    forall j: nat, d: nat, g: nat | ListIdAt(s, j, d, g) ensures SearchFrom(ListIdRe, s, 0).Some? {
      ListIdWitness(s, j, d, g);
      ParseFound(ListIdRe, s, 0, j, [j + 1, d, d + 1, g, g + 1]);
    }
    if SearchFrom(ListIdRe, s, 0).Some? {
      ListIdFound(s, SearchFrom(ListIdRe, s, 0).value);
    }
  }

  /** `LIST_ID_RE.search(s).group(1)`: the name of the first `<name.rest>` in `s`, which
      runs from the `<` to the first `.` after it. */
  function SearchListName(s: string): (r: Option<string>)
    ensures r.None? <==> forall j: nat, d: nat, g: nat :: !ListIdAt(s, j, d, g)
    ensures r.Some? ==>
              exists j: nat, d: nat, g: nat :: ListIdAt(s, j, d, g) && FirstListId(s, j) && r.value == s[j + 1..d]
    ensures r.Some? ==> r.value != "" && '.' !in r.value
  {
    ListIdMissing(s);
    match SearchFrom(ListIdRe, s, 0)
    case None => None
    case Some(h) =>
      ListIdFound(s, h);
      var x := s[h.ends[0]..h.ends[1]];
      assert forall i | 0 <= i < |x| :: x[i] == s[h.ends[0] + i];
      Some(x)
  }

  /** An empty header value holds neither pattern. */
  lemma NothingInEmptyHeader()
    ensures SearchSubaddr("") == None && SearchListName("") == None
  {
  }

  // ---------------------------------------------------------------------------
  // Spam verdicts

  const BogosityLabel: string := "X-Bogosity:"
  const SpamWord: string := "Spam"

  /** `BGF_SPAM_RE = 'X-Bogosity:\s*Spam'`, used with `search`. */
  const BogosityRe: seq<Atom> := Lits(BogosityLabel) + [Rep(Space, 0)] + Lits(SpamWord)

  /** `v` holds `X-Bogosity:` at `i`, then whitespace, then `Spam` at `j`. */
  predicate SpamAt(v: string, i: nat, j: nat) {
    && i + |BogosityLabel| <= j && j + |SpamWord| <= |v|
    && v[i..i + |BogosityLabel|] == BogosityLabel
    && AllSpace(v[i + |BogosityLabel|..j])
    && v[j..j + |SpamWord|] == SpamWord
  }

  lemma BogositySplit(v: string, i: nat, e: seq<nat>)
    requires |e| == |BogosityLabel| + 1 + |SpamWord|
    ensures Parse(BogosityRe, v, i, e) <==>
              && Parse(Lits(BogosityLabel), v, i, e[..|BogosityLabel|])
              && Parse([Rep(Space, 0)], v, Stop(i, e[..|BogosityLabel|]), [e[|BogosityLabel|]])
              && Parse(Lits(SpamWord), v, e[|BogosityLabel|], e[|BogosityLabel| + 1..])
  {
    var n := |BogosityLabel|;
    var a := Lits(BogosityLabel) + [Rep(Space, 0)];
    ParseAppend(a, Lits(SpamWord), v, i, e);
    ParseAppend(Lits(BogosityLabel), [Rep(Space, 0)], v, i, e[..n + 1]);
    assert e[..n + 1][..n] == e[..n];
    assert e[..n + 1][n..] == [e[n]];
    assert Stop(i, e[..n + 1]) == e[n];
  }

  lemma SpamParseShape(v: string, i: nat, e: seq<nat>)
    requires i <= |v| && Parse(BogosityRe, v, i, e)
    ensures |e| == |BogosityLabel| + 1 + |SpamWord| && SpamAt(v, i, e[|BogosityLabel|])
  {
    var n := |BogosityLabel|;
    BogositySplit(v, i, e);
    ParseLits(BogosityLabel, v, i, e[..n]);
    assert Stop(i, e[..n]) == i + n;
    AllSpaceIn(v, i + n, e[n]);
    ParseLits(SpamWord, v, e[n], e[n + 1..]);
  }

  lemma SpamWitness(v: string, i: nat, j: nat)
    requires SpamAt(v, i, j)
    ensures Parse(BogosityRe, v, i, Steps(i, |BogosityLabel|) + [j] + Steps(j, |SpamWord|))
  {
    var n := |BogosityLabel|;
    var e := Steps(i, n) + [j] + Steps(j, |SpamWord|);
    assert e[..n] == Steps(i, n);
    assert e[n] == j;
    assert e[n + 1..] == Steps(j, |SpamWord|);
    ParseLits(BogosityLabel, v, i, e[..n]);
    AllSpaceIn(v, i + n, j);
    ParseLits(SpamWord, v, j, e[n + 1..]);
    BogositySplit(v, i, e);
  }

  /** `BGF_SPAM_RE.search(v)` succeeds: the verdict line says `X-Bogosity:`, optional
      whitespace, `Spam`, anywhere in it. */
  function IsSpamVerdict(v: string): (b: bool)
    ensures b <==> exists i: nat, j: nat :: SpamAt(v, i, j)
  {
    forall i: nat, j: nat | SpamAt(v, i, j) ensures SearchFrom(BogosityRe, v, 0).Some? {
      SpamWitness(v, i, j);
      ParseFound(BogosityRe, v, 0, i, Steps(i, |BogosityLabel|) + [j] + Steps(j, |SpamWord|));
    }
    match SearchFrom(BogosityRe, v, 0)
    case None => false
    case Some(h) =>
      SpamParseShape(v, h.start, h.ends);
      true
  }
}
