/** Plain string helpers shared by the pattern modules: searching, trimming, splitting, joining. */
module Text {
  import opened Regex

  /** Index of the first `c` in `s`, or `|s|` when there is none. */
  function IndexOf(s: string, c: char): (r: nat)
    ensures r <= |s|
    ensures forall i | 0 <= i < r :: s[i] != c
    ensures r < |s| ==> s[r] == c
  {
    if |s| == 0 then 0
    else if s[0] == c then 0
    else 1 + IndexOf(s[1..], c)
  }

  predicate NoSpace(s: string) {
    forall i | 0 <= i < |s| :: !IsSpace(s[i])
  }

  predicate AllSpace(s: string) {
    forall i | 0 <= i < |s| :: IsSpace(s[i])
  }

  /** `s.lstrip()` for Python 2 whitespace. */
  function TrimStart(s: string): string {
    if |s| > 0 && IsSpace(s[0]) then TrimStart(s[1..]) else s
  }

  /** `s.rstrip()` for Python 2 whitespace. */
  function TrimEnd(s: string): string {
    if |s| > 0 && IsSpace(s[|s| - 1]) then TrimEnd(s[..|s| - 1]) else s
  }

  /** Index of the first whitespace character of `s`, or `|s|` when there is none. */
  function SpaceIndex(s: string): (r: nat)
    ensures r <= |s|
    ensures forall i | 0 <= i < r :: !IsSpace(s[i])
    ensures r < |s| ==> IsSpace(s[r])
  {
    if |s| == 0 then 0
    else if IsSpace(s[0]) then 0
    else 1 + SpaceIndex(s[1..])
  }

  /** The pieces of `s` between maximal whitespace runs. Whitespace at either end of `s`
      leaves an empty piece there, and the empty text gives one empty piece. */
  function SpaceFields(s: string): seq<string>
    decreases |s|
  {
    var k := SpaceIndex(s);
    if k == |s| then [s]
    else
      TrimStartShape(s[k + 1..]);
      [s[..k]] + SpaceFields(TrimStart(s[k..]))
  }

  /** `sep.join(xs)`. */
  function Join(xs: seq<string>, sep: string): string {
    if |xs| == 0 then ""
    else if |xs| == 1 then xs[0]
    else xs[0] + sep + Join(xs[1..], sep)
  }

  lemma TrimEndShape(x: string)
    ensures |TrimEnd(x)| <= |x| && TrimEnd(x) == x[..|TrimEnd(x)|]
    ensures AllSpace(x[|TrimEnd(x)|..])
    ensures |TrimEnd(x)| == 0 || !IsSpace(x[|TrimEnd(x)| - 1])
    decreases |x|
  {
    if |x| > 0 && IsSpace(x[|x| - 1]) {
      var y := x[..|x| - 1];
      TrimEndShape(y);
      assert x[|TrimEnd(x)|..] == y[|TrimEnd(y)|..] + [x[|x| - 1]];
    }
  }

  lemma TrimStartShape(x: string)
    ensures |TrimStart(x)| <= |x| && TrimStart(x) == x[|x| - |TrimStart(x)|..]
    ensures AllSpace(x[..|x| - |TrimStart(x)|])
    ensures |TrimStart(x)| == 0 || !IsSpace(TrimStart(x)[0])
    decreases |x|
  {
    if |x| > 0 && IsSpace(x[0]) {
      TrimStartShape(x[1..]);
      assert x[..|x| - |TrimStart(x)|] == [x[0]] + x[1..][..|x| - 1 - |TrimStart(x)|];
    }
  }

  /** Skipping a whitespace run with the matcher leaves the left-trimmed rest. */
  lemma {:induction false} RunEndTrimStart(s: string, lo: nat)
    requires lo <= |s|
    ensures s[RunEnd(s, lo, Space)..] == TrimStart(s[lo..])
    decreases |s| - lo
  {
    if lo < |s| && IsSpace(s[lo]) {
      RunEndTrimStart(s, lo + 1);
      assert s[lo..][1..] == s[lo + 1..];
    }
  }

  /** The run of characters other than `c` from `lo` ends at the first `c`. */
  lemma {:induction false} RunEndIndexOf(s: string, lo: nat, k: CharClass, c: char)
    requires lo <= |s|
    requires forall x :: InClass(x, k) <==> x != c
    ensures RunEnd(s, lo, k) == lo + IndexOf(s[lo..], c)
    decreases |s| - lo
  {
    if lo < |s| && InClass(s[lo], k) {
      RunEndIndexOf(s, lo + 1, k, c);
      assert s[lo..][1..] == s[lo + 1..];
    }
  }

  /** `IndexOf` is the unique position with no `c` before it and `c` (or the end) at it. */
  lemma IndexOfAt(s: string, c: char, r: nat)
    requires r <= |s| && (forall i | 0 <= i < r :: s[i] != c) && (r < |s| ==> s[r] == c)
    ensures IndexOf(s, c) == r
  {
  }

  lemma SpaceIndexAt(s: string, r: nat)
    requires r <= |s| && (forall i | 0 <= i < r :: !IsSpace(s[i])) && (r < |s| ==> IsSpace(s[r]))
    ensures SpaceIndex(s) == r
  {
  }

  /** No piece holds whitespace. */
  lemma {:induction false} SpaceFieldsNoSpace(s: string)
    ensures forall i | 0 <= i < |SpaceFields(s)| :: NoSpace(SpaceFields(s)[i])
    decreases |s|
  {
    var k := SpaceIndex(s);
    if k < |s| {
      TrimStartShape(s[k + 1..]);
      SpaceFieldsNoSpace(TrimStart(s[k..]));
    }
  }

  /** The first piece is empty exactly when `s` is empty or starts with whitespace. */
  lemma SpaceFieldsFirst(s: string)
    ensures SpaceFields(s)[0] == "" <==> |s| == 0 || IsSpace(s[0])
  {
  }

  /** The last piece is empty exactly when `s` is empty or ends with whitespace. */
  lemma {:induction false} SpaceFieldsLast(s: string)
    ensures var r := SpaceFields(s); r[|r| - 1] == "" <==> |s| == 0 || IsSpace(s[|s| - 1])
    decreases |s|
  {
    var k := SpaceIndex(s);
    if k < |s| {
      var t := TrimStart(s[k..]);
      TrimStartShape(s[k + 1..]);
      SpaceFieldsLast(t);
      SpaceFieldsLastStep(s, k, t);
    }
  }

  lemma SpaceFieldsLastStep(s: string, k: nat, t: string)
    requires k == SpaceIndex(s) < |s| && t == TrimStart(s[k..])
    requires var r := SpaceFields(t); r[|r| - 1] == "" <==> |t| == 0 || IsSpace(t[|t| - 1])
    ensures var r := SpaceFields(s); r[|r| - 1] == "" <==> |s| == 0 || IsSpace(s[|s| - 1])
  {
    var r := SpaceFields(t);
    SpaceFieldsCons(s, k, s[..k], t);
    assert SpaceFields(s)[|SpaceFields(s)| - 1] == r[|r| - 1];
    TrimStartLast(s, k, t);
  }

  /** Left-trimming a non-empty tail keeps its last character; trimming it all away
      means that character was whitespace. */
  lemma TrimStartLast(s: string, k: nat, t: string)
    requires k < |s| && t == TrimStart(s[k..])
    ensures (|t| == 0 || IsSpace(t[|t| - 1])) <==> IsSpace(s[|s| - 1])
  {
    var x := s[k..];
    TrimStartShape(x);
    assert x[|x| - 1] == s[|s| - 1];
    if |t| == 0 {
      assert x[..|x| - |t|][|x| - 1] == x[|x| - 1];
    } else {
      assert t[|t| - 1] == x[|x| - 1];
    }
  }

  /** `SpaceFields` takes one piece off the front. */
  lemma SpaceFieldsCons(t: string, k: nat, head: string, rest: string)
    requires k == SpaceIndex(t) < |t| && head == t[..k] && rest == TrimStart(t[k..])
    ensures SpaceFields(t) == [head] + SpaceFields(rest)
  {
    TrimStartShape(t[k + 1..]);
  }

  /** Every piece strictly between the first and the last is non-empty. */
  lemma {:induction false} SpaceFieldsInterior(s: string)
    ensures forall i | 0 < i < |SpaceFields(s)| - 1 :: SpaceFields(s)[i] != ""
    decreases |s|
  {
    var k := SpaceIndex(s);
    if k < |s| {
      var t := TrimStart(s[k..]);
      TrimStartShape(s[k + 1..]);
      TrimStartShape(s[k..]);
      SpaceFieldsInterior(t);
      if |t| > 0 {
        SpaceFieldsFirst(t);
      }
    }
  }

  /** Splitting words joined with single blanks gives the words back. */
  lemma {:induction false} SpaceFieldsJoin(ws: seq<string>)
    requires |ws| > 0 && forall i | 0 <= i < |ws| :: ws[i] != "" && NoSpace(ws[i])
    ensures SpaceFields(Join(ws, " ")) == ws
    decreases |ws|
  {
    if |ws| == 1 {
      SpaceIndexAt(ws[0], |ws[0]|);
    } else {
      var s := Join(ws, " ");
      var a := ws[0];
      var j := Join(ws[1..], " ");
      assert s == a + " " + j;
      SpaceIndexAt(s, |a|);
      assert s[..|a|] == a;
      assert s[|a|..] == [' '] + j;
      assert j[0] == ws[1][0];
      assert TrimStart(s[|a|..]) == j by {
        assert ([' '] + j)[1..] == j;
      }
      SpaceFieldsJoin(ws[1..]);
    }
  }

  /** `AllSpace` on a slice is the matcher's `\s` run. */
  lemma AllSpaceIn(s: string, lo: nat, hi: nat)
    requires lo <= hi <= |s|
    ensures AllSpace(s[lo..hi]) <==> AllIn(s, lo, hi, Space)
  {
    if AllSpace(s[lo..hi]) {
      forall i | lo <= i < hi ensures IsSpace(s[i]) {
        assert s[lo..hi][i - lo] == s[i];
      }
    }
  }
}
