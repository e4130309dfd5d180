/**
  Two places where the instruction reader of concorde/instructions.py does not do what it
  evidently means to. Each is shown on the reading as written, next to what the intended
  reading does with the same input.
 */
module Findings {
  import opened Wrappers
  import opened Regex
  import opened Text
  import opened InstructionSyntax
  import opened Instructions
  import A = Actions

  // ---------------------------------------------------------------------------
  // Tokenising the actions part

  /** As written, an actions part with whitespace at either end yields an empty token,
      `parse_action_token` indexes into it, and the line never reaches its query. */
  lemma EdgeBlankNeverRuns(search: (nat, string) -> seq<A.Message>, n: nat, line: string)
    requires MatchInstr(line).Some?
    requires IsSpace(MatchInstr(line).value.actions[0]) ||
             IsSpace(MatchInstr(line).value.actions[|MatchInstr(line).value.actions| - 1])
    ensures !ProcessLine(AsWritten, search, n, line).Ran?
  {
    var tokens := Tokens(AsWritten, MatchInstr(line).value.actions);
    var i :| 0 <= i < |tokens| && tokens[i] == "";
    assert !TokenOk(ParseActionToken(tokens[i]));
  }

  /** Read as intended, no token is empty, so no line crashes on an empty token. */
  lemma IntendedNoIndexError(search: (nat, string) -> seq<A.Message>, n: nat, line: string)
    ensures ProcessLine(Intended, search, n, line) != TokenCrashed(IndexError)
  {
    var r := ProcessLine(Intended, search, n, line);
    if r.TokenCrashed? {
      var tokens := Tokens(Intended, MatchInstr(line).value.actions);
      var p := ParseTokens(tokens);
      assert tokens[p.index] != "";
    }
  }

  /** The line `+a  -- q`: one action, two blanks, the separator, a query. */
  predicate IsEdgeLine(line: string) {
    && |line| == 8 && line[0] == '+' && line[1] == 'a' && line[2] == ' ' && line[3] == ' '
    && line[4] == '-' && line[5] == '-' && line[6] == ' ' && line[7] == 'q'
  }

  lemma EdgeLineParts(line: string)
    requires IsEdgeLine(line)
    ensures MatchInstr(line) == Some(InstrParts(line[..3], line[7..]))
  {
    assert SeparatorAt(line, 3, 4, 7);
    assert NoNewline(line[..3]);
    assert SplitsAt(line, 3);
    var r := MatchInstr(line).value;
    forall k: nat | SplitsAt(line, k) ensures k <= 3 {
      var a: nat, b: nat :| SeparatorAt(line, k, a, b);
    }
    assert |r.actions| == 3;
    var a: nat, b: nat :| SeparatorAt(line, 3, a, b) && r.query == RestOfLine(line, b);
    assert a == 4 && b == 7;
    assert r.actions == line[..3];
    IndexOfAt(line[7..], '\n', 1);
    assert line[7..][..1] == line[7..];
    assert r.query == line[7..];
  }

  /** The actions part `+a `: the source's split leaves an empty token after `+a`. */
  lemma EdgeTokens(acts: string)
    requires |acts| == 3 && acts[0] == '+' && acts[1] == 'a' && acts[2] == ' '
    ensures SplitBlanks(acts) == [acts[..2], ""]
    ensures Words(acts) == [acts[..2]]
  {
    var word := acts[..2];
    SpaceIndexAt(acts, 2);
    assert acts[2..] == [' '];
    assert TrimStart([' ']) == "";
    assert SpaceFields(acts) == [word, ""];
    assert NonEmpty([word, ""]) == [word];
  }

  /** The token `+a` parses to a `tag` with the one argument `a`; the empty token crashes. */
  lemma EdgeParse(word: string)
    requires |word| == 2 && word[0] == '+' && word[1] == 'a'
    ensures ParseTokens([word, ""]) == FailedAt(1, Crashed(IndexError))
    ensures ParseTokens([word]) == AllParsed([Some(ActionDescriptor(None, [word[1..]], Tag))])
  {
    var arg := word[1..];
    assert Rest(word) == arg;
    IndexOfAt(arg, '(', 1);
    assert NameText(word) == arg;
    assert Join([arg], ",") == arg;
    SplitArgsJoin([arg]);
    var d := ActionDescriptor(None, [arg], Tag);
    assert ParseActionToken(word) == Parsed(d);
    assert [word, ""][1..] == [""];
    assert ParseTokens([""]) == FailedAt(0, Crashed(IndexError));
    assert [word][1..] == [];
  }

  /** `+a  -- q` is neither a comment nor a blank line. */
  lemma EdgeLineRead(line: string)
    requires IsEdgeLine(line)
    ensures !IsComment(line) && !IsBlank(line)
  {
    assert !IsComment(line) by {
      forall k | 0 <= k < |line| && line[k] == '#' ensures false {
      }
    }
    assert !IsBlank(line) by {
      assert !IsSpace(line[0]);
    }
  }

  /** `+a  -- q` as written: the actions part `+a ` splits into `+a` and an empty token,
      and the line crashes on the empty one. */
  lemma EdgeLineAsWritten(search: (nat, string) -> seq<A.Message>, n: nat, line: string)
    requires IsEdgeLine(line)
    ensures Tokens(AsWritten, line[..3]) == [line[..2], ""]
    ensures ProcessLine(AsWritten, search, n, line) == TokenCrashed(IndexError)
  {
    var parts := InstrParts(line[..3], line[7..]);
    EdgeInstrAsWritten(search, n, parts.actions, parts.query);
    assert parts.actions[..2] == line[..2];
    EdgeLineRead(line);
    EdgeLineParts(line);
  }

  lemma EdgeInstrAsWritten(search: (nat, string) -> seq<A.Message>, n: nat, acts: string, q: string)
    requires |acts| == 3 && acts[0] == '+' && acts[1] == 'a' && acts[2] == ' '
    ensures Tokens(AsWritten, acts) == [acts[..2], ""]
    ensures ProcessInstruction(AsWritten, search, n, InstrParts(acts, q)) == TokenCrashed(IndexError)
  {
    EdgeTokens(acts);
    EdgeParse(acts[..2]);
  }

  /** `+a  -- q` read as intended: the actions part is the one word `+a`, and the line
      tags what the query `q` finds with `a`. */
  lemma EdgeLineIntended(search: (nat, string) -> seq<A.Message>, n: nat, line: string)
    requires IsEdgeLine(line)
    ensures Tokens(Intended, line[..3]) == [line[..2]]
    ensures ProcessLine(Intended, search, n, line) ==
              Ran(line[7..], search(n, line[7..]), Fold([Some(ActionDescriptor(None, [line[1..2]], Tag))], search(n, line[7..])))
  {
    var parts := InstrParts(line[..3], line[7..]);
    EdgeInstrIntended(search, n, parts.actions, parts.query);
    assert parts.actions[..2] == line[..2] && parts.actions[1..2] == line[1..2];
    EdgeLineRead(line);
    EdgeLineParts(line);
  }

  lemma EdgeInstrIntended(search: (nat, string) -> seq<A.Message>, n: nat, acts: string, q: string)
    requires |acts| == 3 && acts[0] == '+' && acts[1] == 'a' && acts[2] == ' '
    ensures Tokens(Intended, acts) == [acts[..2]]
    ensures ProcessInstruction(Intended, search, n, InstrParts(acts, q)) ==
              Ran(q, search(n, q), Fold([Some(ActionDescriptor(None, [acts[1..2]], Tag))], search(n, q)))
  {
    EdgeTokens(acts);
    EdgeParse(acts[..2]);
    assert acts[..2][1..] == acts[1..2];
  }

  // ---------------------------------------------------------------------------
  // Folding the actions over the messages

  /** A per-message handler other than `purge`. */
  predicate Changes(act: Option<ActionDescriptor>) {
    act.Some? && |act.value.args| > 0 && !IsBatch(act.value.handler) && act.value.handler != Purge
  }

  /** As written, the second action receives the first one's return values, so with a
      message to act on every line whose first two actions change tags stops after the
      first action, which alone has taken effect. */
  lemma ReduceStopsAfterFirst(acts: seq<Option<ActionDescriptor>>, msgs: seq<A.Message>)
    requires ValidActions(acts) && |acts| >= 2 && |msgs| > 0
    requires Changes(acts[0]) && Changes(acts[1])
    ensures FoldAsWritten(acts, msgs) == Aborted(AttributeError, PerformAction(acts[0].value, msgs).value)
  {
    assert acts[1..][0] == acts[1];
  }

  /** A per-message handler, `purge` included. */
  predicate PerMessage(act: Option<ActionDescriptor>) {
    act.Some? && |act.value.args| > 0 && !IsBatch(act.value.handler)
  }

  /** Read as intended, a line of per-message actions always finishes, and each message
      ends up as the actions, in order, leave it on its own. */
  lemma {:induction false} FoldPerMessage(acts: seq<Option<ActionDescriptor>>, msgs: seq<A.Message>)
    requires forall i | 0 <= i < |acts| :: PerMessage(acts[i])
    ensures ValidActions(acts)
    ensures Fold(acts, msgs).Finished?
    ensures forall i | 0 <= i < |msgs| :: Fold(acts, [msgs[i]]).Finished?
    ensures forall i | 0 <= i < |msgs| :: Fold(acts, msgs).msgs[i] == Fold(acts, [msgs[i]]).msgs[0]
    decreases |acts|
  {
    if |acts| > 0 {
      var d := acts[0].value;
      var ms := PerformAction(d, msgs).value;
      FoldPerMessage(acts[1..], ms);
      forall i | 0 <= i < |msgs|
        ensures Fold(acts, [msgs[i]]).Finished?
        ensures Fold(acts, msgs).msgs[i] == Fold(acts, [msgs[i]]).msgs[0]
      {
        var one := PerformAction(d, [msgs[i]]).value;
        assert one == [ms[i]];
        FoldPerMessage(acts[1..], one);
        assert one[0] == ms[i];
      }
    }
  }

  /** `+a +b` on one message: as written only `a` is added before the run stops; read as
      intended both are. */
  lemma ReduceExample(m: A.Message)
    ensures FoldAsWritten([Some(ActionDescriptor(None, ["a"], Tag)), Some(ActionDescriptor(None, ["b"], Tag))], [m]) ==
              Aborted(AttributeError, [A.Tag(["a"], m)])
    ensures Fold([Some(ActionDescriptor(None, ["a"], Tag)), Some(ActionDescriptor(None, ["b"], Tag))], [m]).Finished?
    ensures Fold([Some(ActionDescriptor(None, ["a"], Tag)), Some(ActionDescriptor(None, ["b"], Tag))], [m]).msgs[0].tags ==
              m.tags + {"a", "b"}
  {
    var a := Some(ActionDescriptor(None, ["a"], Tag));
    var b := Some(ActionDescriptor(None, ["b"], Tag));
    var acts := [a, b];
    ReduceStopsAfterFirst(acts, [m]);
    assert PerformAction(a.value, [m]).value == [A.Tag(["a"], m)];
    assert acts[1..] == [b];
    assert acts[1..][1..] == [];
    var once := [A.Tag(["a"], m)];
    assert PerformAction(b.value, once).value == [A.Tag(["b"], once[0])];
    assert A.Listed(["a"]) == {"a"};
    assert A.Listed(["b"]) == {"b"};
  }
}
