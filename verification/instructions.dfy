/**
  The instruction reader of concorde/instructions.py: the registry of actions, the parser
  of one action token, the application of one action to the messages a query finds, and
  the line-by-line run of an instruction file.
 */
module Instructions {
  import opened Wrappers
  import opened Regex
  import opened Text
  import opened InstructionSyntax
  import A = Actions

  // ---------------------------------------------------------------------------
  // The registry

  /** The handler functions `known_actions` names. */
  datatype Handler =
    | Tag | Untag | TagBySubaddr | TagByListHeaders | TagBySpamStatus
    | LearnSpam | LearnHam | Purge

  /** A registry entry: one handler, or a family of handlers chosen by name. */
  datatype Entry = Simple(handler: Handler) | Family(members: map<string, Handler>)

  /** `known_actions`. */
  const KnownActions: map<char, Entry> := map[
    '+' := Simple(Tag),
    '-' := Simple(Untag),
    '=' := Family(map["by-subaddr" := TagBySubaddr, "by-list-info" := TagByListHeaders,
                      "by-spam-status" := TagBySpamStatus]),
    '%' := Family(map["learn-spam" := LearnSpam, "learn-ham" := LearnHam, "purge" := Purge])
  ]

  /** The sigils of the registry. */
  const Sigils: set<char> := {'+', '-', '=', '%'}

  /** The handlers that take the whole message list and talk to bogofilter. */
  predicate IsBatch(h: Handler) {
    h == TagBySpamStatus || h == LearnSpam || h == LearnHam
  }

  /** `+` and `-` are the simple actions `tag` and `untag`; `=` chooses among the
      handlers that derive tags and `%` among those that train bogofilter. */
  lemma RegistryShape()
    ensures KnownActions.Keys == Sigils
    ensures forall c | c in KnownActions :: KnownActions[c].Simple? <==> c == '+' || c == '-'
    ensures KnownActions['+'].handler == Tag && KnownActions['-'].handler == Untag
    ensures KnownActions['='].members.Keys == {"by-subaddr", "by-list-info", "by-spam-status"}
    ensures KnownActions['%'].members.Keys == {"learn-spam", "learn-ham", "purge"}
    ensures forall n | n in KnownActions['%'].members :: KnownActions['%'].members[n] in {LearnSpam, LearnHam, Purge}
    ensures forall c | c in KnownActions && KnownActions[c].Family? ::
              forall n | n in KnownActions[c].members :: KnownActions[c].members[n] !in {Tag, Untag}
  {
  }

  // ---------------------------------------------------------------------------
  // Action tokens

  /** The dict `parse_action_token` returns: `name` is None for a simple action. */
  datatype ActionDescriptor = ActionDescriptor(name: Option<string>, args: seq<string>, handler: Handler)

  /** The exceptions the instruction reader does not catch; each ends the run. */
  datatype Crash =
    | IndexError            // `action_token[0]` on an empty token
    | TypeError             // `re.split` on a missing group, or a missing descriptor called
    | KeyError(key: string) // a family name the registry does not hold
    | AttributeError        // a handler called on a handler's return value instead of a message

  /** What `parse_action_token` does with one token. */
  datatype TokenResult =
    | Parsed(descriptor: ActionDescriptor)
    | NoDescriptor             // `ACTION_RE` did not match: the parser returns None
    | ParseError(token: string) // `ActionParseError`
    | Crashed(crash: Crash)

  /** The token after its sigil. */
  function Rest(token: string): string
    requires |token| > 0
  {
    token[1..]
  }

  /** Group 1 of `ACTION_RE` on the rest of the token: the text before its first `(`. */
  function NameText(token: string): string
    requires |token| > 0
  {
    Rest(token)[..IndexOf(Rest(token), '(')]
  }

  /** Group 3 of `ACTION_RE` on the rest of the token: the text inside the parentheses. */
  function ArgText(token: string): Option<string>
    requires |token| > 0
  {
    Parenthesised(Rest(token), IndexOf(Rest(token), '('))
  }

  /** `parse_action_token(token)`. */
  function ParseActionToken(token: string): (r: TokenResult)
    ensures r == Crashed(IndexError) <==> |token| == 0
    ensures r.ParseError? <==> |token| > 0 && token[0] !in Sigils
    ensures r.ParseError? ==> r.token == token
    ensures r.NoDescriptor? <==> |token| > 0 && token[0] in Sigils && (|token| == 1 || token[1] == '(')
    ensures r.Parsed? ==> |r.descriptor.args| > 0
    ensures |token| > 1 && token[0] in {'+', '-'} && token[1] != '(' ==>
              r == Parsed(ActionDescriptor(None, ArgFields(NameText(token)), if token[0] == '+' then Tag else Untag))
    ensures |token| > 1 && token[0] in {'=', '%'} && token[1] != '(' && ArgText(token).None? ==>
              r == Crashed(TypeError)
    ensures |token| > 1 && token[0] in {'=', '%'} && token[1] != '(' && ArgText(token).Some? ==>
              r == if NameText(token) in KnownActions[token[0]].members
                   then Parsed(ActionDescriptor(Some(NameText(token)), ArgFields(ArgText(token).value),
                                                KnownActions[token[0]].members[NameText(token)]))
                   else Crashed(KeyError(NameText(token)))
  {
    if |token| == 0 then Crashed(IndexError)
    else if token[0] !in KnownActions then ParseError(token)
    else
      match MatchAction(token[1..])
      case None => NoDescriptor
      case Some(m) =>
        match KnownActions[token[0]]
        case Simple(h) => Parsed(ActionDescriptor(None, SplitArgs(m.name), h))
        case Family(members) =>
          if m.inner.None? then Crashed(TypeError)
          else if m.name !in members then Crashed(KeyError(m.name))
          else Parsed(ActionDescriptor(Some(m.name), SplitArgs(m.inner.value), members[m.name]))
  }

  // ---------------------------------------------------------------------------
  // Performing one action

  /** One handler call on one message. */
  function Handle(d: ActionDescriptor, m: A.Message): (r: A.Message)
    requires |d.args| > 0 && !IsBatch(d.handler)
    ensures r.headers == m.headers
    ensures d.handler == Tag ==> r.tags == m.tags + A.Listed(d.args)
    ensures d.handler == Untag ==> r.tags == m.tags - A.Listed(d.args)
    ensures d.handler != Untag ==> m.tags <= r.tags
    ensures d.handler == Purge ==> r == m
    ensures d.handler == TagBySubaddr ==>
              r.tags == m.tags + if A.Subaddress(m).Some? then {A.Subaddress(m).value, d.args[0]} else {}
    ensures d.handler == TagByListHeaders ==>
              r.tags == m.tags + if A.ListName(m).Some? then {A.ListName(m).value, d.args[0]} else {}
  {
    match d.handler
    case Tag => A.Tag(d.args, m)
    case Untag => A.Untag(d.args, m)
    case TagBySubaddr => A.TagBySubaddr(d.args, m)
    case TagByListHeaders => A.TagByListHeaders(d.args, m)
    case Purge => m
    case TagBySpamStatus | LearnSpam | LearnHam => assert false; m
  }

  /** A second call of any handler leaves what the first call left. */
  lemma HandleIdempotent(d: ActionDescriptor, m: A.Message)
    requires |d.args| > 0 && !IsBatch(d.handler)
    ensures Handle(d, Handle(d, m)) == Handle(d, m)
  {
    if d.handler == TagBySubaddr || d.handler == TagByListHeaders {
      A.DerivedIdempotent(d.args, m);
    }
  }

  /** `perform_action(action, msgs)`: the handler is called on every message, in order.
      Called on one message at a time, the bogofilter handlers are not modelled (none). */
  function PerformAction(d: ActionDescriptor, msgs: seq<A.Message>): (r: Option<seq<A.Message>>)
    requires |d.args| > 0
    ensures r.None? <==> |msgs| > 0 && IsBatch(d.handler)
    ensures r.Some? ==> |r.value| == |msgs|
    ensures r.Some? ==> forall i | 0 <= i < |msgs| :: !IsBatch(d.handler) && r.value[i] == Handle(d, msgs[i])
    decreases |msgs|
  {
    if |msgs| == 0 then Some([])
    else if IsBatch(d.handler) then None
    else Some([Handle(d, msgs[0])] + PerformAction(d, msgs[1..]).value)
  }

  /** Messages are handled one by one: the action on a concatenation is the concatenation
      of the actions on the parts. */
  lemma {:induction false} PerformActionAppend(d: ActionDescriptor, xs: seq<A.Message>, ys: seq<A.Message>)
    requires |d.args| > 0 && !IsBatch(d.handler)
    ensures PerformAction(d, xs + ys) == Some(PerformAction(d, xs).value + PerformAction(d, ys).value)
  {
    var r := PerformAction(d, xs + ys).value;
    var s := PerformAction(d, xs).value + PerformAction(d, ys).value;
    assert |r| == |s|;
    forall i | 0 <= i < |r| ensures r[i] == s[i] {
      if i < |xs| {
        assert (xs + ys)[i] == xs[i];
      } else {
        assert (xs + ys)[i] == ys[i - |xs|];
      }
    }
    assert r == s;
  }

  /** Performing the same action twice is performing it once. */
  lemma {:induction false} PerformActionIdempotent(d: ActionDescriptor, msgs: seq<A.Message>)
    requires |d.args| > 0 && !IsBatch(d.handler)
    ensures PerformAction(d, PerformAction(d, msgs).value) == PerformAction(d, msgs)
  {
    var once := PerformAction(d, msgs).value;
    var twice := PerformAction(d, once).value;
    forall i | 0 <= i < |msgs| ensures twice[i] == once[i] {
      HandleIdempotent(d, msgs[i]);
    }
    assert twice == once;
  }

  // ---------------------------------------------------------------------------
  // Running the actions of one line

  /** How the source is read. `AsWritten` follows the code; `Intended` tokenises the
      actions part into its words and passes the messages from one action to the next. */
  datatype Reading = AsWritten | Intended

  /** The action tokens of an actions part: `re.split('\s+', actions)` as written. */
  function Tokens(reading: Reading, actions: string): (r: seq<string>)
    ensures reading == AsWritten ==> r == SpaceFields(actions)
    ensures reading == Intended ==> r == NonEmpty(SpaceFields(actions))
    ensures reading == Intended ==> forall i | 0 <= i < |r| :: r[i] != "" && NoSpace(r[i])
    ensures reading == AsWritten ==> ("" in r <==> |actions| == 0 || IsSpace(actions[0]) || IsSpace(actions[|actions| - 1]))
  {
    SplitBlanksAllWords(actions);
    match reading
    case AsWritten => SplitBlanks(actions)
    case Intended => Words(actions)
  }

  /** The outcome of `map(parse_action_token, tokens)`: Python 2's `map` parses every token,
      in order, before the query runs, and the first failure ends it. */
  datatype Parsing =
    | AllParsed(actions: seq<Option<ActionDescriptor>>)
    | FailedAt(index: nat, failure: TokenResult)

  predicate TokenOk(t: TokenResult) {
    t.Parsed? || t.NoDescriptor?
  }

  function Descriptor(t: TokenResult): Option<ActionDescriptor> {
    if t.Parsed? then Some(t.descriptor) else None
  }

  /** Every descriptor has an argument list to hand to its handler. */
  predicate ValidActions(acts: seq<Option<ActionDescriptor>>) {
    forall i | 0 <= i < |acts| :: acts[i].Some? ==> |acts[i].value.args| > 0
  }

  function ParseTokens(tokens: seq<string>): (r: Parsing)
    ensures r.AllParsed? <==> forall i | 0 <= i < |tokens| :: TokenOk(ParseActionToken(tokens[i]))
    ensures r.AllParsed? ==> |r.actions| == |tokens|
    ensures r.AllParsed? ==>
              forall i | 0 <= i < |tokens| :: r.actions[i] == Descriptor(ParseActionToken(tokens[i]))
    ensures r.AllParsed? ==> ValidActions(r.actions)
    ensures r.FailedAt? ==> r.index < |tokens| && r.failure == ParseActionToken(tokens[r.index])
    ensures r.FailedAt? ==> !TokenOk(r.failure)
    ensures r.FailedAt? ==> forall i | 0 <= i < r.index :: TokenOk(ParseActionToken(tokens[i]))
  {
    var ts := seq(|tokens|, i requires 0 <= i < |tokens| => ParseActionToken(tokens[i]));
    assert forall i | 0 <= i < |tokens| :: ts[i] == ParseActionToken(tokens[i]);
    Collect(ts)
  }

  /** The token results taken in order up to the first failure. */
  function Collect(ts: seq<TokenResult>): (r: Parsing)
    ensures r.AllParsed? <==> forall i | 0 <= i < |ts| :: TokenOk(ts[i])
    ensures r.AllParsed? ==> |r.actions| == |ts| && forall i | 0 <= i < |ts| :: r.actions[i] == Descriptor(ts[i])
    ensures r.FailedAt? ==> r.index < |ts| && r.failure == ts[r.index] && !TokenOk(r.failure)
    ensures r.FailedAt? ==> forall i | 0 <= i < r.index :: TokenOk(ts[i])
    decreases |ts|
  {
    if |ts| == 0 then AllParsed([])
    else if !TokenOk(ts[0]) then FailedAt(0, ts[0])
    else
      match Collect(ts[1..])
      case AllParsed(ds) => AllParsed([Descriptor(ts[0])] + ds)
      case FailedAt(i, f) => FailedAt(i + 1, f)
  }

  /** What applying a line's actions came to, with the messages as the store holds them. */
  datatype Applied =
    | Finished(msgs: seq<A.Message>)
    | Aborted(crash: Crash, msgs: seq<A.Message>)
    | Unmodelled // a bogofilter handler was reached

  /** One action applied to the messages. A missing descriptor is called only when there
      is a message to call it on. */
  function Step(act: Option<ActionDescriptor>, msgs: seq<A.Message>): (r: Applied)
    requires act.Some? ==> |act.value.args| > 0
    ensures r.Finished? ==> |r.msgs| == |msgs|
    ensures r.Aborted? <==> act.None? && |msgs| > 0
    ensures r.Aborted? ==> r == Aborted(TypeError, msgs)
    ensures r.Unmodelled? <==> act.Some? && |msgs| > 0 && IsBatch(act.value.handler)
    ensures |msgs| == 0 ==> r == Finished(msgs)
    ensures act.Some? && !IsBatch(act.value.handler) ==>
              r.Finished? && forall i | 0 <= i < |msgs| :: r.msgs[i] == Handle(act.value, msgs[i])
  {
    match act
    case None => if |msgs| == 0 then Finished(msgs) else Aborted(TypeError, msgs)
    case Some(d) =>
      match PerformAction(d, msgs)
      case None => Unmodelled
      case Some(ms) => Finished(ms)
  }

  /** The actions in order, each on the messages the previous one left. */
  function Fold(acts: seq<Option<ActionDescriptor>>, msgs: seq<A.Message>): (r: Applied)
    requires ValidActions(acts)
    ensures r.Finished? ==> |r.msgs| == |msgs|
    ensures r.Aborted? ==> |r.msgs| == |msgs| && r.crash == TypeError && |msgs| > 0 && None in acts
    ensures r.Unmodelled? ==> |msgs| > 0 && exists i | 0 <= i < |acts| :: acts[i].Some? && IsBatch(acts[i].value.handler)
    ensures (forall i | 0 <= i < |acts| :: acts[i].Some? && !IsBatch(acts[i].value.handler)) ==> r.Finished?
    decreases |acts|
  {
    if |acts| == 0 then Finished(msgs)
    else
      assert acts == [acts[0]] + acts[1..];
      match Step(acts[0], msgs)
      case Finished(ms) =>
        var r := Fold(acts[1..], ms);
        assert r.Unmodelled? ==> exists i | 0 <= i < |acts| :: acts[i].Some? && IsBatch(acts[i].value.handler) by {
          if r.Unmodelled? {
            var i :| 0 <= i < |acts[1..]| && acts[1..][i].Some? && IsBatch(acts[1..][i].value.handler);
            assert acts[i + 1] == acts[1..][i];
          }
        }
        r
      case other => other
  }

  /** Running two lists of actions one after the other is running their concatenation. */
  lemma {:induction false} FoldAppend(a: seq<Option<ActionDescriptor>>, b: seq<Option<ActionDescriptor>>, msgs: seq<A.Message>)
    requires ValidActions(a) && ValidActions(b)
    ensures ValidActions(a + b)
    ensures Fold(a + b, msgs) == match Fold(a, msgs) case Finished(ms) => Fold(b, ms) case other => other
    decreases |a|
  {
    assert ValidActions(a + b) by {
      forall i | 0 <= i < |a + b| && (a + b)[i].Some? ensures |(a + b)[i].value.args| > 0 {
        if i < |a| {
          assert (a + b)[i] == a[i];
        } else {
          assert (a + b)[i] == b[i - |a|];
        }
      }
    }
    if |a| == 0 {
      assert a + b == b;
    } else {
      assert (a + b)[0] == a[0];
      assert (a + b)[1..] == a[1..] + b;
      match Step(a[0], msgs)
      case Finished(ms) => FoldAppend(a[1..], b, ms);
      case Aborted(_, _) =>
      case Unmodelled =>
    }
  }

  predicate IsPurge(act: Option<ActionDescriptor>) {
    act.Some? && act.value.handler == Purge
  }

  /** What calling `act` on `None` in place of a message raises: a missing descriptor
      cannot be subscripted, a bogofilter handler cannot iterate `None`, and every other
      handler but `purge` reads a field of it. */
  function CallOnNone(act: Option<ActionDescriptor>): Crash
    requires !IsPurge(act)
  {
    if act.None? || IsBatch(act.value.handler) then TypeError else AttributeError
  }

  /** After the first action, `reduce` hands each later action the list the previous
      `perform_action` returned: one `None` per message, since the handlers return
      nothing. `purge` passes that on; the first later action that is not `purge`
      raises, and the messages keep what the first action did. */
  function OnNones(acts: seq<Option<ActionDescriptor>>, n: nat, committed: seq<A.Message>): (r: Applied)
    ensures r.Finished? || r.Aborted?
    ensures r.msgs == committed
    ensures n == 0 || (forall i | 0 <= i < |acts| :: IsPurge(acts[i])) ==> r == Finished(committed)
    ensures forall k | 0 <= k < |acts| ::
              n > 0 && !IsPurge(acts[k]) && (forall i | 0 <= i < k :: IsPurge(acts[i])) ==>
                r == Aborted(CallOnNone(acts[k]), committed)
    decreases |acts|
  {
    if |acts| == 0 || n == 0 then Finished(committed)
    else if IsPurge(acts[0]) then
      assert forall i | 0 <= i < |acts| - 1 :: acts[1..][i] == acts[i + 1];
      OnNones(acts[1..], n, committed)
    else Aborted(CallOnNone(acts[0]), committed)
  }

  /** `reduce(lambda ms, act: perform_action(act, ms), actions, msgs)` as written: the first
      action changes the messages; the later ones receive its return values. */
  function FoldAsWritten(acts: seq<Option<ActionDescriptor>>, msgs: seq<A.Message>): (r: Applied)
    requires ValidActions(acts)
    ensures |acts| <= 1 || |msgs| == 0 ==> r == Fold(acts, msgs)
    ensures r.Finished? || r.Aborted? ==> |r.msgs| == |msgs|
  {
    if |acts| == 0 then Finished(msgs)
    else
      match Step(acts[0], msgs)
      case Finished(ms) =>
        assert |acts| == 1 ==> Fold(acts, msgs) == Fold(acts[1..], ms);
        if |msgs| == 0 then FoldOnEmpty(acts[1..], ms); OnNones(acts[1..], |msgs|, ms)
        else OnNones(acts[1..], |msgs|, ms)
      case other => other
  }

  /** With no messages, every action list finishes without touching anything. */
  lemma {:induction false} FoldOnEmpty(acts: seq<Option<ActionDescriptor>>, msgs: seq<A.Message>)
    requires ValidActions(acts) && |msgs| == 0
    ensures Fold(acts, msgs) == Finished(msgs)
    decreases |acts|
  {
    if |acts| > 0 {
      assert ValidActions(acts[1..]);
      FoldOnEmpty(acts[1..], msgs);
    }
  }

  /** `run_actions` after its query: the line's actions applied to the messages found,
      under either reading. The two readings differ only when a line has two actions or
      more and the query finds a message. */
  function RunActions(reading: Reading, acts: seq<Option<ActionDescriptor>>, msgs: seq<A.Message>): (r: Applied)
    requires ValidActions(acts)
    ensures r.Finished? || r.Aborted? ==> |r.msgs| == |msgs|
    ensures |acts| <= 1 || |msgs| == 0 ==> r == Fold(acts, msgs)
    ensures |msgs| == 0 ==> r == Finished(msgs)
  {
    if |msgs| == 0 then FoldOnEmpty(acts, msgs); Fold(acts, msgs)
    else
      match reading
      case AsWritten => FoldAsWritten(acts, msgs)
      case Intended => Fold(acts, msgs)
  }

  // ---------------------------------------------------------------------------
  // Lines

  /** What the reader does with one line. */
  datatype LineOutcome =
    | Comment
    | Blank
    | NotInstruction              // logged as a warning and skipped
    | ParseFailed(token: string)  // `ActionParseError`, logged and the line skipped
    | TokenCrashed(crash: Crash)  // an uncaught exception while parsing the tokens
    | Ran(query: string, found: seq<A.Message>, result: Applied)

  /** Whether the run stops after this line. */
  predicate Stops(o: LineOutcome) {
    o.TokenCrashed? || (o.Ran? && !o.result.Finished?)
  }

  /** One line, number `n`, of `run_instructions`; `search(n, q)` is what query `q` finds
      in the database when line `n` runs. */
  function ProcessLine(reading: Reading, search: (nat, string) -> seq<A.Message>, n: nat, line: string): (r: LineOutcome)
    ensures IsComment(line) ==> r == Comment
    ensures !IsComment(line) && IsBlank(line) ==> r == Blank
    ensures r == NotInstruction <==> !IsComment(line) && !IsBlank(line) && MatchInstr(line).None?
    ensures r.Ran? || r.ParseFailed? || r.TokenCrashed? <==>
              !IsComment(line) && !IsBlank(line) && MatchInstr(line).Some?
    ensures !IsComment(line) && !IsBlank(line) && MatchInstr(line).Some? ==>
              r == ProcessInstruction(reading, search, n, MatchInstr(line).value)
  {
    if IsComment(line) then Comment
    else if IsBlank(line) then Blank
    else
      match MatchInstr(line)
      case None => NotInstruction
      case Some(parts) => ProcessInstruction(reading, search, n, parts)
  }

  /** The instruction `parts` read from line `n`: its tokens are parsed in order; a token
      that fails stops the line, and otherwise the query runs and the actions are applied
      to what it finds. */
  function ProcessInstruction(reading: Reading, search: (nat, string) -> seq<A.Message>, n: nat, parts: InstrParts): (r: LineOutcome)
    ensures r.Ran? || r.ParseFailed? || r.TokenCrashed?
    ensures r.Ran? <==> ParseTokens(Tokens(reading, parts.actions)).AllParsed?
    ensures r.ParseFailed? <==>
              ParseTokens(Tokens(reading, parts.actions)).FailedAt? &&
              ParseTokens(Tokens(reading, parts.actions)).failure.ParseError?
    ensures r.ParseFailed? ==> ParseTokens(Tokens(reading, parts.actions)).failure == ParseError(r.token)
    ensures r.ParseFailed? ==> r.token in Tokens(reading, parts.actions)
    ensures r.ParseFailed? ==> |r.token| > 0 && r.token[0] !in Sigils
    ensures r.Ran? ==> r.query == parts.query && r.found == search(n, r.query)
    ensures r.Ran? ==> ParseTokens(Tokens(reading, parts.actions)).AllParsed?
    ensures r.Ran? ==> r.result == RunActions(reading, ParseTokens(Tokens(reading, parts.actions)).actions, r.found)
    ensures r.TokenCrashed? ==>
              ParseTokens(Tokens(reading, parts.actions)).FailedAt? &&
              ParseTokens(Tokens(reading, parts.actions)).failure == Crashed(r.crash)
  {
    var tokens := Tokens(reading, parts.actions);
    match ParseTokens(tokens)
    case FailedAt(i, f) =>
      if f.ParseError? then ParseFailed(f.token) else TokenCrashed(f.crash)
    case AllParsed(acts) =>
      var found := search(n, parts.query);
      Ran(parts.query, found, RunActions(reading, acts, found))
  }

  /** A line's report: its 1-based number and what happened. */
  datatype Report = Report(lineNo: nat, outcome: LineOutcome)

  /** `run_instructions(db, instrs)`, with `process(n, line)` what happens to line `n`: the
      lines in order, each numbered by the counter; the run ends after the last line or at
      the first line that stops it. */
  method RunLines(process: (nat, string) -> LineOutcome, lines: seq<string>) returns (reports: seq<Report>)
    ensures |reports| <= |lines|
    ensures forall k | 0 <= k < |reports| :: reports[k] == Report(k + 1, process(k + 1, lines[k]))
    ensures forall k | 0 <= k < |reports| - 1 :: !Stops(reports[k].outcome)
    ensures |reports| < |lines| ==> |reports| > 0 && Stops(reports[|reports| - 1].outcome)
  {
    reports := [];
    var counter := 0;
    while counter < |lines|
      invariant counter == |reports| <= |lines|
      invariant forall k | 0 <= k < counter :: reports[k] == Report(k + 1, process(k + 1, lines[k]))
      invariant forall k | 0 <= k < counter :: !Stops(reports[k].outcome)
    {
      counter := counter + 1;
      var outcome := process(counter, lines[counter - 1]);
      reports := reports + [Report(counter, outcome)];
      if Stops(outcome) {
        return;
      }
    }
  }

  /** Line processing for one reading of the source against one database. */
  function LineStep(reading: Reading, search: (nat, string) -> seq<A.Message>): (nat, string) -> LineOutcome {
    (n: nat, line: string) => ProcessLine(reading, search, n, line)
  }

  lemma LineStepIs(reading: Reading, search: (nat, string) -> seq<A.Message>, n: nat, line: string)
    ensures LineStep(reading, search)(n, line) == ProcessLine(reading, search, n, line)
  {
  }

  method RunInstructions(reading: Reading, search: (nat, string) -> seq<A.Message>, lines: seq<string>)
    returns (reports: seq<Report>)
    ensures |reports| <= |lines|
    ensures forall k | 0 <= k < |reports| :: reports[k] == Report(k + 1, LineStep(reading, search)(k + 1, lines[k]))
    ensures forall k | 0 <= k < |reports| - 1 :: !Stops(reports[k].outcome)
    ensures |reports| < |lines| ==> |reports| > 0 && Stops(reports[|reports| - 1].outcome)
  {
    reports := RunLines(LineStep(reading, search), lines);
  }
}
