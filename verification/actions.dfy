/**
  The tag handlers of concorde/actions.py. A handler is called with the action's name,
  its argument list and one message, and changes the message's tags in the store; here
  it returns the message as it leaves it.
 */
module Actions {
  import opened Wrappers
  import opened Text
  import opened ActionPatterns

  /** A notmuch message as the handlers see it: its tags and its headers. A header name
      missing from `headers` stands for a lookup that fails inside notmuch
      (`NullPointerError`); a header the message lacks, which notmuch reports as the empty
      text, is the entry `name := ""`. */
  datatype Message = Message(tags: set<string>, headers: map<string, string>)

  /** The set of strings listed in `args`. */
  function Listed(args: seq<string>): set<string> {
    set a | a in args
  }

  /** `for tag in args: msg.add_tag(tag)`. */
  function AddTags(tags: set<string>, args: seq<string>): (r: set<string>)
    ensures r == tags + Listed(args)
    decreases |args|
  {
    if |args| == 0 then tags
    else
      assert Listed(args) == {args[0]} + Listed(args[1..]);
      AddTags(tags + {args[0]}, args[1..])
  }

  /** `for tag in args: msg.remove_tag(tag)`. */
  function RemoveTags(tags: set<string>, args: seq<string>): (r: set<string>)
    ensures r == tags - Listed(args)
    decreases |args|
  {
    if |args| == 0 then tags
    else
      assert Listed(args) == {args[0]} + Listed(args[1..]);
      RemoveTags(tags - {args[0]}, args[1..])
  }

  /** `tag(name, args, msg)`: every argument becomes a tag of the message. */
  function Tag(args: seq<string>, m: Message): (r: Message)
    ensures r.tags == m.tags + Listed(args) && r.headers == m.headers
  {
    m.(tags := AddTags(m.tags, args))
  }

  /** `untag(name, args, msg)`: no argument remains a tag of the message. */
  function Untag(args: seq<string>, m: Message): (r: Message)
    ensures r.tags == m.tags - Listed(args) && r.headers == m.headers
  {
    m.(tags := RemoveTags(m.tags, args))
  }

  lemma TagIdempotent(args: seq<string>, m: Message)
    ensures Tag(args, Tag(args, m)) == Tag(args, m)
  {
  }

  lemma UntagIdempotent(args: seq<string>, m: Message)
    ensures Untag(args, Untag(args, m)) == Untag(args, m)
  {
  }

  /** Removing what was just added leaves the tags the message had apart from the
      arguments, and adding what was just removed gives every argument back. */
  lemma TagUntagInverse(args: seq<string>, m: Message)
    ensures Untag(args, Tag(args, m)) == Untag(args, m)
    ensures Tag(args, Untag(args, m)) == Tag(args, m)
  {
  }

  // ---------------------------------------------------------------------------
  // Tags derived from headers

  const DeliveredTo: string := "Delivered-To"
  const ListId: string := "List-Id"

  /** The subaddress `tag_by_subaddr` finds in `Delivered-To`; none when the lookup fails
      or the header holds no subaddressed address. */
  function Subaddress(m: Message): (r: Option<string>)
    ensures DeliveredTo !in m.headers ==> r.None?
    ensures DeliveredTo in m.headers ==> r == SearchSubaddr(m.headers[DeliveredTo])
    ensures DeliveredTo in m.headers ==>
              (r.None? <==> forall j: nat, p: nat, q: nat :: !SubaddrAt(m.headers[DeliveredTo], j, p, q))
    ensures r.Some? ==> r.value != "" && '@' !in r.value && NoSpace(r.value)
  {
    if DeliveredTo in m.headers then SearchSubaddr(m.headers[DeliveredTo]) else None
  }

  /** `tag_by_subaddr(name, args, msg)`: with a subaddress found, it and `args[0]` become
      tags; otherwise the message is left as it is. */
  function TagBySubaddr(args: seq<string>, m: Message): (r: Message)
    requires |args| > 0
    ensures r.headers == m.headers && m.tags <= r.tags
    ensures Subaddress(m).None? ==> r == m
    ensures Subaddress(m).Some? ==> r.tags == m.tags + {Subaddress(m).value, args[0]}
  {
    match Subaddress(m)
    case None => m
    case Some(x) => m.(tags := m.tags + {x} + {args[0]})
  }

  /** The list name `tag_by_list_headers` finds in `List-Id`; none when the lookup fails
      or the header holds no `<name.rest>`. */
  function ListName(m: Message): (r: Option<string>)
    ensures ListId !in m.headers ==> r.None?
    ensures ListId in m.headers ==> r == SearchListName(m.headers[ListId])
    ensures ListId in m.headers ==>
              (r.None? <==> forall j: nat, d: nat, g: nat :: !ListIdAt(m.headers[ListId], j, d, g))
    ensures r.Some? ==> r.value != "" && '.' !in r.value
  {
    if ListId in m.headers then SearchListName(m.headers[ListId]) else None
  }

  /** `tag_by_list_headers(name, args, msg)`: with a list name found, it and `args[0]`
      become tags; otherwise the message is left as it is. */
  function TagByListHeaders(args: seq<string>, m: Message): (r: Message)
    requires |args| > 0
    ensures r.headers == m.headers && m.tags <= r.tags
    ensures ListName(m).None? ==> r == m
    ensures ListName(m).Some? ==> r.tags == m.tags + {ListName(m).value, args[0]}
  {
    match ListName(m)
    case None => m
    case Some(x) => m.(tags := m.tags + {x} + {args[0]})
  }

  /** The derived tags depend on headers only, which the handlers never change, so a
      second call adds nothing. */
  lemma DerivedIdempotent(args: seq<string>, m: Message)
    requires |args| > 0
    ensures TagBySubaddr(args, TagBySubaddr(args, m)) == TagBySubaddr(args, m)
    ensures TagByListHeaders(args, TagByListHeaders(args, m)) == TagByListHeaders(args, m)
  {
    assert Subaddress(TagBySubaddr(args, m)) == Subaddress(m);
    assert ListName(TagByListHeaders(args, m)) == ListName(m);
  }

  // ---------------------------------------------------------------------------
  // Spam verdicts

  /** The verdict line read back for message `i`; past the end of the output `readline`
      gives the empty text. */
  function VerdictAt(verdicts: seq<string>, i: nat): string {
    if i < |verdicts| then verdicts[i] else ""
  }

  /** The loop of `tag_by_spam_status`: message `i` gains `args[0]` exactly when verdict
      line `i` says `X-Bogosity:`, optional whitespace, `Spam`. */
  method TagBySpamStatus(args: seq<string>, msgs: seq<Message>, verdicts: seq<string>)
    returns (out: seq<Message>)
    requires |args| > 0
    ensures |out| == |msgs|
    ensures forall i | 0 <= i < |msgs| :: out[i].headers == msgs[i].headers && msgs[i].tags <= out[i].tags
    ensures forall i | 0 <= i < |msgs| ::
              out[i].tags == if IsSpamVerdict(VerdictAt(verdicts, i)) then msgs[i].tags + {args[0]} else msgs[i].tags
  {
    out := [];
    var i := 0;
    while i < |msgs|
      invariant i <= |msgs| && |out| == i
      invariant forall k | 0 <= k < i :: out[k].headers == msgs[k].headers
      invariant forall k | 0 <= k < i ::
                  out[k].tags == if IsSpamVerdict(VerdictAt(verdicts, k)) then msgs[k].tags + {args[0]} else msgs[k].tags
    {
      var m := msgs[i];
      if IsSpamVerdict(VerdictAt(verdicts, i)) {
        m := m.(tags := m.tags + {args[0]});
      }
      out := out + [m];
      i := i + 1;
    }
  }
}
