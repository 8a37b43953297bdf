/** The message envelope the agents exchange and the template language they
    use to pick messages out of their mailbox. The platform's transport is
    not part of this model: a mailbox is the sequence of messages delivered
    so far, oldest first. */
module Acl {
  import opened Wrappers
  import opened LibraryRecords
  import opened LivreModel

  datatype Performative =
    | Request | Cfp | Propose | Refuse | AcceptProposal | RejectProposal
    | Inform | Failure | Agree | Confirm

  /** An agent's local name. */
  type AgentId = string

  /** A message content: a string (`setContent`) or one of the serialized
      objects the agents send (`setContentObject`). */
  datatype Content =
    | Text(text: string)
    | ListeObject(titres: seq<string>)
    | ResultatObject(trouves: map<string, LibraryBook>, nonTrouves: seq<string>)
    | LivreObject(livre: BookData)

  /** `getContent()`. On an object content it yields the serialized bytes,
      which no agent here compares against; they are the empty string in
      this model. */
  function ContentText(c: Content): string {
    if c.Text? then c.text else ""
  }

  /** An ACL message; a field the sender never sets is the empty string. */
  datatype Message = Message(
    performative: Performative,
    sender: AgentId,
    receivers: seq<AgentId>,
    content: Content,
    conversationId: string,
    inReplyTo: string,
    replyWith: string)

  /** A fresh `new ACLMessage(p)` with one receiver, a content and a
      conversation id. */
  function NewMessage(p: Performative, sender: AgentId, receiver: AgentId, content: Content, conversationId: string): Message {
    Message(p, sender, [receiver], content, conversationId, "", "")
  }

  /** `m.createReply()` followed by `setPerformative` and `setContent`: the
      reply goes back to the sender, on the same conversation, answering the
      original's reply-with token and carrying a fresh token of its own. */
  function CreateReply(m: Message, from: AgentId, p: Performative, content: Content, token: string): (r: Message)
    ensures r.receivers == [m.sender] && r.conversationId == m.conversationId && r.inReplyTo == m.replyWith
    ensures r.performative == p && r.content == content && r.sender == from && r.replyWith == token
  {
    Message(p, from, [m.sender], content, m.conversationId, m.replyWith, token)
  }

  /** `MessageTemplate`: the matchers the agents use and their combinators. */
  datatype Template =
    | MatchPerformative(p: Performative)
    | MatchConversationId(id: string)
    | MatchContent(text: string)
    | MatchInReplyTo(token: string)
    | And(left: Template, right: Template)
    | Or(left: Template, right: Template)
    | Not(inner: Template)

  predicate Matches(t: Template, m: Message) {
    match t
    case MatchPerformative(p) => m.performative == p
    case MatchConversationId(id) => m.conversationId == id
    case MatchContent(text) => m.content == Text(text)
    case MatchInReplyTo(token) => m.inReplyTo == token
    case And(l, r) => Matches(l, m) && Matches(r, m)
    case Or(l, r) => Matches(l, m) || Matches(r, m)
    case Not(i) => !Matches(i, m)
  }

  /** The position of the oldest message the template matches. */
  function FirstMatch(inbox: seq<Message>, t: Template): (r: Option<nat>)
    ensures r.Some? ==> r.value < |inbox| && Matches(t, inbox[r.value])
    ensures r.Some? ==> forall j :: 0 <= j < r.value ==> !Matches(t, inbox[j])
    ensures r.None? ==> forall j :: 0 <= j < |inbox| ==> !Matches(t, inbox[j])
  {
    if inbox == [] then None
    else if Matches(t, inbox[0]) then Some(0)
    else match FirstMatch(inbox[1..], t)
      case None => None
      case Some(k) => Some(k + 1)
  }

  datatype Received = Received(msg: Option<Message>, rest: seq<Message>)

  /** `receive(template)`: takes the oldest matching message out of the
      mailbox, or returns nothing and leaves the mailbox as it was. */
  function Receive(inbox: seq<Message>, t: Template): (r: Received)
    ensures r.msg.None? <==> forall j :: 0 <= j < |inbox| ==> !Matches(t, inbox[j])
    ensures r.msg.None? ==> r.rest == inbox
    ensures r.msg.Some? ==> Matches(t, r.msg.value) && |r.rest| == |inbox| - 1
    ensures r.msg.Some? ==> multiset(r.rest) + multiset{r.msg.value} == multiset(inbox)
  {
    match FirstMatch(inbox, t)
    case None => Received(None, inbox)
    case Some(i) =>
      assert inbox == inbox[..i] + [inbox[i]] + inbox[i + 1..];
      Received(Some(inbox[i]), inbox[..i] + inbox[i + 1..])
  }

  /** Received messages leave in arrival order: the one taken is the oldest
      that matches, and the others keep their order. */
  lemma ReceiveTakesOldestMatch(inbox: seq<Message>, t: Template)
    requires exists j :: 0 <= j < |inbox| && Matches(t, inbox[j])
    ensures var r := Receive(inbox, t);
      exists i :: 0 <= i < |inbox| && r.msg == Some(inbox[i]) && r.rest == inbox[..i] + inbox[i + 1..]
        && forall j :: 0 <= j < i ==> !Matches(t, inbox[j])
  {
    var i := FirstMatch(inbox, t).value;
    assert Receive(inbox, t).rest == inbox[..i] + inbox[i + 1..];
  }

  /** When the oldest message matches, `receive` takes exactly that one. */
  lemma ReceiveHead(inbox: seq<Message>, t: Template)
    requires inbox != [] && Matches(t, inbox[0])
    ensures Receive(inbox, t) == Received(Some(inbox[0]), inbox[1..])
  {
    assert FirstMatch(inbox, t) == Some(0);
  }

  /** The messages of a mailbox the template matches, in arrival order. */
  function Filter(inbox: seq<Message>, t: Template): (r: seq<Message>)
    ensures |r| <= |inbox|
    ensures forall i :: 0 <= i < |r| ==> Matches(t, r[i])
  {
    if inbox == [] then [] else (if Matches(t, inbox[0]) then [inbox[0]] else []) + Filter(inbox[1..], t)
  }

  lemma {:induction false} FilterAppend(a: seq<Message>, b: seq<Message>, t: Template)
    ensures Filter(a + b, t) == Filter(a, t) + Filter(b, t)
  {
    if a == [] {
      assert a + b == b;
    } else {
      var head := if Matches(t, a[0]) then [a[0]] else [];
      assert (a + b)[0] == a[0];
      assert (a + b)[1..] == a[1..] + b;
      assert Filter(a + b, t) == head + Filter(a[1..] + b, t);
      FilterAppend(a[1..], b, t);
      assert Filter(a, t) == head + Filter(a[1..], t);
    }
  }

  /** No message of the mailbox matches, so the filter is empty. */
  lemma {:induction false} FilterOfUnmatched(inbox: seq<Message>, t: Template)
    requires forall j :: 0 <= j < |inbox| ==> !Matches(t, inbox[j])
    ensures Filter(inbox, t) == []
  {
    if inbox != [] {
      FilterOfUnmatched(inbox[1..], t);
    }
  }

  /** Filtering twice filters by both templates. */
  lemma {:induction false} FilterFilter(inbox: seq<Message>, t: Template, u: Template)
    ensures Filter(Filter(inbox, t), u) == Filter(inbox, And(t, u))
  {
    if inbox != [] {
      FilterFilter(inbox[1..], t, u);
      var head := if Matches(t, inbox[0]) then [inbox[0]] else [];
      FilterAppend(head, Filter(inbox[1..], t), u);
      if head != [] {
        assert head[1..] == [];
      }
    }
  }

  /** Taking out a matching message that no earlier message precedes. */
  lemma FilterAroundMatch(before: seq<Message>, x: Message, after: seq<Message>, t: Template)
    requires forall j :: 0 <= j < |before| ==> !Matches(t, before[j])
    requires Matches(t, x)
    ensures Filter(before + [x] + after, t) == [x] + Filter(before + after, t)
  {
    assert before + [x] + after == before + ([x] + after);
    FilterAppend(before, [x] + after, t);
    FilterAppend(before, after, t);
    FilterOfUnmatched(before, t);
    assert ([x] + after)[1..] == after;
  }

  /** Taking out a message the template does not match. */
  lemma FilterAroundUnmatched(before: seq<Message>, x: Message, after: seq<Message>, t: Template)
    requires !Matches(t, x)
    ensures Filter(before + [x] + after, t) == Filter(before + after, t)
  {
    assert before + [x] + after == before + ([x] + after);
    FilterAppend(before, [x] + after, t);
    FilterAppend(before, after, t);
    assert ([x] + after)[1..] == after;
  }

  /** `receive` is the head of the matching subsequence: the message taken
      is its first element and what stays behind matches the rest of it,
      while the messages the template does not match are all left, in
      order. */
  lemma ReceiveFilter(inbox: seq<Message>, t: Template)
    ensures var r := Receive(inbox, t);
      r.msg.Some? ==> Filter(inbox, t) == [r.msg.value] + Filter(r.rest, t)
    ensures var r := Receive(inbox, t);
      r.msg.None? ==> Filter(inbox, t) == []
    ensures Filter(Receive(inbox, t).rest, Not(t)) == Filter(inbox, Not(t))
  {
    match FirstMatch(inbox, t)
    case None =>
      FilterOfUnmatched(inbox, t);
    case Some(i) =>
      assert inbox == inbox[..i] + [inbox[i]] + inbox[i + 1..];
      FilterAroundMatch(inbox[..i], inbox[i], inbox[i + 1..], t);
      FilterAroundUnmatched(inbox[..i], inbox[i], inbox[i + 1..], Not(t));
  }

  /** A reply built with `CreateReply` is picked out by a template on the
      request's conversation id and reply-with token. */
  lemma ReplyMatchesRequest(m: Message, from: AgentId, p: Performative, c: Content, token: string)
    ensures Matches(And(MatchConversationId(m.conversationId), MatchInReplyTo(m.replyWith)), CreateReply(m, from, p, c, token))
  {
  }
}
