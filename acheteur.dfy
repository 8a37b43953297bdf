/** `agents.Acheteur`: the book buyer. It sends one call for proposals to
    every seller, collects the proposals that answer it, accepts the
    cheapest and waits for the seller's confirmation. The five-second
    deadlines become the mailbox contents delivered before them. */
module Buyer {
  import opened Wrappers
  import opened Acl
  import opened LivreModel

  const SaleConversation := "vente-livres"

  /** The template of both waiting behaviours: the sale conversation and a
      reply to the message carrying `token`. */
  function ReplyTemplate(token: string): (t: Template)
    ensures forall m :: Matches(t, m) <==> m.conversationId == SaleConversation && m.inReplyTo == token
  {
    And(MatchConversationId(SaleConversation), MatchInReplyTo(token))
  }

  /** A serialized object that is not a book: the `(Livre)` cast throws a
      `ClassCastException`, which no handler catches. */
  predicate ForeignObject(c: Content) {
    c.ListeObject? || c.ResultatObject?
  }

  /** What `RecevoirPropositions` ends with. */
  datatype Collection = Collection(propositions: seq<Message>, rest: seq<Message>, crashed: bool)

  /** The receive loop of `RecevoirPropositions`: matching replies are taken
      oldest first until `n` proposals are stored or none is left; a refusal
      is taken and dropped, and a proposal carrying an object that is not a
      book is stored and then ends the agent. */
  function Collect(inbox: seq<Message>, t: Template, n: nat): (r: Collection)
    ensures |r.propositions| <= n && |r.rest| <= |inbox|
    decreases |inbox|
  {
    if n == 0 then Collection([], inbox, false)
    else
      var rcv := Receive(inbox, t);
      if rcv.msg.None? then Collection([], inbox, false)
      else
        var m := rcv.msg.value;
        if m.performative != Propose then Collect(rcv.rest, t, n)
        else if ForeignObject(m.content) then Collection([m], rcv.rest, true)
        else
          var c := Collect(rcv.rest, t, n - 1);
          Collection([m] + c.propositions, c.rest, c.crashed)
  }

  function Prefixed(ps: seq<Message>, c: Collection): Collection {
    Collection(ps + c.propositions, c.rest, c.crashed)
  }

  /** One turn of the loop that takes a proposal and goes on. */
  lemma CollectStores(inbox: seq<Message>, t: Template, n: nat)
    requires n > 0 && Receive(inbox, t).msg.Some?
    requires Receive(inbox, t).msg.value.performative == Propose && !ForeignObject(Receive(inbox, t).msg.value.content)
    ensures Collect(inbox, t, n) == Prefixed([Receive(inbox, t).msg.value], Collect(Receive(inbox, t).rest, t, n - 1))
  {
  }

  /** One turn of the loop that takes a refusal, or a proposal that ends
      the agent. */
  lemma CollectSkips(inbox: seq<Message>, t: Template, n: nat)
    requires n > 0 && Receive(inbox, t).msg.Some?
    ensures var m := Receive(inbox, t).msg.value;
      m.performative != Propose ==> Collect(inbox, t, n) == Collect(Receive(inbox, t).rest, t, n)
    ensures var m := Receive(inbox, t).msg.value;
      m.performative == Propose && ForeignObject(m.content) ==> Collect(inbox, t, n) == Collection([m], Receive(inbox, t).rest, true)
  {
  }

  /** The loop ends when `n` proposals are stored or nothing matches. */
  lemma CollectEnds(inbox: seq<Message>, t: Template, n: nat)
    requires n == 0 || Receive(inbox, t).msg.None?
    ensures Collect(inbox, t, n) == Collection([], inbox, false)
  {
  }

  /** The receive loop as it runs, with the proposals stored so far in
      `stored`. */
  function CollectFrom(inbox: seq<Message>, t: Template, n: nat, stored: seq<Message>): Collection
    decreases |inbox|
  {
    if |stored| >= n then Collection(stored, inbox, false)
    else
      var rcv := Receive(inbox, t);
      if rcv.msg.None? then Collection(stored, inbox, false)
      else
        var m := rcv.msg.value;
        if m.performative != Propose then CollectFrom(rcv.rest, t, n, stored)
        else if ForeignObject(m.content) then Collection(stored + [m], rcv.rest, true)
        else CollectFrom(rcv.rest, t, n, stored + [m])
  }

  /** One turn of the loop, after `ps` are stored, that stores a proposal. */
  lemma CollectStoreStep(ps: seq<Message>, inbox: seq<Message>, t: Template, n: nat)
    requires n > 0 && Receive(inbox, t).msg.Some?
    requires Receive(inbox, t).msg.value.performative == Propose && !ForeignObject(Receive(inbox, t).msg.value.content)
    ensures Prefixed(ps, Collect(inbox, t, n)) == Prefixed(ps + [Receive(inbox, t).msg.value], Collect(Receive(inbox, t).rest, t, n - 1))
  {
    var m, c := Receive(inbox, t).msg.value, Collect(Receive(inbox, t).rest, t, n - 1);
    CollectStores(inbox, t, n);
    assert ps + ([m] + c.propositions) == ps + [m] + c.propositions;
  }

  /** The running loop ends where the definition does, the proposals
      stored before it included. */
  lemma {:induction false} CollectFromIsPrefixed(inbox: seq<Message>, t: Template, n: nat, stored: seq<Message>)
    requires |stored| <= n
    ensures CollectFrom(inbox, t, n, stored) == Prefixed(stored, Collect(inbox, t, n - |stored|))
    decreases |inbox|
  {
    var k := n - |stored|;
    var rcv := Receive(inbox, t);
    if k == 0 || rcv.msg.None? {
      CollectEnds(inbox, t, k);
      assert stored + [] == stored;
    } else {
      var m := rcv.msg.value;
      CollectSkips(inbox, t, k);
      if m.performative != Propose {
        assert CollectFrom(inbox, t, n, stored) == CollectFrom(rcv.rest, t, n, stored);
        CollectFromIsPrefixed(rcv.rest, t, n, stored);
      } else if ForeignObject(m.content) {
        assert CollectFrom(inbox, t, n, stored) == Collection(stored + [m], rcv.rest, true);
      } else {
        assert CollectFrom(inbox, t, n, stored) == CollectFrom(rcv.rest, t, n, stored + [m]);
        CollectFromIsPrefixed(rcv.rest, t, n, stored + [m]);
        CollectStoreStep(stored, inbox, t, k);
      }
    }
  }

  /** No returned proposal carries an object that is not a book. */
  predicate Harmless(ps: seq<Message>) {
    ps == [] || (!ForeignObject(ps[0].content) && Harmless(ps[1..]))
  }

  lemma {:induction false} HarmlessEverywhere(ps: seq<Message>)
    ensures Harmless(ps) <==> forall i :: 0 <= i < |ps| ==> !ForeignObject(ps[i].content)
  {
    if ps != [] {
      HarmlessEverywhere(ps[1..]);
      assert forall i :: 1 <= i < |ps| ==> ps[i] == ps[1..][i - 1];
    }
  }

  /** Every message stored is a matching proposal. */
  lemma CollectStoresProposals(inbox: seq<Message>, t: Template, n: nat)
    ensures var r := Collect(inbox, t, n);
      forall i :: 0 <= i < |r.propositions| ==> r.propositions[i].performative == Propose && Matches(t, r.propositions[i])
  {
    CollectTakesProposalsInOrder(inbox, t, n);
    PrefixOfProposals(Collect(inbox, t, n).propositions, inbox, t);
  }

  /** What the mailbox's matching proposals begin with are matching
      proposals. */
  lemma PrefixOfProposals(ps: seq<Message>, inbox: seq<Message>, t: Template)
    requires ps <= Filter(inbox, And(t, MatchPerformative(Propose)))
    ensures forall i :: 0 <= i < |ps| ==> ps[i].performative == Propose && Matches(t, ps[i])
  {
    var all := Filter(inbox, And(t, MatchPerformative(Propose)));
    forall i | 0 <= i < |ps|
      ensures ps[i].performative == Propose && Matches(t, ps[i])
    {
      assert ps[i] == all[i] && Matches(And(t, MatchPerformative(Propose)), all[i]);
      assert Matches(t, all[i]) && Matches(MatchPerformative(Propose), all[i]);
    }
  }

  /** The loop stops before `n` proposals only when no matching message is
      left. */
  lemma {:induction false} CollectDrains(inbox: seq<Message>, t: Template, n: nat)
    ensures var r := Collect(inbox, t, n);
      !r.crashed && |r.propositions| < n ==> forall j :: 0 <= j < |r.rest| ==> !Matches(t, r.rest[j])
    decreases |inbox|
  {
    var rcv := Receive(inbox, t);
    if n > 0 && rcv.msg.Some? {
      var m := rcv.msg.value;
      if m.performative != Propose {
        CollectDrains(rcv.rest, t, n);
      } else if !ForeignObject(m.content) {
        CollectDrains(rcv.rest, t, n - 1);
        CollectStores(inbox, t, n);
      }
    }
  }

  lemma HarmlessCons(m: Message, ps: seq<Message>)
    requires !ForeignObject(m.content)
    ensures Harmless([m] + ps) <==> Harmless(ps)
  {
    assert ([m] + ps)[1..] == ps;
  }

  /** Without a crash, no proposal stored carries an object that is not a
      book. */
  lemma {:induction false} CollectHarmlessUnlessCrashed(inbox: seq<Message>, t: Template, n: nat)
    ensures var r := Collect(inbox, t, n);
      !r.crashed ==> Harmless(r.propositions)
    decreases |inbox|
  {
    var rcv := Receive(inbox, t);
    if n == 0 || rcv.msg.None? {
      CollectEnds(inbox, t, n);
    } else {
      var m := rcv.msg.value;
      CollectSkips(inbox, t, n);
      if m.performative != Propose {
        CollectHarmlessUnlessCrashed(rcv.rest, t, n);
      } else if !ForeignObject(m.content) {
        CollectStores(inbox, t, n);
        var c := Collect(rcv.rest, t, n - 1);
        assert Collect(inbox, t, n) == Collection([m] + c.propositions, c.rest, c.crashed);
        CollectHarmlessUnlessCrashed(rcv.rest, t, n - 1);
        HarmlessCons(m, c.propositions);
      }
    }
  }

  /** The agent crashes exactly when a proposal stored carries an object
      that is not a book. */
  lemma CollectCrashes(inbox: seq<Message>, t: Template, n: nat)
    ensures var r := Collect(inbox, t, n);
      !r.crashed <==> Harmless(r.propositions)
  {
    CollectHarmlessUnlessCrashed(inbox, t, n);
    CollectCrashesOnLast(inbox, t, n);
    var ps := Collect(inbox, t, n).propositions;
    HarmlessEverywhere(ps);
  }

  /** A crash comes from the last proposal stored: the loop stops there. */
  lemma {:induction false} CollectCrashesOnLast(inbox: seq<Message>, t: Template, n: nat)
    ensures var r := Collect(inbox, t, n);
      r.crashed ==> r.propositions != [] && ForeignObject(r.propositions[|r.propositions| - 1].content)
    decreases |inbox|
  {
    var rcv := Receive(inbox, t);
    if n == 0 || rcv.msg.None? {
      CollectEnds(inbox, t, n);
    } else {
      var m := rcv.msg.value;
      CollectSkips(inbox, t, n);
      if m.performative != Propose {
        CollectCrashesOnLast(rcv.rest, t, n);
      } else if ForeignObject(m.content) {
        assert [m][0] == m;
      } else {
        CollectStores(inbox, t, n);
        var c := Collect(rcv.rest, t, n - 1);
        var ps := [m] + c.propositions;
        assert Collect(inbox, t, n) == Collection(ps, c.rest, c.crashed);
        CollectCrashesOnLast(rcv.rest, t, n - 1);
        if c.crashed {
          assert ps[|ps| - 1] == c.propositions[|c.propositions| - 1];
        }
      }
    }
  }

  /** The proposals stored are the first matching proposals of the mailbox,
      in arrival order, and all of them when fewer than `n` arrived; the
      messages the template does not match are left in the mailbox in
      their order. */
  lemma {:induction false} CollectTakesProposalsInOrder(inbox: seq<Message>, t: Template, n: nat)
    ensures var r := Collect(inbox, t, n);
      && r.propositions <= Filter(inbox, And(t, MatchPerformative(Propose)))
      && (!r.crashed && |r.propositions| < n ==> r.propositions == Filter(inbox, And(t, MatchPerformative(Propose))))
      && Filter(r.rest, Not(t)) == Filter(inbox, Not(t))
    decreases |inbox|
  {
    var p := MatchPerformative(Propose);
    var all := Filter(inbox, And(t, p));
    var rcv := Receive(inbox, t);
    ReceiveFilter(inbox, t);
    FilterFilter(inbox, t, p);
    if rcv.msg.None? {
      assert all == Filter([], p);
    } else if n > 0 {
      var m := rcv.msg.value;
      FilterFilter(rcv.rest, t, p);
      FilterAppend([m], Filter(rcv.rest, t), p);
      assert [m][1..] == [];
      var tail := Filter(rcv.rest, And(t, p));
      CollectTakesProposalsInOrder(rcv.rest, t, if m.performative == Propose then n - 1 else n);
      if m.performative != Propose {
        assert all == tail;
      } else {
        assert all == [m] + tail;
      }
    }
  }

  /** `RecevoirPropositions.action`: the receive loop itself. */
  method CollectProposals(inbox: seq<Message>, t: Template, n: nat) returns (propositions: seq<Message>, rest: seq<Message>, crashed: bool)
    ensures Collection(propositions, rest, crashed) == Collect(inbox, t, n)
  {
    propositions, rest, crashed := [], inbox, false;
    CollectFromIsPrefixed(inbox, t, n, []);
    assert [] + Collect(inbox, t, n).propositions == Collect(inbox, t, n).propositions;
    while |propositions| < n
      invariant CollectFrom(rest, t, n, propositions) == Collect(inbox, t, n)
      decreases |rest|
    {
      var r := Receive(rest, t);
      if r.msg.None? {
        return;
      }
      var m := r.msg.value;
      rest := r.rest;
      if m.performative == Propose {
        propositions := propositions + [m];
        if ForeignObject(m.content) {
          crashed := true;
          return;
        }
      }
    }
  }

  /** A proposal whose content deserializes to a book; a string content
      throws `UnreadableException`, which is caught and skips it. */
  predicate Readable(m: Message) {
    m.content.LivreObject?
  }

  /** Position `b` holds the cheapest readable offer among the first `k`,
      and the first of them at that price. */
  predicate BestAmong(ps: seq<Message>, k: int, b: int)
    requires 0 <= k <= |ps|
  {
    0 <= b < k && Readable(ps[b])
    && (forall j :: 0 <= j < k && Readable(ps[j]) ==> ps[b].content.livre.prix <= ps[j].content.livre.prix)
    && (forall j :: 0 <= j < b && Readable(ps[j]) ==> ps[b].content.livre.prix < ps[j].content.livre.prix)
  }

  predicate IsBestOffer(ps: seq<Message>, b: int) {
    BestAmong(ps, |ps|, b)
  }

  /** The best offer is unique: the choice does not depend on anything but
      the prices and the arrival order. */
  lemma BestOfferUnique(ps: seq<Message>, b: int, c: int)
    requires IsBestOffer(ps, b) && IsBestOffer(ps, c)
    ensures b == c
  {
  }

  /** The loop of `ChoisirMeilleureOffre`: the lowest price wins, a later
      offer only when strictly cheaper. */
  method ChooseBestOffer(ps: seq<Message>) returns (best: Option<nat>)
    ensures best.None? <==> forall j :: 0 <= j < |ps| ==> !Readable(ps[j])
    ensures best.Some? ==> IsBestOffer(ps, best.value)
  {
    best := None;
    var i := 0;
    while i < |ps|
      invariant 0 <= i <= |ps|
      invariant best.None? <==> forall j :: 0 <= j < i ==> !Readable(ps[j])
      invariant best.Some? ==> BestAmong(ps, i, best.value)
    {
      if Readable(ps[i]) && (best.None? || ps[i].content.livre.prix < ps[best.value].content.livre.prix) {
        best := Some(i);
      }
      i := i + 1;
    }
  }

  /** Where the buyer is: which one-shot behaviour runs next, or how it
      ended. */
  datatype Phase =
    | Searching
    | Collecting(cfpToken: string, sellers: nat)
    | Choosing(propositions: seq<Message>)
    | Confirming(acceptToken: string)
    | Deleted
    | Crashed

  /** What the confirmation said, by seller. */
  datatype Outcome = Pending | Bought(seller: AgentId) | NotBought(seller: AgentId) | Unanswered

  class Acheteur {
    const name: AgentId
    var titre: string
    var phase: Phase
    var outcome: Outcome

    /** Only proposals reach the choice, and never one whose object is not
        a book: the collecting loop would have ended the agent first. */
    ghost predicate Valid()
      reads this
    {
      phase.Choosing? ==>
        && phase.propositions != []
        && forall i :: 0 <= i < |phase.propositions| ==>
             phase.propositions[i].performative == Propose && !ForeignObject(phase.propositions[i].content)
    }

    /** `setup`: the first argument is the title sought; without one the
        agent deletes itself. */
    constructor (name: AgentId, args: seq<string>)
      ensures Valid() && this.name == name && outcome == Pending
      ensures |args| > 0 ==> titre == args[0] && phase == Searching
      ensures |args| == 0 ==> titre == "" && phase == Deleted
    {
      this.name := name;
      outcome := Pending;
      if |args| > 0 {
        titre := args[0];
        phase := Searching;
      } else {
        titre := "";
        phase := Deleted;
      }
    }

    /** `RechercherLivre`: given the sellers the directory lists and the
        clock reading that names the call, one CFP for the title goes to
        all of them; with no seller the agent deletes itself. */
    method RechercherLivre(sellers: seq<AgentId>, clock: string) returns (out: seq<Message>)
      requires phase.Searching?
      modifies this
      ensures Valid() && titre == old(titre) && outcome == old(outcome)
      ensures |sellers| > 0 ==> out == [Message(Cfp, name, sellers, Text(titre), SaleConversation, "", "cfp-" + clock)]
      ensures |sellers| > 0 ==> phase == Collecting("cfp-" + clock, |sellers|)
      ensures |sellers| == 0 ==> out == [] && phase == Deleted
    {
      if |sellers| > 0 {
        var token := "cfp-" + clock;
        out := [Message(Cfp, name, sellers, Text(titre), SaleConversation, "", token)];
        phase := Collecting(token, |sellers|);
      } else {
        out := [];
        phase := Deleted;
      }
    }

    /** `RecevoirPropositions`: the replies to the CFP; the choice comes
        next when at least one proposal was stored, the agent deletes
        itself otherwise. */
    method RecevoirPropositions(inbox: seq<Message>) returns (rest: seq<Message>)
      requires phase.Collecting?
      modifies this
      ensures Valid() && titre == old(titre) && outcome == old(outcome)
      ensures var c := Collect(inbox, ReplyTemplate(old(phase).cfpToken), old(phase).sellers);
        && rest == c.rest
        && (c.crashed ==> phase == Crashed)
        && (!c.crashed && c.propositions != [] ==> phase == Choosing(c.propositions))
        && (!c.crashed && c.propositions == [] ==> phase == Deleted)
    {
      var propositions, crashed;
      propositions, rest, crashed := CollectProposals(inbox, ReplyTemplate(phase.cfpToken), phase.sellers);
      CollectStoresProposals(inbox, ReplyTemplate(phase.cfpToken), phase.sellers);
      CollectCrashes(inbox, ReplyTemplate(phase.cfpToken), phase.sellers);
      HarmlessEverywhere(propositions);
      if crashed {
        phase := Crashed;
      } else if propositions != [] {
        phase := Choosing(propositions);
      } else {
        phase := Deleted;
      }
    }

    /** `ChoisirMeilleureOffre`: the cheapest readable proposal is accepted
        with a reply carrying its book; when none can be read the agent
        deletes itself. */
    method ChoisirMeilleureOffre(token: string) returns (out: seq<Message>)
      requires phase.Choosing? && Valid()
      modifies this
      ensures Valid() && titre == old(titre) && outcome == old(outcome)
      ensures var ps := old(phase).propositions;
        (exists j :: 0 <= j < |ps| && Readable(ps[j])) ==>
          && phase == Confirming(token)
          && exists b :: IsBestOffer(ps, b) && out == [CreateReply(ps[b], name, AcceptProposal, ps[b].content, token)]
      ensures var ps := old(phase).propositions;
        (forall j :: 0 <= j < |ps| ==> !Readable(ps[j])) ==> out == [] && phase == Deleted
    {
      var ps := phase.propositions;
      var best := ChooseBestOffer(ps);
      if best.Some? {
        out := [CreateReply(ps[best.value], name, AcceptProposal, ps[best.value].content, token)];
        phase := Confirming(token);
      } else {
        out := [];
        phase := Deleted;
      }
    }

    /** `RecevoirConfirmation`: the first reply to the acceptance decides;
        INFORM means the book was bought. The agent deletes itself in every
        case. */
    method RecevoirConfirmation(inbox: seq<Message>) returns (rest: seq<Message>)
      requires phase.Confirming?
      modifies this
      ensures Valid() && titre == old(titre) && phase == Deleted
      ensures var r := Receive(inbox, ReplyTemplate(old(phase).acceptToken));
        && rest == r.rest
        && (r.msg.None? ==> outcome == Unanswered)
        && (r.msg.Some? && r.msg.value.performative == Inform ==> outcome == Bought(r.msg.value.sender))
        && (r.msg.Some? && r.msg.value.performative != Inform ==> outcome == NotBought(r.msg.value.sender))
    {
      var r := Receive(inbox, ReplyTemplate(phase.acceptToken));
      rest := r.rest;
      if r.msg.None? {
        outcome := Unanswered;
      } else if r.msg.value.performative == Inform {
        outcome := Bought(r.msg.value.sender);
      } else {
        outcome := NotBought(r.msg.value.sender);
      }
      phase := Deleted;
    }
  }

  /** Of two offers for the same book, the cheaper one is accepted whatever
      order they arrive in. */
  lemma CheaperOfferWins(cheap: Message, dear: Message)
    requires Readable(cheap) && Readable(dear) && cheap.content.livre.prix < dear.content.livre.prix
    ensures IsBestOffer([cheap, dear], 0) && IsBestOffer([dear, cheap], 1)
  {
  }
}
