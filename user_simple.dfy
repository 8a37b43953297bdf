/** `agents.UserSimple`: asks the librarian whether one title is on the
    shelf, waits for the "search under way" notice and then for the verdict,
    thanks the librarian accordingly and leaves. */
module SimpleUser {
  import opened Acl

  const SearchConversation := "recherche-livre"
  const ResultConversation := "resultat-recherche"

  /** Step 1 waits for an INFORM on the search conversation. */
  const AwaitSearching: Template := And(MatchPerformative(Inform), MatchConversationId(SearchConversation))

  /** Step 2 waits for anything on the result conversation. */
  const AwaitResult: Template := MatchConversationId(ResultConversation)

  /** The thanks for a verdict: plain thanks for good news, thanks all the
      same otherwise. */
  function Thanks(verdict: Message): (s: string)
    ensures s == "merci" <==> verdict.performative == Inform
  {
    if verdict.performative == Inform then "merci" else "merci quand même"
  }

  class UserSimple {
    const name: AgentId
    var titre: string
    /** The step of `RechercherLivre`, 0 to 2. */
    var etape: nat
    /** The behaviour has finished (or was never started). */
    var done: bool
    /** The agent has asked to be deleted. */
    var deleted: bool

    ghost predicate Valid()
      reads this
    {
      etape <= 2 && (deleted ==> done)
    }

    /** `setup`: the first argument is the title; without one the agent
        deletes itself and no behaviour runs. */
    constructor (name: AgentId, args: seq<string>)
      ensures Valid() && this.name == name && etape == 0
      ensures |args| > 0 ==> titre == args[0] && !done && !deleted
      ensures |args| == 0 ==> titre == "" && done && deleted
    {
      this.name := name;
      etape := 0;
      if |args| > 0 {
        titre := args[0];
        done, deleted := false, false;
      } else {
        titre := "";
        done, deleted := true, true;
      }
    }

    /** One run of `RechercherLivre.action`, given the librarians the
        directory lists and the mailbox. */
    method Action(librarians: seq<AgentId>, inbox: seq<Message>) returns (rest: seq<Message>, out: seq<Message>)
      requires Valid() && !done
      modifies this
      ensures Valid() && titre == old(titre) && old(etape) <= etape
      ensures old(etape) == 0 ==> rest == inbox && !deleted
      ensures old(etape) == 0 && |librarians| > 0 ==>
        out == [NewMessage(Request, name, librarians[0], Text(titre), SearchConversation)] && etape == 1 && !done
      ensures old(etape) == 0 && |librarians| == 0 ==> out == [] && etape == 0 && done
      ensures old(etape) == 1 ==>
        var r := Receive(inbox, AwaitSearching);
        && rest == r.rest && out == [] && !done && !deleted
        && (etape == 2 <==> r.msg.Some? && ContentText(r.msg.value.content) == "recherche-en-cours")
        && (etape != 2 ==> etape == 1)
      ensures old(etape) == 2 ==>
        var r := Receive(inbox, AwaitResult);
        && rest == r.rest && etape == 2
        && (r.msg.None? ==> out == [] && !done && !deleted)
        && (r.msg.Some? ==> done && deleted && out == [NewMessage(Inform, name, r.msg.value.sender, Text(Thanks(r.msg.value)), "")])
    {
      rest, out := inbox, [];
      if etape == 0 {
        if |librarians| > 0 {
          out := [NewMessage(Request, name, librarians[0], Text(titre), SearchConversation)];
          etape := 1;
        } else {
          done := true;
        }
      } else if etape == 1 {
        var r := Receive(inbox, AwaitSearching);
        rest := r.rest;
        if r.msg.Some? && ContentText(r.msg.value.content) == "recherche-en-cours" {
          etape := 2;
        }
      } else {
        var r := Receive(inbox, AwaitResult);
        rest := r.rest;
        if r.msg.Some? {
          out := [NewMessage(Inform, name, r.msg.value.sender, Text(Thanks(r.msg.value)), "")];
          done := true;
          deleted := true;
        }
      }
    }
  }
}
