/** `agents.UserEmprunteur`: asks the librarian to lend some copies of one
    title, accepts the offer with the loan period it states, and thanks the
    librarian once the loan is confirmed or refused. */
module Borrower {
  import opened Wrappers
  import opened JavaText
  import opened LibraryRecords
  import opened Acl
  import opened Library

  const LoanConversation := "emprunt-livre"
  const SearchConversation := "recherche-emprunt"

  /** Step 1 waits for an INFORM on the search conversation. */
  const AwaitSearching: Template := And(MatchPerformative(Inform), MatchConversationId(SearchConversation))

  /** Step 2 waits for the offer or the refusal. */
  const AwaitOffer: Template := And(Or(MatchPerformative(Propose), MatchPerformative(Refuse)), MatchConversationId(LoanConversation))

  /** Step 3 waits for the confirmation or the failure. */
  const AwaitConfirmation: Template := And(Or(MatchPerformative(Inform), MatchPerformative(Failure)), MatchConversationId(LoanConversation))

  /** What the three templates accept, spelled out. */
  lemma AwaitSearchingMatches(m: Message)
    ensures Matches(AwaitSearching, m) <==> m.performative == Inform && m.conversationId == SearchConversation
  {
  }

  lemma AwaitOfferMatches(m: Message)
    ensures Matches(AwaitOffer, m) <==> (m.performative == Propose || m.performative == Refuse) && m.conversationId == LoanConversation
  {
    assert Matches(Or(MatchPerformative(Propose), MatchPerformative(Refuse)), m) <==> m.performative == Propose || m.performative == Refuse;
  }

  lemma AwaitConfirmationMatches(m: Message)
    ensures Matches(AwaitConfirmation, m) <==> (m.performative == Inform || m.performative == Failure) && m.conversationId == LoanConversation
  {
    assert Matches(Or(MatchPerformative(Inform), MatchPerformative(Failure)), m) <==> m.performative == Inform || m.performative == Failure;
  }

  /** The content of both the CFP and the ACCEPT_PROPOSAL. */
  function LoanContent(titre: string, nombre: int): string {
    titre + ":" + IntToString(nombre)
  }

  /** The refusal the librarian sends when there are too few copies. */
  predicate ShortRefusal(content: string) {
    StartsWith(content, "exemplaires-insuffisants:")
  }

  class UserEmprunteur {
    const name: AgentId
    var titre: string
    var nombre: int
    /** The step of `EmprunterLivre`, 0 to 3. */
    var etape: nat
    var done: bool
    var deleted: bool
    /** An uncaught exception has ended the agent. */
    var crashed: bool
    /** What the agent reports: the offered loan period, the copies left when
        there were too few, the confirmed loan period. */
    var dureeOfferte: Option<int>
    var disponibles: Option<int>
    var dureeConfirmee: Option<int>

    ghost predicate Valid()
      reads this
    {
      etape <= 3 && IsInt32(nombre) && (deleted ==> done) && (crashed ==> done)
    }

    /** `setup`: the title, then an optional count (one by default) read
        with `Integer.parseInt`, which throws on anything but an `int`. */
    constructor (name: AgentId, args: seq<string>)
      ensures Valid() && this.name == name && etape == 0
      ensures dureeOfferte.None? && disponibles.None? && dureeConfirmee.None?
      ensures |args| == 0 ==> done && deleted && !crashed
      ensures |args| == 1 ==> titre == args[0] && nombre == 1 && !done && !deleted && !crashed
      ensures |args| > 1 ==>
        && titre == args[0] && !deleted
        && (ParseInt(args[1]).None? ==> crashed && done)
        && (ParseInt(args[1]).Some? ==> nombre == ParseInt(args[1]).value && !done && !crashed)
    {
      this.name := name;
      etape := 0;
      dureeOfferte, disponibles, dureeConfirmee := None, None, None;
      titre, nombre := "", 1;
      done, deleted, crashed := false, false, false;
      if |args| == 0 {
        done, deleted := true, true;
      } else {
        titre := args[0];
        if |args| > 1 {
          var n := ParseInt(args[1]);
          if n.None? {
            crashed, done := true, true;
          } else {
            nombre := n.value;
          }
        }
      }
    }

    /** Steps 0 and 1: the CFP to the first librarian listed, then the
        "search under way" notice. */
    method Ask(librarians: seq<AgentId>, inbox: seq<Message>) returns (rest: seq<Message>, out: seq<Message>)
      requires Valid() && !done && etape <= 1
      modifies this
      ensures Valid() && titre == old(titre) && nombre == old(nombre) && !deleted && !crashed
      ensures dureeOfferte == old(dureeOfferte) && disponibles == old(disponibles) && dureeConfirmee == old(dureeConfirmee)
      ensures old(etape) == 0 ==> rest == inbox
      ensures old(etape) == 0 && |librarians| > 0 ==>
        out == [NewMessage(Cfp, name, librarians[0], Text(LoanContent(titre, nombre)), LoanConversation)] && etape == 1 && !done
      ensures old(etape) == 0 && |librarians| == 0 ==> out == [] && etape == 0 && done
      ensures old(etape) == 1 ==>
        var r := Receive(inbox, AwaitSearching);
        && rest == r.rest && out == [] && !done
        && (etape == 2 <==> r.msg.Some? && ContentText(r.msg.value.content) == "recherche-en-cours")
        && (etape != 2 ==> etape == 1)
    {
      rest, out := inbox, [];
      if etape == 0 {
        if |librarians| > 0 {
          out := [NewMessage(Cfp, name, librarians[0], Text(LoanContent(titre, nombre)), LoanConversation)];
          etape := 1;
        } else {
          done := true;
        }
      } else {
        var r := Receive(inbox, AwaitSearching);
        rest := r.rest;
        if r.msg.Some? && ContentText(r.msg.value.content) == "recherche-en-cours" {
          etape := 2;
        }
      }
    }

    /** Step 2: an offer is accepted, after reading its loan period; a
        refusal is read (the stock left when there were too few copies) and
        answered with thanks. A period that cannot be read ends the agent. */
    method Decide(inbox: seq<Message>) returns (rest: seq<Message>, out: seq<Message>)
      requires Valid() && !done && etape == 2
      modifies this
      ensures Valid() && titre == old(titre) && nombre == old(nombre) && dureeConfirmee == old(dureeConfirmee)
      ensures etape == 2 || etape == 3
      ensures var r := Receive(inbox, AwaitOffer);
        && rest == r.rest
        && (r.msg.None? ==> out == [] && etape == 2 && !done && dureeOfferte == old(dureeOfferte) && disponibles == old(disponibles))
      ensures var r := Receive(inbox, AwaitOffer);
        r.msg.Some? && r.msg.value.performative == Propose ==>
          var d := SecondField(ContentText(r.msg.value.content));
          && disponibles == old(disponibles) && !deleted
          && (d.None? ==> crashed && done && out == [])
          && (d.Some? ==>
                && !crashed && !done && etape == 3 && dureeOfferte == d
                && out == [NewMessage(AcceptProposal, name, r.msg.value.sender, Text(LoanContent(titre, nombre)), LoanConversation)])
      ensures var r := Receive(inbox, AwaitOffer);
        r.msg.Some? && r.msg.value.performative == Refuse ==>
          var c := ContentText(r.msg.value.content);
          && dureeOfferte == old(dureeOfferte) && done
          && (ShortRefusal(c) && SecondField(c).None? ==> crashed && !deleted && out == [])
          && (!(ShortRefusal(c) && SecondField(c).None?) ==>
                && !crashed && deleted
                && disponibles == (if ShortRefusal(c) then SecondField(c) else old(disponibles))
                && out == [NewMessage(Inform, name, r.msg.value.sender, Text("merci quand même"), "")])
    {
      var r := Receive(inbox, AwaitOffer);
      rest, out := r.rest, [];
      if r.msg.None? {
        return;
      }
      var msg := r.msg.value;
      var content := ContentText(msg.content);
      if msg.performative == Propose {
        var d := SecondField(content);
        if d.None? {
          crashed, done := true, true;
          return;
        }
        dureeOfferte := d;
        out := [NewMessage(AcceptProposal, name, msg.sender, Text(LoanContent(titre, nombre)), LoanConversation)];
        etape := 3;
      } else {
        if ShortRefusal(content) {
          var q := SecondField(content);
          if q.None? {
            crashed, done := true, true;
            return;
          }
          disponibles := q;
        }
        out := [NewMessage(Inform, name, msg.sender, Text("merci quand même"), "")];
        done, deleted := true, true;
      }
    }

    /** Step 3: a confirmation is read for its loan period and answered
        with warm thanks, a failure with thanks all the same. */
    method Conclude(inbox: seq<Message>) returns (rest: seq<Message>, out: seq<Message>)
      requires Valid() && !done && etape == 3
      modifies this
      ensures Valid() && titre == old(titre) && nombre == old(nombre) && etape == 3
      ensures dureeOfferte == old(dureeOfferte) && disponibles == old(disponibles)
      ensures var r := Receive(inbox, AwaitConfirmation);
        && rest == r.rest
        && (r.msg.None? ==> out == [] && !done && dureeConfirmee == old(dureeConfirmee))
        && (r.msg.Some? && r.msg.value.performative == Failure ==>
              && done && deleted && !crashed && dureeConfirmee == old(dureeConfirmee)
              && out == [NewMessage(Inform, name, r.msg.value.sender, Text("merci quand même"), "")])
      ensures var r := Receive(inbox, AwaitConfirmation);
        r.msg.Some? && r.msg.value.performative == Inform ==>
          var d := SecondField(ContentText(r.msg.value.content));
          && (d.None? ==> crashed && done && !deleted && out == [] && dureeConfirmee == old(dureeConfirmee))
          && (d.Some? ==>
                && done && deleted && !crashed && dureeConfirmee == d
                && out == [NewMessage(Inform, name, r.msg.value.sender, Text("merci beaucoup"), "")])
    {
      var r := Receive(inbox, AwaitConfirmation);
      rest, out := r.rest, [];
      if r.msg.None? {
        return;
      }
      var msg := r.msg.value;
      if msg.performative == Inform {
        var d := SecondField(ContentText(msg.content));
        if d.None? {
          crashed, done := true, true;
          return;
        }
        dureeConfirmee := d;
        out := [NewMessage(Inform, name, msg.sender, Text("merci beaucoup"), "")];
      } else {
        out := [NewMessage(Inform, name, msg.sender, Text("merci quand même"), "")];
      }
      done, deleted := true, true;
    }

    /** One run of `EmprunterLivre.action`: the step decides what is sent
      and how the agent moves on, as `Ask`, `Decide` and `Conclude` do. */
    method Action(librarians: seq<AgentId>, inbox: seq<Message>) returns (rest: seq<Message>, out: seq<Message>)
      requires Valid() && !done
      modifies this
      ensures Valid() && titre == old(titre) && nombre == old(nombre) && old(etape) <= etape
      ensures old(etape) <= 1 ==>
        && !crashed && !deleted
        && dureeOfferte == old(dureeOfferte) && disponibles == old(disponibles) && dureeConfirmee == old(dureeConfirmee)
      ensures old(etape) == 0 ==> rest == inbox
      ensures old(etape) == 0 && |librarians| > 0 ==>
        out == [NewMessage(Cfp, name, librarians[0], Text(LoanContent(titre, nombre)), LoanConversation)] && etape == 1 && !done
      ensures old(etape) == 0 && |librarians| == 0 ==> out == [] && etape == 0 && done
      ensures old(etape) == 1 ==>
        var r := Receive(inbox, AwaitSearching);
        && rest == r.rest && out == [] && !done
        && (etape == 2 <==> r.msg.Some? && ContentText(r.msg.value.content) == "recherche-en-cours")
        && (etape != 2 ==> etape == 1)
      ensures old(etape) == 2 ==>
        var r := Receive(inbox, AwaitOffer);
        && rest == r.rest && dureeConfirmee == old(dureeConfirmee) && (etape == 2 || etape == 3)
        && (r.msg.None? ==> out == [] && etape == 2 && !done && dureeOfferte == old(dureeOfferte) && disponibles == old(disponibles))
      ensures var r := Receive(inbox, AwaitOffer);
        old(etape) == 2 && r.msg.Some? && r.msg.value.performative == Propose ==>
          var d := SecondField(ContentText(r.msg.value.content));
          && disponibles == old(disponibles) && !deleted
          && (d.None? ==> crashed && done && out == [])
          && (d.Some? ==>
                && !crashed && !done && etape == 3 && dureeOfferte == d
                && out == [NewMessage(AcceptProposal, name, r.msg.value.sender, Text(LoanContent(titre, nombre)), LoanConversation)])
      ensures var r := Receive(inbox, AwaitOffer);
        old(etape) == 2 && r.msg.Some? && r.msg.value.performative == Refuse ==>
          var c := ContentText(r.msg.value.content);
          && dureeOfferte == old(dureeOfferte) && done
          && (ShortRefusal(c) && SecondField(c).None? ==> crashed && !deleted && out == [])
          && (!(ShortRefusal(c) && SecondField(c).None?) ==>
                && !crashed && deleted
                && disponibles == (if ShortRefusal(c) then SecondField(c) else old(disponibles))
                && out == [NewMessage(Inform, name, r.msg.value.sender, Text("merci quand même"), "")])
      ensures old(etape) == 3 ==>
        var r := Receive(inbox, AwaitConfirmation);
        && etape == 3 && rest == r.rest && dureeOfferte == old(dureeOfferte) && disponibles == old(disponibles)
        && (r.msg.None? ==> out == [] && !done && dureeConfirmee == old(dureeConfirmee))
        && (r.msg.Some? && r.msg.value.performative == Failure ==>
              && done && deleted && !crashed && dureeConfirmee == old(dureeConfirmee)
              && out == [NewMessage(Inform, name, r.msg.value.sender, Text("merci quand même"), "")])
      ensures var r := Receive(inbox, AwaitConfirmation);
        old(etape) == 3 && r.msg.Some? && r.msg.value.performative == Inform ==>
          var d := SecondField(ContentText(r.msg.value.content));
          && (d.None? ==> crashed && done && !deleted && out == [] && dureeConfirmee == old(dureeConfirmee))
          && (d.Some? ==>
                && done && deleted && !crashed && dureeConfirmee == d
                && out == [NewMessage(Inform, name, r.msg.value.sender, Text("merci beaucoup"), "")])
    {
      if etape <= 1 {
        rest, out := Ask(librarians, inbox);
      } else if etape == 2 {
        rest, out := Decide(inbox);
      } else {
        rest, out := Conclude(inbox);
      }
    }
  }

  /** The CFP and the acceptance both carry the title and the count the
      librarian reads back, as long as the title holds no `:`. */
  lemma LoanContentIsRead(titre: string, nombre: int)
    requires ':' !in titre && IsInt32(nombre)
    ensures ParseCfp(LoanContent(titre, nombre)) == Some(LoanRequest(titre, nombre))
    ensures ParseAccept(LoanContent(titre, nombre)) == Some(LoanRequest(titre, nombre))
  {
    ParseLoanRequest(titre, nombre);
  }

  /** None of the librarian's answers to a loan request can end the
      borrower: the offer and the refusal for too few copies carry a
      readable number. */
  lemma OfferIsReadable(c: Catalogue, req: LoanRequest)
    requires CatalogueValid(c)
    ensures var a := LoanOffer(c, req);
      (a.performative == Propose || ShortRefusal(a.content)) ==> SecondField(a.content).Some?
  {
    var a := LoanOffer(c, req);
    if req.titre in c {
      var b := c[req.titre];
      assert WellFormed(b);
      if a.performative == Propose {
        SecondFieldOfTagged("livre-disponible", b.dureeEmpruntMax);
      } else {
        SecondFieldOfTagged("exemplaires-insuffisants", b.quantite);
      }
    } else {
      assert a.content == "livre-non-trouve";
      assert "livre-non-trouve"[0] != "exemplaires-insuffisants:"[0];
    }
  }

  /** The confirmation of a loan carries a readable loan period too. */
  lemma ConfirmationIsReadable(c: Catalogue, req: LoanRequest)
    requires CatalogueValid(c) && req.titre in AfterLoan(c, req)
    ensures SecondField(Tagged("emprunt-confirme", AfterLoan(c, req)[req.titre].dureeEmpruntMax)) == Some(c[req.titre].dureeEmpruntMax)
  {
    var b := AfterLoan(c, req)[req.titre];
    assert WellFormed(b) && b.dureeEmpruntMax == c[req.titre].dureeEmpruntMax;
    SecondFieldOfTagged("emprunt-confirme", b.dureeEmpruntMax);
  }
}
