/** Conversations between a user agent and the library clerk, played out
    message by message: each agent's output is the other's mailbox. They
    show that the conversation ids, performatives and tagged contents the
    two sides use fit together. */
module Scenarios {
  import opened Wrappers
  import opened JavaText
  import opened LibraryRecords
  import opened Acl
  import opened Library
  import SimpleUser
  import Borrower

  /** A simple user asks for "Dune", which is on the shelf: the clerk's two
      replies are the ones the user waits for, and the user thanks the
      clerk for the good news and leaves. */
  method SimpleSearchForDune() returns (thanks: seq<Message>, done: bool)
    ensures thanks == [NewMessage(Inform, "usager", "bibliothecaire", Text("merci"), "")]
    ensures done
  {
    var clerk := new Bibliothecaire("bibliothecaire");
    var user := new SimpleUser.UserSimple("usager", ["Dune"]);
    DuneHasOneCopy();
    var rest, request := user.Action(["bibliothecaire"], []);
    var replies := clerk.HandleRequest(request[0], "r1");
    assert OnShelf(clerk.catalogue, "Dune");
    var searching, verdict := replies[0], replies[1];
    assert Matches(SimpleUser.AwaitSearching, searching);
    assert Receive(replies, SimpleUser.AwaitSearching) == Received(Some(searching), [verdict]);
    var out;
    rest, out := user.Action(["bibliothecaire"], replies);
    assert user.etape == 2 && rest == [verdict];
    assert Receive(rest, SimpleUser.AwaitResult) == Received(Some(verdict), []);
    rest, thanks := user.Action(["bibliothecaire"], rest);
    done := user.done;
  }

  /** Steps 0 and 1 of a borrower against the clerk's CFP branch: the CFP
      is read back as the borrower's title and count, the title is on the
      shelf in that number, so the clerk's second reply is an offer of the
      title's longest loan on the loan conversation, and the borrower has
      read the "search under way" notice and waits for it. */
  method LoanOffered(clerk: Bibliothecaire, user: Borrower.UserEmprunteur, token: string) returns (offer: Message)
    requires clerk.Valid() && user.Valid() && !user.done && user.etape == 0
    requires ':' !in user.titre
    requires user.titre in clerk.catalogue && IsAvailableFor(clerk.catalogue[user.titre], user.nombre)
    modifies clerk, user
    ensures clerk.Valid() && clerk.catalogue == old(clerk.catalogue)
    ensures user.Valid() && user.titre == old(user.titre) && user.nombre == old(user.nombre)
    ensures user.etape == 2 && !user.done && user.dureeConfirmee == old(user.dureeConfirmee)
    ensures offer.performative == Propose && offer.sender == clerk.name && offer.conversationId == Borrower.LoanConversation
    ensures ContentText(offer.content) == Tagged("livre-disponible", clerk.catalogue[user.titre].dureeEmpruntMax)
  {
    Borrower.LoanContentIsRead(user.titre, user.nombre);
    var rest, cfp := user.Ask([clerk.name], []);
    var replies := clerk.HandleCfp(cfp[0], token);
    Borrower.AwaitSearchingMatches(replies[0]);
    ReceiveHead(replies, Borrower.AwaitSearching);
    offer := replies[1];
    var out;
    rest, out := user.Ask([clerk.name], replies);
  }

  /** Step 2 on that offer: its period is read back and the borrower accepts
      with the content of its CFP. */
  method LoanAccepted(user: Borrower.UserEmprunteur, offer: Message, period: int) returns (accept: Message)
    requires user.Valid() && !user.done && user.etape == 2
    requires IsInt32(period)
    requires offer.performative == Propose && offer.conversationId == Borrower.LoanConversation
    requires ContentText(offer.content) == Tagged("livre-disponible", period)
    modifies user
    ensures user.Valid() && user.titre == old(user.titre) && user.nombre == old(user.nombre)
    ensures user.etape == 3 && !user.done && user.dureeOfferte == Some(period) && user.dureeConfirmee == old(user.dureeConfirmee)
    ensures accept == NewMessage(AcceptProposal, user.name, offer.sender, Text(Borrower.LoanContent(user.titre, user.nombre)), Borrower.LoanConversation)
  {
    SecondFieldOfTagged("livre-disponible", period);
    Borrower.AwaitOfferMatches(offer);
    ReceiveHead([offer], Borrower.AwaitOffer);
    var rest, out := user.Decide([offer]);
    accept := out[0];
  }

  /** The clerk's ACCEPT_PROPOSAL branch on an acceptance of `nombre`
      copies of `titre`, on the shelf in that number: the copies are lent
      and the one reply confirms the title's longest loan on the loan
      conversation. */
  method LoanLent(clerk: Bibliothecaire, titre: string, nombre: int, accept: Message, token: string) returns (confirmation: seq<Message>)
    requires clerk.Valid() && ':' !in titre && IsInt32(nombre)
    requires titre in clerk.catalogue && IsAvailableFor(clerk.catalogue[titre], nombre)
    requires accept.content == Text(Borrower.LoanContent(titre, nombre)) && accept.conversationId == Borrower.LoanConversation
    modifies clerk
    ensures clerk.Valid() && clerk.catalogue == AfterLoan(old(clerk.catalogue), LoanRequest(titre, nombre))
    ensures titre in clerk.catalogue && clerk.catalogue[titre].quantite == old(clerk.catalogue[titre].quantite) - nombre
    ensures |confirmation| == 1 && confirmation[0].performative == Inform && confirmation[0].sender == clerk.name
    ensures confirmation[0].conversationId == Borrower.LoanConversation
    ensures ContentText(confirmation[0].content) == Tagged("emprunt-confirme", old(clerk.catalogue[titre].dureeEmpruntMax))
  {
    Borrower.LoanContentIsRead(titre, nombre);
    var req := LoanRequest(titre, nombre);
    ghost var before := clerk.catalogue;
    confirmation := clerk.HandleAccept(accept, token);
    assert clerk.catalogue == AfterLoan(before, req) != before;
    assert clerk.catalogue[titre].dureeEmpruntMax == before[titre].dureeEmpruntMax;
  }

  /** The borrower's step 3 on that confirmation: the period is read back
      and the borrower thanks the clerk warmly. */
  method LoanThanked(user: Borrower.UserEmprunteur, confirmation: seq<Message>, period: int) returns (thanks: seq<Message>)
    requires user.Valid() && !user.done && user.etape == 3 && IsInt32(period)
    requires |confirmation| == 1 && confirmation[0].performative == Inform
    requires confirmation[0].conversationId == Borrower.LoanConversation
    requires ContentText(confirmation[0].content) == Tagged("emprunt-confirme", period)
    modifies user
    ensures user.titre == old(user.titre) && user.nombre == old(user.nombre)
    ensures user.done && user.dureeConfirmee == Some(period) && user.dureeOfferte == old(user.dureeOfferte)
    ensures thanks == [NewMessage(Inform, user.name, confirmation[0].sender, Text("merci beaucoup"), "")]
  {
    SecondFieldOfTagged("emprunt-confirme", period);
    Borrower.AwaitConfirmationMatches(confirmation[0]);
    ReceiveHead(confirmation, Borrower.AwaitConfirmation);
    var rest;
    rest, thanks := user.Conclude(confirmation);
  }

  /** A borrower's whole conversation with the clerk, for any title on the
      shelf in the number asked for: the period confirmed is the period
      offered, the title's longest loan, and exactly that many copies leave
      the shelf. */
  method LoanConversation(clerk: Bibliothecaire, user: Borrower.UserEmprunteur) returns (thanks: seq<Message>)
    requires clerk.Valid() && user.Valid() && !user.done && user.etape == 0
    requires ':' !in user.titre
    requires user.titre in clerk.catalogue && IsAvailableFor(clerk.catalogue[user.titre], user.nombre)
    modifies clerk, user
    ensures clerk.Valid() && clerk.catalogue == AfterLoan(old(clerk.catalogue), LoanRequest(user.titre, user.nombre))
    ensures user.titre in clerk.catalogue && clerk.catalogue[user.titre].quantite == old(clerk.catalogue[user.titre].quantite) - user.nombre
    ensures user.titre == old(user.titre) && user.nombre == old(user.nombre)
    ensures user.done && user.dureeOfferte == user.dureeConfirmee == Some(old(clerk.catalogue[user.titre].dureeEmpruntMax))
    ensures thanks == [NewMessage(Inform, user.name, clerk.name, Text("merci beaucoup"), "")]
  {
    var offer := LoanOffered(clerk, user, "r1");
    var period := clerk.catalogue[user.titre].dureeEmpruntMax;
    var accept := LoanAccepted(user, offer, period);
    var confirmation := LoanLent(clerk, user.titre, user.nombre, accept, "r2");
    thanks := LoanThanked(user, confirmation, period);
  }

  /** A borrower asks for the one copy of "Dune": it is offered and
      confirmed for 21 days, and none is left. */
  method BorrowingDune() returns (confirmed: Option<int>, thanks: seq<Message>, left: int)
    ensures confirmed == Some(21)
    ensures thanks == [NewMessage(Inform, "emprunteur", "bibliothecaire", Text("merci beaucoup"), "")]
    ensures left == 0
  {
    var clerk := new Bibliothecaire("bibliothecaire");
    var user := new Borrower.UserEmprunteur("emprunteur", ["Dune"]);
    DuneHasOneCopy();
    assert user.titre == "Dune" && user.nombre == 1;
    ghost var shelf := clerk.catalogue["Dune"].quantite;
    assert shelf == 1;
    thanks := LoanConversation(clerk, user);
    assert clerk.catalogue["Dune"].quantite == shelf - 1;
    confirmed := user.dureeConfirmee;
    left := clerk.catalogue["Dune"].quantite;
  }
}
