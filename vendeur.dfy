/** `agents.Vendeur`: the book seller. Its catalogue maps a category to the
    list of books on sale in it; one cyclic behaviour answers calls for
    proposals with the first book whose title matches ignoring case, the
    other sells a book by removing one matching entry. */
module Seller {
  import opened Wrappers
  import opened Acl
  import opened LivreModel

  /** `Character.toLowerCase` restricted to ASCII letters. */
  function LowerAscii(c: char): (r: char)
    ensures 'A' <= c <= 'Z' ==> 'a' <= r <= 'z'
    ensures !('A' <= c <= 'Z') ==> r == c
  {
    if 'A' <= c <= 'Z' then ((c as int) + 32) as char else c
  }

  /** `String.equalsIgnoreCase`, with ASCII case folding. */
  predicate EqualsIgnoreCase(a: string, b: string) {
    |a| == |b| && forall i :: 0 <= i < |a| ==> LowerAscii(a[i]) == LowerAscii(b[i])
  }

  /** Matching ignoring case is an equivalence, so whichever side holds the
      request does not matter. */
  lemma EqualsIgnoreCaseEquivalence(a: string, b: string, c: string)
    ensures EqualsIgnoreCase(a, a)
    ensures EqualsIgnoreCase(a, b) ==> EqualsIgnoreCase(b, a)
    ensures EqualsIgnoreCase(a, b) && EqualsIgnoreCase(b, c) ==> EqualsIgnoreCase(a, c)
  {
  }

  /** Titles differing only in the case of ASCII letters match. */
  lemma CaseIsIgnored()
    ensures EqualsIgnoreCase("dune", "DUNE") && !EqualsIgnoreCase("Dune", "Dunes")
  {
    assert LowerAscii('D') == 'd' && LowerAscii('U') == 'u' && LowerAscii('N') == 'n' && LowerAscii('E') == 'e';
  }

  type Shelves = map<string, seq<Livre>>

  predicate Matching(l: Livre, titre: string) {
    EqualsIgnoreCase(l.titre, titre)
  }

  /** No book of the list matches. */
  predicate NoneMatches(livres: seq<Livre>, titre: string) {
    forall j :: 0 <= j < |livres| ==> !Matching(livres[j], titre)
  }

  /** Some category holds a book whose title matches. */
  predicate Holds(catalogue: Shelves, titre: string) {
    exists c :: c in catalogue && !NoneMatches(catalogue[c], titre)
  }

  /** Position `i` of category `c` is the first match of that category. */
  predicate FirstMatchAt(catalogue: Shelves, titre: string, c: string, i: int) {
    c in catalogue && 0 <= i < |catalogue[c]| && Matching(catalogue[c][i], titre)
    && NoneMatches(catalogue[c][..i], titre)
  }

  /** The titles of a list of books, in order. */
  function Titles(livres: seq<Livre>): (ts: seq<string>)
    ensures |ts| == |livres| && forall i :: 0 <= i < |livres| ==> ts[i] == livres[i].titre
  {
    if livres == [] then [] else Titles(livres[..|livres| - 1]) + [livres[|livres| - 1].titre]
  }

  class Vendeur {
    const name: AgentId
    var catalogue: Shelves
    /** Set once an uncaught runtime exception has ended the agent. */
    var crashed: bool

    /** `setup` and `initialiserCatalogue`: three categories, one copy of
        each book, prices in cents. */
    constructor (name: AgentId)
      ensures this.name == name && !crashed && OpeningShelves(catalogue)
      ensures catalogue["Roman"][0].prix == 1599 && catalogue["Roman"][1].prix == 1250 && catalogue["Roman"][2].prix == 2025
      ensures catalogue["Science-Fiction"][0].prix == 1875 && catalogue["Science-Fiction"][1].prix == 1690
      ensures catalogue["Philosophie"][0].prix == 1450
    {
      this.name := name;
      var orwell := new Livre("1984", "George Orwell", 1599);
      var prince := new Livre("Le Petit Prince", "Antoine de Saint-Exupéry", 1250);
      var potter := new Livre("Harry Potter", "J.K. Rowling", 2025);
      var dune := new Livre("Dune", "Frank Herbert", 1875);
      var fondation := new Livre("Fondation", "Isaac Asimov", 1690);
      var zarathoustra := new Livre("Ainsi parlait Zarathoustra", "Friedrich Nietzsche", 1450);
      catalogue := map[
        "Roman" := [orwell, prince, potter],
        "Science-Fiction" := [dune, fondation],
        "Philosophie" := [zarathoustra]];
      crashed := false;
      assert [orwell, prince, potter][..2] == [orwell, prince];
      assert [orwell, prince][..1] == [orwell];
      assert [dune, fondation][..1] == [dune];
    }

    /** `rechercherLivre`: the categories in the map's iteration order, each
        list from the front; the first book whose title matches, or nothing
        when no category holds one. */
    method RechercherLivre(titre: string) returns (r: Option<Livre>)
      ensures r.None? <==> !Holds(catalogue, titre)
      ensures r.Some? ==> exists c, i :: FirstMatchAt(catalogue, titre, c, i) && catalogue[c][i] == r.value
    {
      var left := catalogue.Keys;
      while left != {}
        invariant left <= catalogue.Keys
        invariant forall c :: c in catalogue && c !in left ==> NoneMatches(catalogue[c], titre)
        decreases left
      {
        var c :| c in left;
        var livres := catalogue[c];
        var i := 0;
        while i < |livres|
          invariant 0 <= i <= |livres|
          invariant NoneMatches(livres[..i], titre)
        {
          if EqualsIgnoreCase(livres[i].titre, titre) {
            assert FirstMatchAt(catalogue, titre, c, i);
            return Some(livres[i]);
          }
          assert livres[..i + 1] == livres[..i] + [livres[i]];
          i := i + 1;
        }
        assert livres[..i] == livres;
        left := left - {c};
      }
      return None;
    }

    /** `retirerLivreDuCatalogue`: finds a matching book as the search does
        and removes that one entry from its list; the other entries and
        categories stay as they were. */
    method RetirerLivreDuCatalogue(titre: string) returns (removed: bool)
      modifies this
      ensures crashed == old(crashed)
      ensures removed <==> Holds(old(catalogue), titre)
      ensures !removed ==> catalogue == old(catalogue)
      ensures removed ==> exists c, i ::
                            && FirstMatchAt(old(catalogue), titre, c, i)
                            && catalogue == old(catalogue)[c := old(catalogue)[c][..i] + old(catalogue)[c][i + 1..]]
    {
      var left := catalogue.Keys;
      while left != {}
        invariant catalogue == old(catalogue)
        invariant left <= catalogue.Keys
        invariant forall c :: c in catalogue && c !in left ==> NoneMatches(catalogue[c], titre)
        decreases left
      {
        var c :| c in left;
        var livres := catalogue[c];
        var i := 0;
        while i < |livres|
          invariant 0 <= i <= |livres|
          invariant NoneMatches(livres[..i], titre)
        {
          if EqualsIgnoreCase(livres[i].titre, titre) {
            assert FirstMatchAt(catalogue, titre, c, i);
            catalogue := catalogue[c := livres[..i] + livres[i + 1..]];
            return true;
          }
          assert livres[..i + 1] == livres[..i] + [livres[i]];
          i := i + 1;
        }
        assert livres[..i] == livres;
        left := left - {c};
      }
      return false;
    }

    /** A CFP: PROPOSE with the matching book as the content, or REFUSE
        `livre-non-disponible`. The catalogue is only read. */
    method HandleCfp(msg: Message, token: string) returns (out: seq<Message>)
      ensures |out| == 1 && out[0].receivers == [msg.sender] && out[0].conversationId == msg.conversationId
      ensures out[0].inReplyTo == msg.replyWith
      ensures out[0].performative == Propose <==> Holds(catalogue, ContentText(msg.content))
      ensures out[0].performative == Propose ==>
                && out[0].content.LivreObject?
                && (exists c, i :: FirstMatchAt(catalogue, ContentText(msg.content), c, i) && catalogue[c][i].Data() == out[0].content.livre)
      ensures out[0].performative != Propose ==> out[0] == CreateReply(msg, name, Refuse, Text("livre-non-disponible"), token)
    {
      var found := RechercherLivre(ContentText(msg.content));
      if found.Some? {
        out := [CreateReply(msg, name, Propose, LivreObject(found.value.Data()), token)];
      } else {
        out := [CreateReply(msg, name, Refuse, Text("livre-non-disponible"), token)];
      }
    }

    /** An ACCEPT_PROPOSAL: the book named in the content is removed and
        the sale confirmed, or FAILURE `livre-plus-disponible` when no copy
        is left. A string content cannot be read and is dropped; any object
        other than a book throws a `ClassCastException` the behaviour does
        not catch, which ends the agent. */
    method HandleAccept(msg: Message, token: string) returns (out: seq<Message>)
      modifies this
      ensures msg.content.Text? ==> out == [] && catalogue == old(catalogue) && crashed == old(crashed)
      ensures msg.content.ListeObject? || msg.content.ResultatObject? ==> out == [] && catalogue == old(catalogue) && crashed
      ensures msg.content.LivreObject? ==>
                && crashed == old(crashed) && |out| == 1
                && (var sold := Holds(old(catalogue), msg.content.livre.titre);
            (sold ==> out[0] == CreateReply(msg, name, Inform, Text("vente-confirmée"), token))
            && (!sold ==> out[0] == CreateReply(msg, name, Failure, Text("livre-plus-disponible"), token)))
      ensures msg.content.LivreObject? && !Holds(old(catalogue), msg.content.livre.titre) ==> catalogue == old(catalogue)
      ensures msg.content.LivreObject? && Holds(old(catalogue), msg.content.livre.titre) ==>
        exists c, i ::
          && FirstMatchAt(old(catalogue), msg.content.livre.titre, c, i)
          && catalogue == old(catalogue)[c := old(catalogue)[c][..i] + old(catalogue)[c][i + 1..]]
    {
      out := [];
      if msg.content.Text? {
        return;
      }
      if !msg.content.LivreObject? {
        crashed := true;
        return;
      }
      var livre := msg.content.livre;
      var removed := RetirerLivreDuCatalogue(livre.titre);
      if removed {
        out := [CreateReply(msg, name, Inform, Text("vente-confirmée"), token)];
      } else {
        out := [CreateReply(msg, name, Failure, Text("livre-plus-disponible"), token)];
      }
    }

    /** One run of `RepondreDemandesDisponibilite`: the oldest CFP, if any. */
    method CfpAction(inbox: seq<Message>, token: string) returns (rest: seq<Message>, out: seq<Message>)
      ensures crashed ==> rest == inbox && out == []
      ensures !crashed ==> rest == Receive(inbox, MatchPerformative(Cfp)).rest
      ensures !crashed && Receive(inbox, MatchPerformative(Cfp)).msg.None? ==> out == []
      ensures var r := Receive(inbox, MatchPerformative(Cfp));
        !crashed && r.msg.Some? ==>
          var m, titre := r.msg.value, ContentText(r.msg.value.content);
          && |out| == 1 && out[0].receivers == [m.sender] && out[0].conversationId == m.conversationId
          && out[0].inReplyTo == m.replyWith
          && (out[0].performative == Propose <==> Holds(catalogue, titre))
          && (out[0].performative == Propose ==>
                && out[0].content.LivreObject?
                && (exists c, i :: FirstMatchAt(catalogue, titre, c, i) && catalogue[c][i].Data() == out[0].content.livre))
          && (out[0].performative != Propose ==> out[0] == CreateReply(m, name, Refuse, Text("livre-non-disponible"), token))
    {
      if crashed {
        return inbox, [];
      }
      var r := Receive(inbox, MatchPerformative(Cfp));
      rest := r.rest;
      out := [];
      if r.msg.Some? {
        out := HandleCfp(r.msg.value, token);
      }
    }

    /** One run of `TraiterAchats`: the oldest ACCEPT_PROPOSAL, if any. */
    method AcceptAction(inbox: seq<Message>, token: string) returns (rest: seq<Message>, out: seq<Message>)
      modifies this
      ensures old(crashed) ==> rest == inbox && out == [] && catalogue == old(catalogue) && crashed
      ensures !old(crashed) ==> rest == Receive(inbox, MatchPerformative(AcceptProposal)).rest
      ensures Receive(inbox, MatchPerformative(AcceptProposal)).msg.None? ==> out == [] && catalogue == old(catalogue) && crashed == old(crashed)
      ensures var r := Receive(inbox, MatchPerformative(AcceptProposal));
        !old(crashed) && r.msg.Some? && r.msg.value.content.Text? ==> out == [] && catalogue == old(catalogue) && !crashed
      ensures var r := Receive(inbox, MatchPerformative(AcceptProposal));
        !old(crashed) && r.msg.Some? && (r.msg.value.content.ListeObject? || r.msg.value.content.ResultatObject?) ==>
          out == [] && catalogue == old(catalogue) && crashed
      ensures var r := Receive(inbox, MatchPerformative(AcceptProposal));
        !old(crashed) && r.msg.Some? && r.msg.value.content.LivreObject? ==>
          var m, titre := r.msg.value, r.msg.value.content.livre.titre;
          && !crashed && |out| == 1
          && (Holds(old(catalogue), titre) ==>
                && out[0] == CreateReply(m, name, Inform, Text("vente-confirmée"), token)
                && exists c, i ::
                     && FirstMatchAt(old(catalogue), titre, c, i)
                     && catalogue == old(catalogue)[c := old(catalogue)[c][..i] + old(catalogue)[c][i + 1..]])
          && (!Holds(old(catalogue), titre) ==>
                out[0] == CreateReply(m, name, Failure, Text("livre-plus-disponible"), token) && catalogue == old(catalogue))
    {
      if crashed {
        return inbox, [];
      }
      var r := Receive(inbox, MatchPerformative(AcceptProposal));
      rest := r.rest;
      out := [];
      if r.msg.Some? {
        out := HandleAccept(r.msg.value, token);
      }
    }
  }

  lemma DuneMatchesOnlyItself()
    ensures EqualsIgnoreCase("Dune", "Dune")
    ensures !EqualsIgnoreCase("1984", "Dune") && !EqualsIgnoreCase("Le Petit Prince", "Dune")
    ensures !EqualsIgnoreCase("Harry Potter", "Dune") && !EqualsIgnoreCase("Fondation", "Dune")
    ensures !EqualsIgnoreCase("Ainsi parlait Zarathoustra", "Dune")
  {
    assert "1984"[0] == '1' && "Dune"[0] == 'D';
    assert LowerAscii("1984"[0]) != LowerAscii("Dune"[0]);
  }

  /** Selling the one copy of a title: once the only matching entry is
      removed, no category holds the title any more. */
  lemma RemovingTheOnlyMatch(catalogue: Shelves, titre: string, c: string, i: int)
    requires FirstMatchAt(catalogue, titre, c, i)
    requires forall d, j :: d in catalogue && 0 <= j < |catalogue[d]| && Matching(catalogue[d][j], titre) ==> d == c && j == i
    ensures !Holds(catalogue[c := catalogue[c][..i] + catalogue[c][i + 1..]], titre)
  {
    var after := catalogue[c := catalogue[c][..i] + catalogue[c][i + 1..]];
    forall d | d in after
      ensures NoneMatches(after[d], titre)
    {
      if d == c {
        forall j | 0 <= j < |after[d]|
          ensures !Matching(after[d][j], titre)
        {
          if j < i {
            assert after[d][j] == catalogue[c][j];
          } else {
            assert after[d][j] == catalogue[c][j + 1];
          }
        }
      }
    }
  }

  /** The opening catalogue, by titles. */
  predicate OpeningShelves(catalogue: Shelves) {
    && catalogue.Keys == {"Roman", "Science-Fiction", "Philosophie"}
    && Titles(catalogue["Roman"]) == ["1984", "Le Petit Prince", "Harry Potter"]
    && Titles(catalogue["Science-Fiction"]) == ["Dune", "Fondation"]
    && Titles(catalogue["Philosophie"]) == ["Ainsi parlait Zarathoustra"]
  }

  /** In the opening catalogue only the first science-fiction entry is
      "Dune", in any case. */
  lemma OnlyOneDune(catalogue: Shelves)
    requires OpeningShelves(catalogue)
    ensures FirstMatchAt(catalogue, "Dune", "Science-Fiction", 0)
    ensures forall d, j :: d in catalogue && 0 <= j < |catalogue[d]| && Matching(catalogue[d][j], "Dune") ==> d == "Science-Fiction" && j == 0
  {
    DuneMatchesOnlyItself();
    assert catalogue["Science-Fiction"][0].titre == "Dune";
    assert catalogue["Science-Fiction"][..0] == [];
    forall d, j | d in catalogue && 0 <= j < |catalogue[d]| && Matching(catalogue[d][j], "Dune")
      ensures d == "Science-Fiction" && j == 0
    {
      var ts := Titles(catalogue[d]);
      assert catalogue[d][j].titre == ts[j];
      assert d == "Science-Fiction";
      assert j != 1;
    }
  }

  /** The seller has one copy of "Dune": the first buyer to accept it gets
      the sale, a second acceptance fails, and a later call for proposals
      for it is refused. */
  method SingleCopySoldOnce() returns (first: seq<Message>, second: seq<Message>, later: seq<Message>)
    ensures |first| == 1 && first[0].performative == Inform && first[0].content == Text("vente-confirmée")
    ensures |second| == 1 && second[0].performative == Failure && second[0].content == Text("livre-plus-disponible")
    ensures |later| == 1 && later[0].performative == Refuse
  {
    var seller := new Vendeur("vendeur");
    var opening := seller.catalogue;
    OnlyOneDune(opening);
    var book := BookData("Dune", "Frank Herbert", 1875);
    var accept := NewMessage(AcceptProposal, "acheteur", "vendeur", LivreObject(book), "vente-livres");
    first := seller.HandleAccept(accept, "a1");
    var c, i :| FirstMatchAt(opening, "Dune", c, i) && seller.catalogue == opening[c := opening[c][..i] + opening[c][i + 1..]];
    RemovingTheOnlyMatch(opening, "Dune", c, i);
    second := seller.HandleAccept(accept, "a2");
    var cfp := NewMessage(Cfp, "acheteur", "vendeur", Text("Dune"), "vente-livres");
    later := seller.HandleCfp(cfp, "c1");
  }
}
