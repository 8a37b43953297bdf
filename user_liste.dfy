/** `agents.UserListe`: sends the librarian a list of titles, weighs the
    share of them found against its utility threshold, and either borrows
    the titles found or thanks the librarian and leaves. */
module ListUser {
  import opened Wrappers
  import opened JavaText
  import opened LibraryRecords
  import opened Acl
  import opened ListeLivresModel
  import opened ResultatRechercheModel
  import opened Library

  const ListConversation := "recherche-liste"
  const LoanConversation := "emprunt-liste"

  /** Step 1 waits for the "search under way" notice, on any conversation. */
  const AwaitSearching: Template := And(MatchPerformative(Inform), MatchContent("recherche-en-cours"))

  /** Step 2 waits for any other INFORM. */
  const AwaitResult: Template := And(MatchPerformative(Inform), Not(MatchContent("recherche-en-cours")))

  /** Step 3 waits for the answer on the loan conversation. */
  const AwaitLoan: Template := And(MatchPerformative(Inform), MatchConversationId(LoanConversation))

  /** The librarian's answer when every title asked for was lent. */
  predicate AllLentReply(content: string) {
    StartsWith(content, "tous-empruntes:")
  }

  /** The librarian's answer when only some of the titles were lent. */
  predicate SomeLentReply(content: string) {
    StartsWith(content, "certains-empruntes:")
  }

  /** A launch argument: an array of titles, a text that `Float.parseFloat`
      reads as the fraction `num / den` (the text is unreadable when `den`
      is not positive), or any other text. */
  datatype Argument =
    | Titles(titres: seq<string>)
    | Decimal(num: int, den: int)
    | Word(text: string)

  /** `utilite >= seuilUtilite` with `utilite = (float) found / wanted`,
      read exactly. With nothing wanted the division gives NaN when nothing
      was found (and NaN compares false) and infinity otherwise (which
      compares true). */
  predicate Borrows(found: nat, wanted: nat, num: int, den: int)
    requires den > 0
  {
    if wanted == 0 then found > 0 else found * den >= num * wanted
  }

  /** The decision is the comparison of the share found with the
      threshold, as fractions. */
  lemma BorrowsIsShareAtLeastThreshold(found: nat, wanted: nat, num: int, den: int)
    requires den > 0 && wanted > 0
    ensures Borrows(found, wanted, num, den) <==> (found as real) / (wanted as real) >= (num as real) / (den as real)
  {
    var f, w, n, d := found as real, wanted as real, num as real, den as real;
    assert f / w >= n / d <==> f * d >= n * w by {
      assert f / w * (w * d) == f * d;
      assert n / d * (w * d) == n * w;
    }
    assert (found * den) as real == f * d;
    assert (num * wanted) as real == n * w;
  }

  /** Finding more of the list never turns a loan into a refusal. */
  lemma BorrowsIsMonotone(f1: nat, f2: nat, wanted: nat, num: int, den: int)
    requires den > 0 && f1 <= f2 && Borrows(f1, wanted, num, den)
    ensures Borrows(f2, wanted, num, den)
  {
    if wanted > 0 {
      assert f1 * den <= f2 * den;
    }
  }

  /** The AGREE content: every found title followed by `;`, walking the map
      of found titles in some order, which is returned. */
  method TitlesToBorrow(trouves: map<string, LibraryBook>) returns (content: string, order: seq<string>)
    ensures IsEnumeration(order, trouves)
    ensures content == Terminated(order, ';')
  {
    content, order := "", [];
    var left := trouves.Keys;
    EnumeratingStart(trouves);
    while left != {}
      invariant Enumerating(order, left, trouves)
      invariant content == Terminated(order, ';')
      decreases left
    {
      var k :| k in left;
      TerminatedSnoc(order, k, ';');
      EnumeratingStep(order, left, trouves, k);
      content := content + k + ";";
      order := order + [k];
      left := left - {k};
    }
    EnumeratingDone(order, trouves);
  }

  /** The librarian reads the AGREE back as the titles found, each once,
      as long as no title holds `;` and none is empty. */
  lemma AgreeIsReadBack(order: seq<string>)
    requires order != []
    requires forall i :: 0 <= i < |order| ==> ';' !in order[i] && order[i] != ""
    ensures Split(Terminated(order, ';'), ';') == order
  {
    SplitOfTerminated(order, ';');
    assert order[|order| - 1] != "";
  }

  /** An "all lent" answer is read back as the duration it carries. */
  lemma AllLentPieces(d: int)
    requires IsInt32(d)
    ensures SecondField("tous-empruntes:" + IntToString(d)) == Some(d)
  {
    var tag := "tous-empruntes";
    assert ':' !in tag;
    assert "tous-empruntes:" + IntToString(d) == Tagged(tag, d);
    SecondFieldOfTagged(tag, d);
  }

  /** The librarian's "all lent" answer to an AGREE never ends the list
      user: the duration it carries is an `int`. */
  lemma AllLentReplyIsReadable(c: Catalogue, ts: seq<string>)
    requires CatalogueValid(c) && LendAll(c, ts).tous
    ensures SecondField(AgreeReply(LendAll(c, ts))) == Some(LendAll(c, ts).dureeMin)
  {
    var r := LendAll(c, ts);
    LendAllShortestLoanCap(c, ts);
    if ts != [] {
      LendAllShortestLoanAttained(c, ts);
      var i :| 0 <= i < |ts| && ts[i] in c && r.dureeMin == c[ts[i]].dureeEmpruntMax;
      assert WellFormed(c[ts[i]]);
    }
    AllLentPieces(r.dureeMin);
  }

  /** A "some lent" answer keeps a second `:`-piece whenever its report
      does not end with `:`. */
  lemma SomeLentPieces(rapport: string)
    requires rapport != [] && rapport[|rapport| - 1] != ':'
    ensures |Split("certains-empruntes:" + rapport, ':')| >= 2
  {
    var tag := "certains-empruntes";
    assert ':' !in tag;
    assert "certains-empruntes:" + rapport == tag + [':'] + rapport;
    SplitKeepsSecond(tag, rapport, ':');
  }

  /** Nor does its "some lent" answer: the report ends with `;`, so the
      reply keeps a second `:`-piece to read. */
  lemma SomeLentReplyIsReadable(c: Catalogue, ts: seq<string>)
    requires CatalogueValid(c) && !LendAll(c, ts).tous
    ensures |Split(AgreeReply(LendAll(c, ts)), ':')| >= 2
  {
    var r := LendAll(c, ts);
    LendAllCounts(c, ts);
    LendAllReport(c, ts);
    var entries := ReportEntries(c, ts);
    assert ts != [] && entries != [];
    var init, last := entries[..|entries| - 1], entries[|entries| - 1];
    TerminatedSnoc(init, last, ';');
    assert init + [last] == entries;
    assert r.rapport == Terminated(init, ';') + last + [';'];
    assert r.rapport[|r.rapport| - 1] == ';';
    SomeLentPieces(r.rapport);
  }

  class UserListe {
    const name: AgentId
    var liste: ListeLivres
    /** The utility threshold, `seuilNum / seuilDen`; 3/5 unless given. */
    var seuilNum: int
    var seuilDen: int
    /** The step of `RechercherListe`, 0 to 3. */
    var etape: nat
    var souhaites: nat
    var done: bool
    var deleted: bool
    /** An uncaught exception has ended the agent. */
    var crashed: bool
    /** What the agent reports: the number of titles found, the loan
        duration when all were lent, the report when only some were. */
    var trouves: Option<nat>
    var duree: Option<int>
    var rapport: Option<string>

    ghost predicate Valid()
      reads this
    {
      etape <= 3 && seuilDen > 0 && (deleted ==> done) && (crashed ==> done)
    }

    /** `setup`: the first argument must be an array of titles, the
        optional second one a number; a cast or a parse that fails throws
        and ends the agent. */
    constructor (name: AgentId, args: seq<Argument>)
      ensures Valid() && this.name == name && etape == 0 && fresh(liste)
      ensures trouves.None? && duree.None? && rapport.None?
      ensures |args| == 0 ==> done && deleted && !crashed
      ensures |args| > 0 && !args[0].Titles? ==> crashed && done && !deleted
      ensures |args| > 0 && args[0].Titles? ==>
        && liste.titres == args[0].titres && !deleted
        && (|args| == 1 ==> seuilNum == 3 && seuilDen == 5 && !done && !crashed)
        && (|args| > 1 && args[1].Decimal? && args[1].den > 0 ==> seuilNum == args[1].num && seuilDen == args[1].den && !done && !crashed)
        && (|args| > 1 && !(args[1].Decimal? && args[1].den > 0) ==> crashed && done)
    {
      this.name := name;
      etape, souhaites := 0, 0;
      seuilNum, seuilDen := 3, 5;
      trouves, duree, rapport := None, None, None;
      done, deleted, crashed := false, false, false;
      var l := new ListeLivres();
      if |args| == 0 {
        done, deleted := true, true;
      } else if !args[0].Titles? {
        crashed, done := true, true;
      } else {
        var titres := args[0].titres;
        var i := 0;
        while i < |titres|
          invariant 0 <= i <= |titres| && l.titres == titres[..i]
        {
          assert titres[..i + 1] == titres[..i] + [titres[i]];
          l.AjouterLivre(titres[i]);
          i := i + 1;
        }
        assert titres[..i] == titres;
        if |args| > 1 {
          if args[1].Decimal? && args[1].den > 0 {
            seuilNum, seuilDen := args[1].num, args[1].den;
          } else {
            crashed, done := true, true;
          }
        }
      }
      liste := l;
    }

    /** Steps 0 and 1: the list to the first librarian listed, then the
        "search under way" notice. */
    method Ask(librarians: seq<AgentId>, inbox: seq<Message>) returns (rest: seq<Message>, out: seq<Message>)
      requires Valid() && !done && etape <= 1
      modifies this
      ensures Valid() && liste == old(liste) && seuilNum == old(seuilNum) && seuilDen == old(seuilDen)
      ensures !deleted && !crashed && trouves == old(trouves) && duree == old(duree) && rapport == old(rapport)
      ensures old(etape) == 0 ==> rest == inbox && souhaites == |liste.titres|
      ensures old(etape) == 0 && |librarians| > 0 ==>
        out == [NewMessage(Confirm, name, librarians[0], ListeObject(liste.titres), ListConversation)] && etape == 1 && !done
      ensures old(etape) == 0 && |librarians| == 0 ==> out == [] && etape == 0 && done
      ensures old(etape) == 1 ==>
        var r := Receive(inbox, AwaitSearching);
        && rest == r.rest && out == [] && !done && souhaites == old(souhaites)
        && (etape == 2 <==> r.msg.Some?)
        && (etape != 2 ==> etape == 1)
    {
      rest, out := inbox, [];
      if etape == 0 {
        souhaites := liste.NombreLivres();
        if |librarians| > 0 {
          out := [NewMessage(Confirm, name, librarians[0], ListeObject(liste.titres), ListConversation)];
          etape := 1;
        } else {
          done := true;
        }
      } else {
        var r := Receive(inbox, AwaitSearching);
        rest := r.rest;
        if r.msg.Some? {
          etape := 2;
        }
      }
    }

    /** Step 2: a search result is acknowledged, then the titles found are
        borrowed when their share reaches the threshold; otherwise the agent
        thanks the librarian and leaves. A text that is not an object ends
        the behaviour; an object of another class ends the agent. */
    method Decide(inbox: seq<Message>) returns (rest: seq<Message>, out: seq<Message>, order: seq<string>)
      requires Valid() && !done && etape == 2
      modifies this
      ensures Valid() && liste == old(liste) && seuilNum == old(seuilNum) && seuilDen == old(seuilDen)
      ensures souhaites == old(souhaites) && duree == old(duree) && rapport == old(rapport)
      ensures etape == 2 || etape == 3
      ensures var r := Receive(inbox, AwaitResult);
        && rest == r.rest
        && (r.msg.None? ==> out == [] && etape == 2 && !done && trouves == old(trouves))
        && (r.msg.Some? && r.msg.value.content.Text? ==> out == [] && done && !deleted && !crashed && trouves == old(trouves))
        && (r.msg.Some? && (r.msg.value.content.ListeObject? || r.msg.value.content.LivreObject?) ==>
              out == [] && crashed && done && !deleted && trouves == old(trouves))
      ensures var r := Receive(inbox, AwaitResult);
        r.msg.Some? && r.msg.value.content.ResultatObject? ==>
          var m := r.msg.value;
          var found := |m.content.trouves.Keys|;
          var thinking := NewMessage(Inform, name, m.sender, Text("reflection-en-cours"), "");
          && !crashed && trouves == Some(found)
          && (Borrows(found, souhaites, seuilNum, seuilDen) ==>
                && IsEnumeration(order, m.content.trouves) && etape == 3 && !done
                && out == [thinking, NewMessage(Agree, name, m.sender, Text(Terminated(order, ';')), LoanConversation)])
          && (!Borrows(found, souhaites, seuilNum, seuilDen) ==>
                && done && deleted
                && out == [thinking, NewMessage(Inform, name, m.sender, Text("merci-non-emprunt"), "")])
    {
      var r := Receive(inbox, AwaitResult);
      rest, out, order := r.rest, [], [];
      if r.msg.None? {
        return;
      }
      var m := r.msg.value;
      if m.content.Text? {
        done := true;
        return;
      }
      if !m.content.ResultatObject? {
        crashed, done := true, true;
        return;
      }
      var found := |m.content.trouves|;
      trouves := Some(found);
      var thinking := NewMessage(Inform, name, m.sender, Text("reflection-en-cours"), "");
      if Borrows(found, souhaites, seuilNum, seuilDen) {
        var content;
        content, order := TitlesToBorrow(m.content.trouves);
        out := [thinking, NewMessage(Agree, name, m.sender, Text(content), LoanConversation)];
        etape := 3;
      } else {
        out := [thinking, NewMessage(Inform, name, m.sender, Text("merci-non-emprunt"), "")];
        done, deleted := true, true;
      }
    }

    /** Step 3: the loan answer is read (the duration when all were lent,
        the report when only some were) and answered with thanks. */
    method Conclude(inbox: seq<Message>) returns (rest: seq<Message>, out: seq<Message>)
      requires Valid() && !done && etape == 3
      modifies this
      ensures Valid() && liste == old(liste) && seuilNum == old(seuilNum) && seuilDen == old(seuilDen)
      ensures etape == 3 && souhaites == old(souhaites) && trouves == old(trouves)
      ensures var r := Receive(inbox, AwaitLoan);
        && rest == r.rest
        && (r.msg.None? ==> out == [] && !done && duree == old(duree) && rapport == old(rapport))
      ensures var r := Receive(inbox, AwaitLoan);
        r.msg.Some? ==>
          var c := ContentText(r.msg.value.content);
          var thanks := [NewMessage(Inform, name, r.msg.value.sender, Text("merci-beaucoup"), "")];
          && done
          && (AllLentReply(c) ==>
                && rapport == old(rapport)
                && (SecondField(c).None? ==> crashed && !deleted && out == [] && duree == old(duree))
                && (SecondField(c).Some? ==> !crashed && deleted && out == thanks && duree == SecondField(c)))
          && (!AllLentReply(c) && SomeLentReply(c) ==>
                && duree == old(duree)
                && (|Split(c, ':')| < 2 ==> crashed && !deleted && out == [] && rapport == old(rapport))
                && (|Split(c, ':')| >= 2 ==> !crashed && deleted && out == thanks && rapport == Some(Split(c, ':')[1])))
          && (!AllLentReply(c) && !SomeLentReply(c) ==>
                !crashed && deleted && out == thanks && duree == old(duree) && rapport == old(rapport))
    {
      var r := Receive(inbox, AwaitLoan);
      rest, out := r.rest, [];
      if r.msg.None? {
        return;
      }
      var m := r.msg.value;
      var c := ContentText(m.content);
      if AllLentReply(c) {
        var d := SecondField(c);
        if d.None? {
          crashed, done := true, true;
          return;
        }
        duree := d;
      } else if SomeLentReply(c) {
        var parts := Split(c, ':');
        if |parts| < 2 {
          crashed, done := true, true;
          return;
        }
        rapport := Some(parts[1]);
      }
      out := [NewMessage(Inform, name, m.sender, Text("merci-beaucoup"), "")];
      done, deleted := true, true;
    }

    /** One run of `RechercherListe.action`: the step decides what is sent
      and how the agent moves on, as `Ask`, `Decide` and `Conclude` do;
      `order` is the walk over the found titles when an AGREE is sent. */
    method Action(librarians: seq<AgentId>, inbox: seq<Message>) returns (rest: seq<Message>, out: seq<Message>, order: seq<string>)
      requires Valid() && !done
      modifies this
      ensures Valid() && liste == old(liste) && seuilNum == old(seuilNum) && seuilDen == old(seuilDen)
      ensures old(etape) <= etape
      ensures old(etape) <= 1 ==> !crashed && !deleted && trouves == old(trouves) && duree == old(duree) && rapport == old(rapport)
      ensures old(etape) == 0 ==> rest == inbox && souhaites == |liste.titres|
      ensures old(etape) == 0 && |librarians| > 0 ==>
        out == [NewMessage(Confirm, name, librarians[0], ListeObject(liste.titres), ListConversation)] && etape == 1 && !done
      ensures old(etape) == 0 && |librarians| == 0 ==> out == [] && etape == 0 && done
      ensures old(etape) == 1 ==>
        var r := Receive(inbox, AwaitSearching);
        && rest == r.rest && out == [] && !done && souhaites == old(souhaites)
        && (etape == 2 <==> r.msg.Some?)
        && (etape != 2 ==> etape == 1)
      ensures old(etape) == 2 ==>
        var r := Receive(inbox, AwaitResult);
        && rest == r.rest && (etape == 2 || etape == 3)
        && souhaites == old(souhaites) && duree == old(duree) && rapport == old(rapport)
        && (r.msg.None? ==> out == [] && etape == 2 && !done && trouves == old(trouves))
        && (r.msg.Some? && r.msg.value.content.Text? ==> out == [] && done && !deleted && !crashed && trouves == old(trouves))
        && (r.msg.Some? && (r.msg.value.content.ListeObject? || r.msg.value.content.LivreObject?) ==>
              out == [] && crashed && done && !deleted && trouves == old(trouves))
      ensures var r := Receive(inbox, AwaitResult);
        old(etape) == 2 && r.msg.Some? && r.msg.value.content.ResultatObject? ==>
          var m := r.msg.value;
          var found := |m.content.trouves.Keys|;
          var thinking := NewMessage(Inform, name, m.sender, Text("reflection-en-cours"), "");
          && !crashed && trouves == Some(found)
          && (Borrows(found, souhaites, seuilNum, seuilDen) ==>
                && IsEnumeration(order, m.content.trouves) && etape == 3 && !done
                && out == [thinking, NewMessage(Agree, name, m.sender, Text(Terminated(order, ';')), LoanConversation)])
          && (!Borrows(found, souhaites, seuilNum, seuilDen) ==>
                && done && deleted
                && out == [thinking, NewMessage(Inform, name, m.sender, Text("merci-non-emprunt"), "")])
      ensures old(etape) == 3 ==>
        var r := Receive(inbox, AwaitLoan);
        && etape == 3 && souhaites == old(souhaites) && trouves == old(trouves) && rest == r.rest
        && (r.msg.None? ==> out == [] && !done && duree == old(duree) && rapport == old(rapport))
      ensures var r := Receive(inbox, AwaitLoan);
        old(etape) == 3 && r.msg.Some? ==>
          var c := ContentText(r.msg.value.content);
          var thanks := [NewMessage(Inform, name, r.msg.value.sender, Text("merci-beaucoup"), "")];
          && done
          && (AllLentReply(c) ==>
                && rapport == old(rapport)
                && (SecondField(c).None? ==> crashed && !deleted && out == [] && duree == old(duree))
                && (SecondField(c).Some? ==> !crashed && deleted && out == thanks && duree == SecondField(c)))
          && (!AllLentReply(c) && SomeLentReply(c) ==>
                && duree == old(duree)
                && (|Split(c, ':')| < 2 ==> crashed && !deleted && out == [] && rapport == old(rapport))
                && (|Split(c, ':')| >= 2 ==> !crashed && deleted && out == thanks && rapport == Some(Split(c, ':')[1])))
          && (!AllLentReply(c) && !SomeLentReply(c) ==>
                !crashed && deleted && out == thanks && duree == old(duree) && rapport == old(rapport))
    {
      order := [];
      if etape <= 1 {
        rest, out := Ask(librarians, inbox);
      } else if etape == 2 {
        rest, out, order := Decide(inbox);
      } else {
        rest, out := Conclude(inbox);
      }
    }
  }
}
