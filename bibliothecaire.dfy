/** `agents.Bibliothecaire`: the library clerk. It keeps a catalogue from
    title to record and two statistics counters, and its one cyclic
    behaviour answers five kinds of message: a REQUEST asks whether a title
    is on the shelf, a CFP asks for a loan offer on `title[:count]`, an
    ACCEPT_PROPOSAL takes the loan, a CONFIRM carries a list to search and
    an AGREE borrows a `;`-terminated list of titles. */
module Library {
  import opened Wrappers
  import opened JavaText
  import opened LibraryRecords
  import opened Acl
  import opened ListeLivresModel
  import opened ResultatRechercheModel

  type Catalogue = map<string, LibraryBook>

  /** Every record of the catalogue keeps the record invariant. */
  predicate CatalogueValid(c: Catalogue) {
    forall t :: t in c ==> WellFormed(c[t])
  }

  /** `initialiserCatalogue`: ten titles, each with its stock and its
      longest loan in days. */
  function InitialCatalogue(): (c: Catalogue)
    ensures CatalogueValid(c)
    ensures forall t :: t in c ==> c[t].titre == t && IsAvailable(c[t])
  {
    map[
      "1984" := LibraryBook("1984", "George Orwell", 3, 21),
      "Le Petit Prince" := LibraryBook("Le Petit Prince", "Antoine de Saint-Exupéry", 5, 14),
      "Harry Potter" := LibraryBook("Harry Potter", "J.K. Rowling", 2, 30),
      "Dune" := LibraryBook("Dune", "Frank Herbert", 1, 21),
      "Fondation" := LibraryBook("Fondation", "Isaac Asimov", 3, 14),
      "Ainsi parlait Zarathoustra" := LibraryBook("Ainsi parlait Zarathoustra", "Friedrich Nietzsche", 2, 30),
      "L'Étranger" := LibraryBook("L'Étranger", "Albert Camus", 4, 21),
      "Les Misérables" := LibraryBook("Les Misérables", "Victor Hugo", 2, 30),
      "Crime et Châtiment" := LibraryBook("Crime et Châtiment", "Fyodor Dostoevsky", 1, 14),
      "Le Seigneur des Anneaux" := LibraryBook("Le Seigneur des Anneaux", "J.R.R. Tolkien", 3, 30)
    ]
  }

  /** `catalogue.get(t)` is a record and `estDisponible()` holds of it. */
  predicate OnShelf(c: Catalogue, t: string) {
    t in c && IsAvailable(c[t])
  }

  /** The clerk's behaviour picks every message whose performative it
      handles. */
  const Handled: Template :=
    Or(Or(MatchPerformative(Request), MatchPerformative(Cfp)),
       Or(Or(MatchPerformative(AcceptProposal), MatchPerformative(Confirm)), MatchPerformative(Agree)))

  lemma HandledPerformatives(m: Message)
    ensures Matches(Handled, m) <==> m.performative in {Request, Cfp, AcceptProposal, Confirm, Agree}
  {
    var p := m.performative;
    var first := Or(MatchPerformative(Request), MatchPerformative(Cfp));
    var pair := Or(MatchPerformative(AcceptProposal), MatchPerformative(Confirm));
    var second := Or(pair, MatchPerformative(Agree));
    assert Matches(first, m) <==> p == Request || p == Cfp;
    assert Matches(pair, m) <==> p == AcceptProposal || p == Confirm;
    assert Matches(second, m) <==> Matches(pair, m) || p == Agree;
    assert Matches(Or(first, second), m) <==> Matches(first, m) || Matches(second, m);
  }

  // ---------------------------------------------------------------------
  // Loan requests: `title:count`
  // ---------------------------------------------------------------------

  datatype LoanRequest = LoanRequest(titre: string, nombre: int)

  /** `content.split(":")` followed by `parts[0]` and
      `Integer.parseInt(parts[1])`; a missing second field or a count that
      does not parse throws, which is `None`. */
  function TitleAndCount(content: string): (r: Option<LoanRequest>)
    ensures ':' !in content ==> r == None
    ensures r.Some? ==> ':' !in r.value.titre && IsInt32(r.value.nombre)
    ensures r.Some? ==> r.value.titre + ":" <= content
  {
    var parts := Split(content, ':');
    if |parts| < 2 then None
    else match ParseInt(parts[1])
      case None => None
      case Some(n) =>
        SplitHead(content, ':');
        Some(LoanRequest(parts[0], n))
  }

  /** How the CFP branch reads its content: with no `:` the whole content
      is the title and one copy is asked for. */
  function ParseCfp(content: string): (r: Option<LoanRequest>)
    ensures ':' !in content ==> r == Some(LoanRequest(content, 1))
    ensures ':' in content ==> r == TitleAndCount(content)
  {
    if ':' in content then TitleAndCount(content) else Some(LoanRequest(content, 1))
  }

  /** How the ACCEPT_PROPOSAL branch reads its content: the count is
      mandatory. */
  function ParseAccept(content: string): (r: Option<LoanRequest>)
    ensures ':' !in content ==> r == None
    ensures r.Some? ==> ParseCfp(content) == r
  {
    TitleAndCount(content)
  }

  /** For a title without `:` and any `int` count, both branches read
      `title + ":" + count` back as that title and that count. */
  lemma ParseLoanRequest(titre: string, nombre: int)
    requires ':' !in titre && IsInt32(nombre)
    ensures ParseCfp(titre + ":" + IntToString(nombre)) == Some(LoanRequest(titre, nombre))
    ensures ParseAccept(titre + ":" + IntToString(nombre)) == Some(LoanRequest(titre, nombre))
  {
    var digits := IntToString(nombre);
    IntToStringAvoids(nombre, ':');
    SplitTwo(titre, digits, ':');
    ParseIntOfIntToString(nombre);
    assert titre + ":" + digits == titre + [':'] + digits;
    assert ':' in titre + ":" + digits by {
      assert (titre + ":" + digits)[|titre|] == ':';
    }
  }

  /** A `tag:n` content, as the clerk builds its tagged replies. */
  function Tagged(tag: string, n: int): string {
    tag + ":" + IntToString(n)
  }

  /** The number in a tagged reply is what the borrowers'
      `Integer.parseInt(content.split(":")[1])` reads back. */
  lemma TaggedRoundTrip(tag: string, n: int)
    requires ':' !in tag && IsInt32(n)
    ensures |Split(Tagged(tag, n), ':')| == 2
    ensures Split(Tagged(tag, n), ':')[0] == tag
    ensures ParseInt(Split(Tagged(tag, n), ':')[1]) == Some(n)
  {
    ParseLoanRequest(tag, n);
    var digits := IntToString(n);
    IntToStringAvoids(n, ':');
    SplitTwo(tag, digits, ':');
    assert Tagged(tag, n) == tag + [':'] + digits;
  }

  /** What the borrowers read with `Integer.parseInt(content.split(":")[1])`:
      nothing when there is no second piece or it is not an `int`, the two
      cases in which that expression throws. */
  function SecondField(content: string): (r: Option<int>)
    ensures r.Some? ==> IsInt32(r.value)
  {
    var parts := Split(content, ':');
    if |parts| < 2 then None else ParseInt(parts[1])
  }

  /** A tagged reply is always read back without an exception. */
  lemma SecondFieldOfTagged(tag: string, n: int)
    requires ':' !in tag && IsInt32(n)
    ensures SecondField(Tagged(tag, n)) == Some(n)
  {
    TaggedRoundTrip(tag, n);
  }

  // ---------------------------------------------------------------------
  // The CFP decision and the ACCEPT_PROPOSAL re-check
  // ---------------------------------------------------------------------

  datatype Answer = Answer(performative: Performative, content: string)

  /** The second reply to a CFP. */
  function LoanOffer(c: Catalogue, req: LoanRequest): (r: Answer)
    ensures r.performative == Propose <==> req.titre in c && IsAvailableFor(c[req.titre], req.nombre)
    ensures r.performative != Propose ==> r.performative == Refuse
    ensures r.performative == Propose ==> r.content == Tagged("livre-disponible", c[req.titre].dureeEmpruntMax)
    ensures req.titre !in c ==> r.content == "livre-non-trouve"
    ensures req.titre in c && r.performative == Refuse ==> r.content == Tagged("exemplaires-insuffisants", c[req.titre].quantite)
  {
    if req.titre in c && IsAvailableFor(c[req.titre], req.nombre) then
      Answer(Propose, Tagged("livre-disponible", c[req.titre].dureeEmpruntMax))
    else if req.titre !in c then Answer(Refuse, "livre-non-trouve")
    else Answer(Refuse, Tagged("exemplaires-insuffisants", c[req.titre].quantite))
  }

  /** A refusal for lack of copies reports a stock smaller than the count
      asked for, whenever the count asked for is a real one. */
  lemma ShortRefusalReportsSmallerStock(c: Catalogue, req: LoanRequest)
    requires req.titre in c && req.nombre >= 1
    requires LoanOffer(c, req).performative == Refuse
    ensures c[req.titre].quantite < req.nombre
  {
  }

  /** The catalogue after an ACCEPT_PROPOSAL for `req`: the same unless the
      re-check passes, and then exactly `n` copies fewer of that title. */
  function AfterLoan(c: Catalogue, req: LoanRequest): (r: Catalogue)
    requires CatalogueValid(c)
    ensures CatalogueValid(r) && r.Keys == c.Keys
    ensures forall t :: t in c && t != req.titre ==> r[t] == c[t]
    ensures req.titre in c && IsAvailableFor(c[req.titre], req.nombre) ==> r[req.titre].quantite == c[req.titre].quantite - req.nombre
    ensures !(req.titre in c && IsAvailableFor(c[req.titre], req.nombre)) ==> r == c
  {
    if req.titre in c && IsAvailableFor(c[req.titre], req.nombre) then c[req.titre := Reduce(c[req.titre], req.nombre)] else c
  }

  /** An offer is honoured: when nothing has changed the catalogue between
      the CFP and the ACCEPT_PROPOSAL for the same request, the loan goes
      through; and a loan goes through only when an offer would have been
      made. */
  lemma OfferIsHonoured(c: Catalogue, req: LoanRequest)
    requires CatalogueValid(c)
    ensures LoanOffer(c, req).performative == Propose <==> AfterLoan(c, req) != c
  {
  }

  /** Of two acceptances for the last copy of a title, the second is
      refused. */
  lemma LastCopyLentOnce(c: Catalogue, r1: LoanRequest, r2: LoanRequest)
    requires CatalogueValid(c) && r1.titre in c && c[r1.titre].quantite == 1 && r2.titre == r1.titre
    requires AfterLoan(c, r1) != c
    ensures AfterLoan(AfterLoan(c, r1), r2) == AfterLoan(c, r1)
  {
  }

  // ---------------------------------------------------------------------
  // The same two decisions as written, with `estDisponible(n)` read as
  // `quantite >= n` and `reduireQuantite(n)` as the `int` subtraction. The
  // handlers use the corrected ones above.
  // ---------------------------------------------------------------------

  /** The second reply to a CFP, as written: it agrees with `LoanOffer` on
      every count of at least one. */
  function LoanOfferAsWritten(c: Catalogue, req: LoanRequest): (r: Answer)
    ensures r.performative == Propose <==> req.titre in c && IsAvailableForAsWritten(c[req.titre], req.nombre)
    ensures req.nombre >= 1 ==> r == LoanOffer(c, req)
  {
    if req.titre in c && IsAvailableForAsWritten(c[req.titre], req.nombre) then
      Answer(Propose, Tagged("livre-disponible", c[req.titre].dureeEmpruntMax))
    else if req.titre !in c then Answer(Refuse, "livre-non-trouve")
    else Answer(Refuse, Tagged("exemplaires-insuffisants", c[req.titre].quantite))
  }

  /** The catalogue after an ACCEPT_PROPOSAL, as written; the loan is
      confirmed and counted exactly when the check as written passes. It
      agrees with `AfterLoan` on every count of at least one. */
  function AfterLoanAsWritten(c: Catalogue, req: LoanRequest): (r: Catalogue)
    ensures r.Keys == c.Keys
    ensures forall t :: t in c && t != req.titre ==> r[t] == c[t]
    ensures CatalogueValid(c) && req.nombre >= 1 ==> r == AfterLoan(c, req)
  {
    if req.titre in c && IsAvailableForAsWritten(c[req.titre], req.nombre) then
      c[req.titre := ReduceAsWritten(c[req.titre], req.nombre)]
    else c
  }

  /** As written, a count below one goes through: `Dune:0` is offered for
      21 days and then confirmed and counted as a loan although no copy
      leaves the shelf, and `Dune:-3` raises the one copy to four. The
      corrected decisions refuse both and change nothing. */
  lemma CountBelowOneIsLentAsWritten()
    ensures var c := InitialCatalogue();
      && LoanOfferAsWritten(c, LoanRequest("Dune", 0)).performative == Propose
      && LoanOfferAsWritten(c, LoanRequest("Dune", 0)).content == Tagged("livre-disponible", 21)
      && AfterLoanAsWritten(c, LoanRequest("Dune", 0)) == c
      && AfterLoanAsWritten(c, LoanRequest("Dune", -3))["Dune"].quantite == 4
      && LoanOffer(c, LoanRequest("Dune", 0)).performative == Refuse
      && AfterLoan(c, LoanRequest("Dune", 0)) == c
      && AfterLoan(c, LoanRequest("Dune", -3)) == c
  {
    var c := InitialCatalogue();
    DuneHasOneCopy();
    assert c["Dune"].quantite == 1;
    var zero := LoanRequest("Dune", 0);
    assert ReduceAsWritten(c["Dune"], 0) == c["Dune"];
    assert AfterLoanAsWritten(c, zero) == c[zero.titre := c["Dune"]];
  }

  /** Under the corrected decisions a confirmed loan always takes a copy:
      the stock of the title drops whenever the offer is made. */
  lemma OfferedLoanTakesACopy(c: Catalogue, req: LoanRequest)
    requires CatalogueValid(c) && LoanOffer(c, req).performative == Propose
    ensures req.titre in c && 1 <= req.nombre
    ensures AfterLoan(c, req)[req.titre].quantite < c[req.titre].quantite
  {
  }

  // ---------------------------------------------------------------------
  // CONFIRM: searching a list
  // ---------------------------------------------------------------------

  /** The titles of `ts` on the shelf, each with its record. */
  function FoundOf(c: Catalogue, ts: seq<string>): map<string, LibraryBook> {
    if ts == [] then map[]
    else
      var f := FoundOf(c, ts[..|ts| - 1]);
      var t := ts[|ts| - 1];
      if OnShelf(c, t) then f[t := c[t]] else f
  }

  /** The titles of `ts` not on the shelf, in request order. */
  function NotFoundOf(c: Catalogue, ts: seq<string>): seq<string> {
    if ts == [] then []
    else
      var n := NotFoundOf(c, ts[..|ts| - 1]);
      var t := ts[|ts| - 1];
      if OnShelf(c, t) then n else n + [t]
  }

  /** Every requested title lands on exactly one side: found, with its
      record, when it is on the shelf, and not found otherwise. */
  lemma {:induction false} SearchPartition(c: Catalogue, ts: seq<string>)
    ensures forall t :: t in FoundOf(c, ts) <==> t in ts && OnShelf(c, t)
    ensures forall t :: t in FoundOf(c, ts) ==> t in c && FoundOf(c, ts)[t] == c[t]
    ensures forall t :: t in NotFoundOf(c, ts) <==> t in ts && !OnShelf(c, t)
  {
    if ts != [] {
      var init := ts[..|ts| - 1];
      SearchPartition(c, init);
      assert ts == init + [ts[|ts| - 1]];
    }
  }

  /** The not-found list keeps request order and duplicates: searching a
      list in two halves gives the two not-found lists one after the other. */
  lemma {:induction false} NotFoundKeepsOrder(c: Catalogue, a: seq<string>, b: seq<string>)
    ensures NotFoundOf(c, a + b) == NotFoundOf(c, a) + NotFoundOf(c, b)
    decreases |b|
  {
    if b == [] {
      assert a + b == a;
    } else {
      var init := b[..|b| - 1];
      NotFoundKeepsOrder(c, a, init);
      assert (a + b)[..|a + b| - 1] == a + init;
    }
  }

  /** Found titles are counted once however often they are asked for, so
      the two counts can fall short of the list length. */
  lemma DuplicateRequestCountsOnce()
    ensures var ts := ["Dune", "Dune"];
      |FoundOf(InitialCatalogue(), ts)| == 1 && |NotFoundOf(InitialCatalogue(), ts)| == 0
  {
    var c := InitialCatalogue();
    assert OnShelf(c, "Dune");
    assert ["Dune", "Dune"][..1] == ["Dune"];
    assert FoundOf(c, ["Dune"]) == map["Dune" := c["Dune"]];
    assert FoundOf(c, ["Dune", "Dune"]) == map["Dune" := c["Dune"]];
  }

  // ---------------------------------------------------------------------
  // AGREE: borrowing a list
  // ---------------------------------------------------------------------

  /** The clerk's state while it works through an AGREE list: the
      catalogue, how many were lent, whether every title was, the report
      and the shortest loan so far. */
  datatype Lending = Lending(catalogue: Catalogue, lent: nat, tous: bool, rapport: string, dureeMin: int)

  /** One report entry: the title with its loan duration or with the mark
      that it could not be lent. */
  ghost predicate IsReportEntry(e: string, t: string) {
    e == t + " (non disponible)" || exists d :: IsInt32(d) && e == t + " (" + IntToString(d) + " jours)"
  }

  /** The report entry for `t`, decided on the catalogue as it stands
      when `t`'s turn comes. */
  function ReportEntry(c: Catalogue, t: string): (e: string)
    requires CatalogueValid(c)
    ensures IsReportEntry(e, t)
  {
    if OnShelf(c, t) then
      assert WellFormed(c[t]);
      t + " (" + IntToString(c[t].dureeEmpruntMax) + " jours)"
    else t + " (non disponible)"
  }

  /** One turn of the AGREE loop: lend a copy of `t` if there is one. */
  function LendOne(s: Lending, t: string): (r: Lending)
    requires CatalogueValid(s.catalogue)
    ensures CatalogueValid(r.catalogue) && r.catalogue.Keys == s.catalogue.Keys
    ensures r.rapport == s.rapport + ReportEntry(s.catalogue, t) + ";"
  {
    var e := ReportEntry(s.catalogue, t);
    if OnShelf(s.catalogue, t) then
      var b := s.catalogue[t];
      AvailableIsAvailableForOne(b);
      Lending(s.catalogue[t := Reduce(b, 1)], s.lent + 1, s.tous, s.rapport + e + ";", Min(s.dureeMin, b.dureeEmpruntMax))
    else
      Lending(s.catalogue, s.lent, false, s.rapport + e + ";", s.dureeMin)
  }

  lemma LendOneOnShelf(s: Lending, t: string)
    requires CatalogueValid(s.catalogue) && OnShelf(s.catalogue, t)
    ensures IsAvailableFor(s.catalogue[t], 1)
    ensures var d := s.catalogue[t].dureeEmpruntMax;
      LendOne(s, t) == Lending(s.catalogue[t := Reduce(s.catalogue[t], 1)], s.lent + 1, s.tous,
        s.rapport + (t + " (" + IntToString(d) + " jours)") + ";", Min(s.dureeMin, d))
  {
  }

  lemma LendOneMissing(s: Lending, t: string)
    requires CatalogueValid(s.catalogue) && !OnShelf(s.catalogue, t)
    ensures LendOne(s, t) == Lending(s.catalogue, s.lent, false, s.rapport + (t + " (non disponible)") + ";", s.dureeMin)
  {
  }

  /** The state after the first `|ts|` titles, starting from the catalogue
      `c`, no loans, an empty report and `Integer.MAX_VALUE`. */
  function LendAll(c: Catalogue, ts: seq<string>): (r: Lending)
    requires CatalogueValid(c)
    ensures CatalogueValid(r.catalogue) && r.catalogue.Keys == c.Keys
    ensures forall t :: t in c ==> r.catalogue[t].dureeEmpruntMax == c[t].dureeEmpruntMax && r.catalogue[t].titre == c[t].titre
  {
    if ts == [] then Lending(c, 0, true, "", Int32Max)
    else LendOne(LendAll(c, ts[..|ts| - 1]), ts[|ts| - 1])
  }

  /** One more title: the step the loop over the list takes. */
  lemma LendAllSnoc(c: Catalogue, ts: seq<string>, i: nat)
    requires CatalogueValid(c) && i < |ts|
    ensures LendAll(c, ts[..i + 1]) == LendOne(LendAll(c, ts[..i]), ts[i])
  {
    assert ts[..i + 1][..i] == ts[..i];
  }

  /** The reply content for a finished AGREE list. */
  function AgreeReply(s: Lending): string {
    if s.tous then "tous-empruntes:" + IntToString(s.dureeMin) else "certains-empruntes:" + s.rapport
  }

  /** Copies of a title asked for, counting duplicates. */
  function Asked(ts: seq<string>, t: string): nat {
    multiset(ts)[t]
  }

  /** Each occurrence of a title takes one copy while there is one: the
      stock of every title drops by the number of times it was asked for,
      down to zero and no further, and nothing else changes. */
  lemma {:induction false} LendAllStock(c: Catalogue, ts: seq<string>)
    requires CatalogueValid(c)
    ensures forall t :: t in c ==>
      LendAll(c, ts).catalogue[t].quantite == (if Asked(ts, t) <= c[t].quantite then c[t].quantite - Asked(ts, t) else 0)
    ensures forall t :: t in c ==> LendAll(c, ts).catalogue[t].auteur == c[t].auteur
  {
    if ts != [] {
      var init := ts[..|ts| - 1];
      var last := ts[|ts| - 1];
      LendAllStock(c, init);
      assert ts == init + [last];
      assert multiset(ts) == multiset(init) + multiset{last};
    }
  }

  /** Every title was lent exactly when the loan count is the list length;
      the count never exceeds it. */
  lemma {:induction false} LendAllCounts(c: Catalogue, ts: seq<string>)
    requires CatalogueValid(c)
    ensures LendAll(c, ts).lent <= |ts|
    ensures LendAll(c, ts).tous <==> LendAll(c, ts).lent == |ts|
  {
    if ts != [] {
      LendAllCounts(c, ts[..|ts| - 1]);
    }
  }

  /** The duration reported never exceeds `Integer.MAX_VALUE`, which is
      what an empty list reports. */
  lemma {:induction false} LendAllShortestLoanCap(c: Catalogue, ts: seq<string>)
    requires CatalogueValid(c)
    ensures LendAll(c, ts).dureeMin <= Int32Max
    ensures ts == [] ==> LendAll(c, ts).dureeMin == Int32Max
  {
    if ts != [] {
      LendAllShortestLoanCap(c, ts[..|ts| - 1]);
    }
  }

  /** When every title was lent, the duration reported is no longer than
      any of their loans. */
  lemma {:induction false} LendAllShortestLoanBound(c: Catalogue, ts: seq<string>)
    requires CatalogueValid(c)
    ensures LendAll(c, ts).tous ==> forall i :: 0 <= i < |ts| ==> ts[i] in c && LendAll(c, ts).dureeMin <= c[ts[i]].dureeEmpruntMax
  {
    if ts != [] {
      var init := ts[..|ts| - 1];
      var t := ts[|ts| - 1];
      var s := LendAll(c, init);
      var r := LendAll(c, ts);
      if r.tous {
        assert OnShelf(s.catalogue, t) && s.tous;
        LendAllShortestLoanBound(c, init);
        assert r.dureeMin == Min(s.dureeMin, c[t].dureeEmpruntMax);
        forall i | 0 <= i < |ts|
          ensures ts[i] in c && r.dureeMin <= c[ts[i]].dureeEmpruntMax
        {
          if i < |init| {
            assert ts[i] == init[i];
          }
        }
      }
    }
  }

  /** When every title of a non-empty list was lent, the reported duration
      is the loan of one of them: the shortest. */
  lemma {:induction false} LendAllShortestLoanAttained(c: Catalogue, ts: seq<string>)
    requires CatalogueValid(c)
    ensures LendAll(c, ts).tous && ts != [] ==> exists i :: 0 <= i < |ts| && ts[i] in c && LendAll(c, ts).dureeMin == c[ts[i]].dureeEmpruntMax
  {
    if ts != [] {
      var init := ts[..|ts| - 1];
      var t := ts[|ts| - 1];
      var s := LendAll(c, init);
      var r := LendAll(c, ts);
      assert r == LendOne(s, t);
      if r.tous {
        assert OnShelf(s.catalogue, t) && s.tous;
        assert r.dureeMin == Min(s.dureeMin, c[t].dureeEmpruntMax);
        if r.dureeMin == c[t].dureeEmpruntMax {
          assert ts[|ts| - 1] == t;
        } else {
          LendAllShortestLoanAttained(c, init);
          LendAllShortestLoanCap(c, init);
          assert WellFormed(c[t]);
          assert s.dureeMin < Int32Max;
          var j :| 0 <= j < |init| && init[j] in c && s.dureeMin == c[init[j]].dureeEmpruntMax;
          assert init[j] == ts[j];
        }
      }
    }
  }

  /** The report entry of each title of an AGREE list, one per title. */
  function ReportEntries(c: Catalogue, ts: seq<string>): (r: seq<string>)
    requires CatalogueValid(c)
    ensures |r| == |ts|
    ensures forall i :: 0 <= i < |ts| ==> IsReportEntry(r[i], ts[i])
  {
    if ts == [] then []
    else
      var init := ts[..|ts| - 1];
      var r := ReportEntries(c, init) + [ReportEntry(LendAll(c, init).catalogue, ts[|ts| - 1])];
      assert forall i :: 0 <= i < |init| ==> ts[i] == init[i];
      r
  }

  /** The report is the entries of the titles, each followed by `;`, in
      request order. */
  lemma {:induction false} LendAllReport(c: Catalogue, ts: seq<string>)
    requires CatalogueValid(c)
    ensures LendAll(c, ts).rapport == Terminated(ReportEntries(c, ts), ';')
  {
    if ts != [] {
      var init := ts[..|ts| - 1];
      LendAllReport(c, init);
      var e := ReportEntry(LendAll(c, init).catalogue, ts[|ts| - 1]);
      TerminatedSnoc(ReportEntries(c, init), e, ';');
    }
  }

  /** The loop of the AGREE branch, over the titles in list order: the
      records it lends from, the loan count, the all-lent flag, the report
      `StringBuilder` and the running minimum. */
  method LendList(c: Catalogue, titres: seq<string>) returns (state: Lending)
    requires CatalogueValid(c)
    ensures state == LendAll(c, titres)
  {
    state := Lending(c, 0, true, "", Int32Max);
    var i := 0;
    while i < |titres|
      invariant 0 <= i <= |titres|
      invariant state == LendAll(c, titres[..i])
    {
      var titre := titres[i];
      LendAllSnoc(c, titres, i);
      var cat := state.catalogue;
      if titre in cat && IsAvailable(cat[titre]) {
        LendOneOnShelf(state, titre);
        var livre := cat[titre];
        state := Lending(cat[titre := Reduce(livre, 1)], state.lent + 1, state.tous,
          state.rapport + (titre + " (" + IntToString(livre.dureeEmpruntMax) + " jours)") + ";", Min(state.dureeMin, livre.dureeEmpruntMax));
      } else {
        LendOneMissing(state, titre);
        state := Lending(cat, state.lent, false, state.rapport + (titre + " (non disponible)") + ";", state.dureeMin);
      }
      i := i + 1;
    }
    assert titres[..i] == titres;
  }

  /** `";".split(";")` is empty, so an AGREE of just a separator lends
      nothing and answers with the initial `Integer.MAX_VALUE`. */
  lemma SeparatorOnlyLendsNothing(c: Catalogue)
    requires CatalogueValid(c)
    ensures Split(";", ';') == []
    ensures var r := LendAll(c, Split(";", ';'));
      r.tous && r.catalogue == c && AgreeReply(r) == Tagged("tous-empruntes", Int32Max)
  {
    assert Pieces(";", ';') == ["", ""] by {
      assert ";"[1..] == "";
    }
  }

  /** `"".split(";")` is `[""]`: an empty AGREE asks for the title `""`. */
  lemma EmptyAgreeAsksForEmptyTitle(c: Catalogue)
    requires CatalogueValid(c) && "" !in c
    ensures AgreeReply(LendAll(c, Split("", ';'))) == "certains-empruntes: (non disponible);"
  {
    assert Split("", ';') == [""];
    assert [""][..0] == [];
  }

  // ---------------------------------------------------------------------
  // The agent
  // ---------------------------------------------------------------------

  /** The verdict on a REQUEST, in a new message to the requester on
      `resultat-recherche`: INFORM `livre-disponible` exactly when the title
      is on the shelf, FAILURE `livre-non-disponible` otherwise. */
  function SearchVerdict(c: Catalogue, name: AgentId, msg: Message): (r: Message)
    ensures r.sender == name && r.receivers == [msg.sender] && r.conversationId == "resultat-recherche"
    ensures r.performative == Inform <==> OnShelf(c, ContentText(msg.content))
    ensures r.performative != Inform ==> r.performative == Failure
    ensures r.content == Text(if OnShelf(c, ContentText(msg.content)) then "livre-disponible" else "livre-non-disponible")
  {
    if OnShelf(c, ContentText(msg.content)) then NewMessage(Inform, name, msg.sender, Text("livre-disponible"), "resultat-recherche")
    else NewMessage(Failure, name, msg.sender, Text("livre-non-disponible"), "resultat-recherche")
  }

  class Bibliothecaire {
    const name: AgentId
    var catalogue: Catalogue
    var demandes: nat
    var emprunts: nat

    predicate Valid()
      reads this
    {
      CatalogueValid(catalogue)
    }

    /** `setup`: the initial catalogue and both counters at zero. */
    constructor (name: AgentId)
      ensures this.name == name && catalogue == InitialCatalogue() && demandes == 0 && emprunts == 0
      ensures Valid()
    {
      this.name := name;
      catalogue := InitialCatalogue();
      demandes := 0;
      emprunts := 0;
    }

    /** REQUEST: "searching" on `recherche-livre`, then the verdict on
      `resultat-recherche` in a new message to the requester; only the
      request counter moves. */
    method HandleRequest(msg: Message, token: string) returns (out: seq<Message>)
      requires Valid()
      modifies this
      ensures Valid() && catalogue == old(catalogue) && emprunts == old(emprunts) && demandes == old(demandes) + 1
      ensures |out| == 2
      ensures out[0] == CreateReply(msg, name, Inform, Text("recherche-en-cours"), token).(conversationId := "recherche-livre")
      ensures out[1] == SearchVerdict(catalogue, name, msg)
    {
      var titre := ContentText(msg.content);
      demandes := demandes + 1;
      var searching := CreateReply(msg, name, Inform, Text("recherche-en-cours"), token).(conversationId := "recherche-livre");
      var verdict;
      if titre in catalogue && IsAvailable(catalogue[titre]) {
        verdict := NewMessage(Inform, name, msg.sender, Text("livre-disponible"), "resultat-recherche");
      } else {
        verdict := NewMessage(Failure, name, msg.sender, Text("livre-non-disponible"), "resultat-recherche");
      }
      out := [searching, verdict];
    }

    /** CFP: a content that does not parse is dropped without a reply and
      without counting; otherwise "searching" on `recherche-emprunt`, then
      the offer or the refusal on the request's own conversation. */
    method HandleCfp(msg: Message, token: string) returns (out: seq<Message>)
      requires Valid()
      modifies this
      ensures Valid() && catalogue == old(catalogue) && emprunts == old(emprunts)
      ensures var req := ParseCfp(ContentText(msg.content));
        if req.None? then out == [] && demandes == old(demandes)
        else demandes == old(demandes) + 1 && out == [
          CreateReply(msg, name, Inform, Text("recherche-en-cours"), token).(conversationId := "recherche-emprunt"),
          CreateReply(msg, name, LoanOffer(catalogue, req.value).performative, Text(LoanOffer(catalogue, req.value).content), token)]
    {
      var req := ParseCfp(ContentText(msg.content));
      if req.None? {
        return [];
      }
      demandes := demandes + 1;
      var searching := CreateReply(msg, name, Inform, Text("recherche-en-cours"), token).(conversationId := "recherche-emprunt");
      var titre := req.value.titre;
      var answer;
      if titre in catalogue && IsAvailableFor(catalogue[titre], req.value.nombre) {
        answer := CreateReply(msg, name, Propose, Text(Tagged("livre-disponible", catalogue[titre].dureeEmpruntMax)), token);
      } else if titre !in catalogue {
        answer := CreateReply(msg, name, Refuse, Text("livre-non-trouve"), token);
      } else {
        answer := CreateReply(msg, name, Refuse, Text(Tagged("exemplaires-insuffisants", catalogue[titre].quantite)), token);
      }
      out := [searching, answer];
    }

    /** ACCEPT_PROPOSAL: the availability is checked again on the current
      catalogue; a loan takes exactly the copies asked for and counts once,
      a failed check changes nothing. */
    method HandleAccept(msg: Message, token: string) returns (out: seq<Message>)
      requires Valid()
      modifies this
      ensures Valid() && demandes == old(demandes)
      ensures var req := ParseAccept(ContentText(msg.content));
        (req.None? ==> out == [] && catalogue == old(catalogue) && emprunts == old(emprunts))
        && (req.Some? ==>
          && catalogue == AfterLoan(old(catalogue), req.value)
          && (catalogue != old(catalogue) ==>
                emprunts == old(emprunts) + 1
                && out == [CreateReply(msg, name, Inform, Text(Tagged("emprunt-confirme", catalogue[req.value.titre].dureeEmpruntMax)), token)])
          && (catalogue == old(catalogue) ==>
                emprunts == old(emprunts)
                && out == [CreateReply(msg, name, Failure, Text("emprunt-impossible"), token)]))
    {
      var req := ParseAccept(ContentText(msg.content));
      if req.None? {
        return [];
      }
      var titre := req.value.titre;
      var n := req.value.nombre;
      if titre in catalogue && IsAvailableFor(catalogue[titre], n) {
        catalogue := catalogue[titre := Reduce(catalogue[titre], n)];
        emprunts := emprunts + 1;
        out := [CreateReply(msg, name, Inform, Text(Tagged("emprunt-confirme", catalogue[titre].dureeEmpruntMax)), token)];
      } else {
        out := [CreateReply(msg, name, Failure, Text("emprunt-impossible"), token)];
      }
    }

    /** CONFIRM: "searching" on the request's conversation, then the search
      result built title by title into a fresh `ResultatRecherche`. A
      content that is not a list is dropped. Nothing of the clerk changes. */
    method HandleConfirm(msg: Message, token: string) returns (out: seq<Message>)
      ensures !msg.content.ListeObject? ==> out == []
      ensures msg.content.ListeObject? ==> out == [
        CreateReply(msg, name, Inform, Text("recherche-en-cours"), token),
        CreateReply(msg, name, Inform, ResultatObject(FoundOf(catalogue, msg.content.titres), NotFoundOf(catalogue, msg.content.titres)), token)]
    {
      if !msg.content.ListeObject? {
        return [];
      }
      var titres := msg.content.titres;
      var searching := CreateReply(msg, name, Inform, Text("recherche-en-cours"), token);
      var resultat := new ResultatRecherche();
      var i := 0;
      while i < |titres|
        invariant 0 <= i <= |titres|
        invariant resultat.livresTrouves == FoundOf(catalogue, titres[..i])
        invariant resultat.livresNonTrouves == NotFoundOf(catalogue, titres[..i])
      {
        var titre := titres[i];
        assert titres[..i + 1][..i] == titres[..i];
        if titre in catalogue && IsAvailable(catalogue[titre]) {
          resultat.AjouterLivreTrouve(titre, catalogue[titre]);
        } else {
          resultat.AjouterLivreNonTrouve(titre);
        }
        i := i + 1;
      }
      assert titres[..i] == titres;
      out := [searching, CreateReply(msg, name, Inform, resultat.Snapshot(), token)];
    }

    /** AGREE: each `;`-separated title, duplicates included, is lent one
      copy if one is on the shelf; the reply says whether all were. */
    method HandleAgree(msg: Message, token: string) returns (out: seq<Message>)
      requires Valid()
      modifies this
      ensures Valid() && demandes == old(demandes)
      ensures var r := LendAll(old(catalogue), Split(ContentText(msg.content), ';'));
        catalogue == r.catalogue && emprunts == old(emprunts) + r.lent
        && out == [CreateReply(msg, name, Inform, Text(AgreeReply(r)), token)]
    {
      var titres := Split(ContentText(msg.content), ';');
      var lending := LendList(catalogue, titres);
      catalogue := lending.catalogue;
      emprunts := emprunts + lending.lent;
      var content := if lending.tous then "tous-empruntes:" + IntToString(lending.dureeMin) else "certains-empruntes:" + lending.rapport;
      out := [CreateReply(msg, name, Inform, Text(content), token)];
    }

    /** One run of the cyclic behaviour: the oldest handled message is taken
      from the mailbox and answered by the branch of its performative;
      with none, the behaviour blocks and nothing changes. */
    method Action(inbox: seq<Message>, token: string) returns (rest: seq<Message>, out: seq<Message>)
      requires Valid()
      modifies this
      ensures Valid()
      ensures rest == Receive(inbox, Handled).rest
      ensures Receive(inbox, Handled).msg.None? ==>
        out == [] && catalogue == old(catalogue) && demandes == old(demandes) && emprunts == old(emprunts)
      ensures Receive(inbox, Handled).msg.Some? ==>
        Receive(inbox, Handled).msg.value.performative in {Request, Cfp, AcceptProposal, Confirm, Agree}
      ensures var r := Receive(inbox, Handled);
        r.msg.Some? && r.msg.value.performative == Request ==>
          && catalogue == old(catalogue) && emprunts == old(emprunts) && demandes == old(demandes) + 1
          && out == [CreateReply(r.msg.value, name, Inform, Text("recherche-en-cours"), token).(conversationId := "recherche-livre"),
                     SearchVerdict(catalogue, name, r.msg.value)]
      ensures var r := Receive(inbox, Handled);
        r.msg.Some? && r.msg.value.performative == Cfp ==>
          var req := ParseCfp(ContentText(r.msg.value.content));
          && catalogue == old(catalogue) && emprunts == old(emprunts)
          && (req.None? ==> out == [] && demandes == old(demandes))
          && (req.Some? ==>
                && demandes == old(demandes) + 1
                && out == [
                  CreateReply(r.msg.value, name, Inform, Text("recherche-en-cours"), token).(conversationId := "recherche-emprunt"),
                  CreateReply(r.msg.value, name, LoanOffer(catalogue, req.value).performative, Text(LoanOffer(catalogue, req.value).content), token)])
      ensures var r := Receive(inbox, Handled);
        r.msg.Some? && r.msg.value.performative == AcceptProposal ==>
          var req := ParseAccept(ContentText(r.msg.value.content));
          && demandes == old(demandes)
          && (req.None? ==> out == [] && catalogue == old(catalogue) && emprunts == old(emprunts))
          && (req.Some? && AfterLoan(old(catalogue), req.value) != old(catalogue) ==>
                && catalogue == AfterLoan(old(catalogue), req.value) && emprunts == old(emprunts) + 1
                && out == [CreateReply(r.msg.value, name, Inform, Text(Tagged("emprunt-confirme", catalogue[req.value.titre].dureeEmpruntMax)), token)])
          && (req.Some? && AfterLoan(old(catalogue), req.value) == old(catalogue) ==>
                && catalogue == old(catalogue) && emprunts == old(emprunts)
                && out == [CreateReply(r.msg.value, name, Failure, Text("emprunt-impossible"), token)])
      ensures var r := Receive(inbox, Handled);
        r.msg.Some? && r.msg.value.performative == Confirm ==>
          var m := r.msg.value;
          && catalogue == old(catalogue) && demandes == old(demandes) && emprunts == old(emprunts)
          && (!m.content.ListeObject? ==> out == [])
          && (m.content.ListeObject? ==> out == [
                CreateReply(m, name, Inform, Text("recherche-en-cours"), token),
                CreateReply(m, name, Inform, ResultatObject(FoundOf(catalogue, m.content.titres), NotFoundOf(catalogue, m.content.titres)), token)])
      ensures var r := Receive(inbox, Handled);
        r.msg.Some? && r.msg.value.performative == Agree ==>
          var l := LendAll(old(catalogue), Split(ContentText(r.msg.value.content), ';'));
          && catalogue == l.catalogue && demandes == old(demandes) && emprunts == old(emprunts) + l.lent
          && out == [CreateReply(r.msg.value, name, Inform, Text(AgreeReply(l)), token)]
      ensures forall m :: m in out ==> m.sender == name
    {
      var r := Receive(inbox, Handled);
      rest := r.rest;
      out := [];
      if r.msg.Some? {
        var msg := r.msg.value;
        HandledPerformatives(msg);
        if msg.performative == Request {
          out := HandleRequest(msg, token);
        } else if msg.performative == Cfp {
          out := HandleCfp(msg, token);
        } else if msg.performative == AcceptProposal {
          out := HandleAccept(msg, token);
        } else if msg.performative == Confirm {
          out := HandleConfirm(msg, token);
        } else {
          out := HandleAgree(msg, token);
        }
      }
    }
  }

  lemma DuneHasOneCopy()
    ensures "Dune" in InitialCatalogue() && InitialCatalogue()["Dune"] == LibraryBook("Dune", "Frank Herbert", 1, 21)
  {
  }

  /** Two borrowers accept the last copy of "Dune" one after the other:
      the first is confirmed for 21 days and the second is refused. */
  method TwoAcceptancesForTheLastCopy() returns (first: seq<Message>, second: seq<Message>)
    ensures |first| == 1 && first[0].performative == Inform && first[0].content == Text(Tagged("emprunt-confirme", 21))
    ensures |second| == 1 && second[0].performative == Failure && second[0].content == Text("emprunt-impossible")
  {
    var clerk := new Bibliothecaire("bibliothecaire");
    DuneHasOneCopy();
    var req := LoanRequest("Dune", 1);
    assert IntToString(1) == "1";
    ParseLoanRequest("Dune", 1);
    assert "Dune" + ":" + IntToString(1) == "Dune:1";
    var accept := NewMessage(AcceptProposal, "emprunteur", "bibliothecaire", Text("Dune:1"), "emprunt-livre");
    assert ParseAccept(ContentText(accept.content)) == Some(req);
    ghost var c0 := clerk.catalogue;
    first := clerk.HandleAccept(accept, "r1");
    ghost var c1 := clerk.catalogue;
    assert c1 == AfterLoan(c0, req);
    assert c1["Dune"].quantite == 0 && c1["Dune"].dureeEmpruntMax == 21;
    assert c1 != c0;
    second := clerk.HandleAccept(accept, "r2");
    assert clerk.catalogue == AfterLoan(c1, req) == c1;
  }
}
