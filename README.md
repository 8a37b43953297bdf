# Book negotiation agents, modelled in Dafny

The system is a set of JADE agents that negotiate over books by exchanging
FIPA-ACL messages:

- a library clerk (`Bibliothecaire`) that answers availability requests,
  single-title loan negotiations (CFP, then ACCEPT_PROPOSAL), list searches
  (CONFIRM) and bulk loans (AGREE) from a catalogue of titles with a stock
  and a longest loan period;
- a bookseller (`Vendeur`) whose catalogue maps categories to lists of
  priced books, and which sells each listed copy once;
- a buyer (`Acheteur`) that sends one call for proposals to every seller,
  collects the proposals, accepts the cheapest and reads the confirmation;
- three library users run as step machines: `UserSimple` asks whether a
  title is on the shelf, `UserEmprunteur` borrows copies of one title, and
  `UserListe` searches a list of titles and borrows the ones found when
  enough of them are;
- the records the agents exchange: `Livre`, `ListeLivres` and
  `ResultatRecherche`.

Each agent is a class whose fields are the agent's state. Each behaviour
step is a method that takes the agent's mailbox as a sequence of messages.
It returns the mailbox left after its `receive` together with the messages
the step sends. A JADE `MessageTemplate` is a datatype with a `Matches`
predicate, and `receive(template)` takes the oldest matching message
(`Acl.Receive`). The directory lookups (`DFService.search`) become input
sequences of agent names. The fresh `reply-with` tokens JADE would
generate are parameters.

Two parts of the Java runtime are modelled, because the protocol depends
on them:

- `String.split` drops trailing empty pieces, so the `a;b;` that
  `UserListe` sends reads back as the titles `a` and `b`;
- `Integer.parseInt` accepts only 32-bit values, with an optional sign and
  ASCII digits (see "Left out" for other Unicode digits).

An exception that no handler catches ends the agent. It is modelled as a
`crashed` flag, after which nothing more is sent.

The clerk uses a library record class with a stock and a longest loan
period. That class is not part of this model. `LibraryRecords` reads its
members from their names and from the replies the clerk builds:
`estDisponible()` as "stock at least one", `estDisponible(n)` as "stock at
least n", and `reduireQuantite(n)` as "stock minus n".

Where the system's design description and its code differ, the model
follows the code, with one exception listed last:

- The borrowers call `Integer.parseInt` on a number they receive, with no
  handler around it. A malformed number therefore ends the agent rather
  than being dropped.
- The buyer treats any reply to its acceptance other than INFORM as a
  failed purchase, not only FAILURE.
- `UserListe` recognises the "search under way" notice by its content
  (`MatchContent`), not by its conversation id.
- The clerk admits a loan count below one: `Dune:0` is offered and
  confirmed without a copy leaving the shelf, and `Dune:-3` raises the
  stock (see Findings). The model writes both decisions out as read
  (`LoanOfferAsWritten`, `AfterLoanAsWritten`), but the clerk's handlers use
  the corrected guard, one to the stock, as the design requires.

## Model

| member | source | states |
|---|---|---|
| `Acl.CreateReply` | src/agents/Bibliothecaire.java:156 | the reply goes to the original sender on the same conversation, answers the original's reply-with token and carries the given performative, content and fresh token |
| `Acl.FirstMatch` | src/agents/Bibliothecaire.java:134 | the position found holds a matching message and no earlier message matches; no position means no message matches |
| `Acl.Receive` | src/agents/Bibliothecaire.java:134 | nothing is taken exactly when no message matches; a message taken matches and the mailbox left is the old one minus that one message, as multisets |
| `Acl.ReceiveTakesOldestMatch` | src/agents/Acheteur.java:129 | `receive` takes the oldest matching message and leaves every other message in order |
| `Acl.ReceiveHead` | src/agents/UserEmprunteur.java:148 | a mailbox whose first message matches gives up that message and keeps the rest |
| `Acl.ReceiveFilter` | src/agents/Acheteur.java:128-153 | taking a message removes the first of the matching messages and does not disturb the messages that do not match |
| `Acl.ReplyMatchesRequest` | src/agents/Acheteur.java:119-122 | a reply built with createReply matches a template on the request's conversation id and reply-with token |
| `JavaText.Wrap32` | src/agents/Bibliothecaire.java:278 | Java `int` arithmetic: the result is a 32-bit value congruent to the exact one, and equal to it when that fits |
| `JavaText.IntToString` | src/agents/Bibliothecaire.java:239 | the decimal text of an `int` is non-empty and made of digits and a minus sign only |
| `JavaText.IntToStringAvoids` | src/agents/Bibliothecaire.java:239 | the decimal text of a number never contains a separator that is neither a digit nor a minus sign |
| `JavaText.ParseInt` | src/agents/Bibliothecaire.java:202 | `Integer.parseInt` succeeds only on non-empty text, with a 32-bit value; only ASCII digits are read |
| `JavaText.ParseIntOfIntToString` | src/agents/Bibliothecaire.java:202 | parsing the decimal text of any 32-bit value gives that value back |
| `JavaText.ParseIntRejectsNonDigit` | src/agents/Bibliothecaire.java:202 | text with a non-digit after its first character does not parse |
| `JavaText.Pieces` | src/agents/Bibliothecaire.java:367 | splitting on every separator gives at least one piece and no piece holds the separator |
| `JavaText.JoinPieces` | src/agents/Bibliothecaire.java:367 | joining the pieces with the separator gives the original text back |
| `JavaText.DropTrailingEmpty` | src/agents/Bibliothecaire.java:367 | the result is a prefix of the pieces ending in a non-empty piece, and everything dropped is empty |
| `JavaText.Split` | src/agents/Bibliothecaire.java:367 | `String.split`: no piece holds the separator, and text without it splits into itself alone |
| `JavaText.SplitTwo` | src/agents/Bibliothecaire.java:200 | `a:b` with a non-empty `b` and no separator in either part splits into exactly `a` and `b` |
| `JavaText.SplitOfTerminated` | src/agents/UserListe.java:204-212 | items each followed by the separator split back into the items with trailing empty ones dropped, and an empty list into one empty piece |
| `JavaText.SplitHead` | src/agents/Bibliothecaire.java:200 | the first piece of text that holds the separator is followed by the separator in that text |
| `JavaText.SplitKeepsSecond` | src/agents/UserListe.java:268-290 | `a:b` with a non-empty `b` that does not end in the separator has a second piece |
| `LibraryRecords.ReduceAsWritten` | src/agents/Bibliothecaire.java:278 | `reduireQuantite(n)` as written: stock minus n whenever that fits in an `int`, and the other fields unchanged |
| `LibraryRecords.NegativeCountRaisesStock` | src/agents/Bibliothecaire.java:276-278 | a count of -3 passes `estDisponible(n)` and raises a stock of 1 to 4 |
| `LibraryRecords.MinimumCountWrapsStockNegative` | src/agents/Bibliothecaire.java:276-278 | a count of `Integer.MIN_VALUE` passes the check, and the `int` subtraction leaves a negative stock |
| `LibraryRecords.Reduce` | src/agents/Bibliothecaire.java:276-278 | after a successful check the stock drops by exactly n, stays within `0..Integer.MAX_VALUE`, and title, author and loan period are kept |
| `LibraryRecords.AvailabilityAgreesOnPositiveCounts` | src/agents/Bibliothecaire.java:237 | for counts of at least one, the corrected check and reduction agree with the ones as written |
| `LibraryRecords.AvailableIsAvailableForOne` | src/agents/Bibliothecaire.java:175 | `estDisponible()` is `estDisponible(1)` |
| `LibraryRecords.SuccessiveLoansStayWithinStock` | src/agents/Bibliothecaire.java:276-278 | two successive loans of one title never exceed its stock, and the last copy is lent once |
| `Library.InitialCatalogue` | src/agents/Bibliothecaire.java:72-83 | the ten opening records are well formed, keyed by their own title, and each is on the shelf |
| `Library.HandledPerformatives` | src/agents/Bibliothecaire.java:123-134 | the clerk's template accepts exactly REQUEST, CFP, ACCEPT_PROPOSAL, CONFIRM and AGREE |
| `Library.TitleAndCount` | src/agents/Bibliothecaire.java:195-203 | a `title:count` content is read only when it holds a `:`; the title read has no `:` and, followed by `:`, begins the content; the count is an `int` |
| `Library.ParseCfp` | src/agents/Bibliothecaire.java:195-203 | a CFP content without `:` asks for one copy of the whole content; with `:` it is read as `title:count` |
| `Library.ParseAccept` | src/agents/Bibliothecaire.java:267-269 | an acceptance content needs a `:`, and what it reads is what the CFP branch reads from the same content |
| `Library.ParseLoanRequest` | src/agents/Bibliothecaire.java:195-203 | `title:count` built from a title without `:` and an `int` count reads back as that title and count in both branches |
| `Library.TaggedRoundTrip` | src/agents/Bibliothecaire.java:239 | a tagged reply `tag:<n>` splits into the tag and a piece that parses back to n |
| `Library.SecondField` | src/agents/UserEmprunteur.java:153-154 | the number read from a reply's second field is an `int` |
| `Library.SecondFieldOfTagged` | src/agents/UserEmprunteur.java:153-154 | the borrowers read back the number of every tagged reply the clerk builds |
| `Library.LoanOffer` | src/agents/Bibliothecaire.java:227-257 | PROPOSE `livre-disponible:<longest loan>` exactly when the title is present and the count is between one and its stock; otherwise REFUSE, with `livre-non-trouve` for an absent title and `exemplaires-insuffisants:<stock>` for a short one |
| `Library.ShortRefusalReportsSmallerStock` | src/agents/Bibliothecaire.java:250-251 | a refusal for a title that is present and a real count reports a stock smaller than the count |
| `Library.AfterLoan` | src/agents/Bibliothecaire.java:274-299 | the acceptance changes only the accepted title, by exactly the count, when the corrected re-check passes, and nothing otherwise |
| `Library.LoanOfferAsWritten` | src/agents/Bibliothecaire.java:237-257 | the CFP decision with `estDisponible(n)` read as stock at least n; it is the corrected decision on every count of at least one |
| `Library.AfterLoanAsWritten` | src/agents/Bibliothecaire.java:274-278 | the acceptance with the check as read and the `int` subtraction; it changes only the accepted title, and is the corrected one on every count of at least one |
| `Library.CountBelowOneIsLentAsWritten` | src/agents/Bibliothecaire.java:237-285 | as written, `Dune:0` is offered for 21 days and lent with no copy taken, and `Dune:-3` raises the stock to 4; the corrected decisions refuse both |
| `Library.OfferedLoanTakesACopy` | src/agents/Bibliothecaire.java:276-278 | with the corrected guard, an offered loan is for at least one copy and lowers the title's stock |
| `Library.OfferIsHonoured` | src/agents/Bibliothecaire.java:264-299 | on the same catalogue an acceptance lends exactly when the CFP would have offered |
| `Library.LastCopyLentOnce` | src/agents/Bibliothecaire.java:276-278 | after the last copy of a title is lent, a second acceptance for it changes nothing |
| `Library.SearchPartition` | src/agents/Bibliothecaire.java:328-340 | every title asked for is found exactly when it is on the shelf, with its catalogue record, and is otherwise listed as not found |
| `Library.NotFoundKeepsOrder` | src/agents/Bibliothecaire.java:328-340 | the titles not found keep the order of the request |
| `Library.DuplicateRequestCountsOnce` | src/agents/Bibliothecaire.java:328-340 | "Dune" asked for twice is found once, so found plus not found is fewer than the titles asked for |
| `Library.ReportEntry` | src/agents/Bibliothecaire.java:379-391 | each report entry is `t (d jours)` or `t (non disponible)` for its own title |
| `Library.LendOne` | src/agents/Bibliothecaire.java:379-391 | one turn of the AGREE loop keeps the catalogue's titles and appends the title's entry and `;` to the report |
| `Library.LendOneOnShelf` | src/agents/Bibliothecaire.java:379-386 | a title on the shelf loses one copy, is counted as lent and lowers the shortest loan to its own period |
| `Library.LendOneMissing` | src/agents/Bibliothecaire.java:387-391 | a title not on the shelf changes nothing but the report and marks the loan as partial |
| `Library.LendAll` | src/agents/Bibliothecaire.java:373-394 | the whole loop keeps every title, author and loan period |
| `Library.LendAllStock` | src/agents/Bibliothecaire.java:373-394 | each title loses one copy per time it is listed, up to its stock, so a stock never goes negative; duplicates included |
| `Library.LendAllCounts` | src/agents/Bibliothecaire.java:373-394 | no more copies are lent than titles listed, and all were lent exactly when every title was |
| `Library.LendAllShortestLoanCap` | src/agents/Bibliothecaire.java:375 | the shortest loan starts at `Integer.MAX_VALUE` and never exceeds it |
| `Library.LendAllShortestLoanBound` | src/agents/Bibliothecaire.java:383 | when all were lent, the reported period is at most every listed title's period |
| `Library.LendAllShortestLoanAttained` | src/agents/Bibliothecaire.java:383 | when all of a non-empty list were lent, the reported period is some listed title's period |
| `Library.ReportEntries` | src/agents/Bibliothecaire.java:379-391 | one report entry per listed title, in order |
| `Library.LendAllReport` | src/agents/Bibliothecaire.java:379-391 | the report is the entries, each followed by `;`, in the order of the list |
| `Library.LendList` | src/agents/Bibliothecaire.java:373-394 | the AGREE loop computes what the step-by-step definition does |
| `Library.SeparatorOnlyLendsNothing` | src/agents/Bibliothecaire.java:367 | the content `;` splits into no titles, lends nothing and answers `tous-empruntes:2147483647` |
| `Library.EmptyAgreeAsksForEmptyTitle` | src/agents/Bibliothecaire.java:367 | an empty content splits into one empty title, which is reported as not available |
| `Library.SearchVerdict` | src/agents/Bibliothecaire.java:171-187 | the verdict goes to the requester on `resultat-recherche`: INFORM `livre-disponible` exactly when the title is on the shelf, FAILURE `livre-non-disponible` otherwise |
| `Library.Bibliothecaire.HandleRequest` | src/agents/Bibliothecaire.java:139-191 | INFORM `recherche-en-cours` on `recherche-livre`, then INFORM `livre-disponible` on `resultat-recherche` exactly when the title is on the shelf, FAILURE `livre-non-disponible` otherwise; the catalogue is unchanged and the request counter rises by one |
| `Library.Bibliothecaire.HandleCfp` | src/agents/Bibliothecaire.java:192-263 | an unreadable count sends nothing and counts nothing; otherwise one request is counted, and the clerk sends the search notice on `recherche-emprunt` and then the loan offer's reply; the catalogue is unchanged |
| `Library.Bibliothecaire.HandleAccept` | src/agents/Bibliothecaire.java:264-303 | the catalogue becomes the one after the re-checked loan; a loan raises the loan counter by one and confirms `emprunt-confirme:<longest loan>`, otherwise FAILURE `emprunt-impossible` with catalogue and counters unchanged |
| `Library.Bibliothecaire.HandleConfirm` | src/agents/Bibliothecaire.java:304-361 | a list content gets the search notice and the found/not-found partition; any other content throws inside the handler and sends nothing |
| `Library.Bibliothecaire.HandleAgree` | src/agents/Bibliothecaire.java:362-416 | the catalogue becomes the bulk loan's, the loan counter rises by the copies lent, and the reply carries `tous-empruntes:<d>` or the per-title report |
| `Library.Bibliothecaire.Action` | src/agents/Bibliothecaire.java:120-420 | the clerk takes the oldest message it handles, changes nothing when there is none, and otherwise answers it by its performative's branch: the replies, the catalogue and both counters are those of the REQUEST, CFP, ACCEPT_PROPOSAL, CONFIRM or AGREE handler |
| `Library.DuneHasOneCopy` | src/agents/Bibliothecaire.java:77 | the opening catalogue holds one copy of "Dune", lent for 21 days at most |
| `Library.TwoAcceptancesForTheLastCopy` | src/agents/Bibliothecaire.java:264-299 | of two acceptances for the one copy of "Dune", the first is confirmed for 21 days and the second fails |
| `LivreModel.Livre.constructor` | src/model/Livre.java:10-14 | title, author and price are the constructor's arguments |
| `LivreModel.Livre.SetPrix` | src/model/Livre.java:28-30 | the price becomes the argument; title and author are constants no method can change |
| `LivreModel.Livre.Data` | src/model/Livre.java:16-26 | what the getters return, as the value a message carries |
| `LivreModel.FractionText` | src/model/Livre.java:32-35 | the fraction part of a price is one or two digits |
| `LivreModel.Livre.ToString` | src/model/Livre.java:32-35 | the book's text is that of its current title, author and price |
| `LivreModel.BookToString` | src/model/Livre.java:32-35 | the text starts with the labelled title and author and the price label, and ends with `]` |
| `LivreModel.PriceToString` | src/model/Livre.java:34 | the price's text holds a dot and starts with a minus sign exactly for a negative price; its inverse is `ParsePrice` (see `ParsePriceOfPriceToString`) |
| `LivreModel.UnsignedPriceText` | src/model/Livre.java:34 | the text of a price that is not negative starts with a digit and holds the dot |
| `LivreModel.DifferentPricesPrintDifferently` | src/model/Livre.java:32-35 | two books with the same title and author but different prices print differently |
| `LivreModel.FractionValue` | src/model/Livre.java:34 | the inverse of `FractionText` used by the round trip: one or two fraction digits stand for fewer than 100 cents, that is less than one unit |
| `LivreModel.ParsePrice` | src/model/Livre.java:34 | the inverse of `PriceToString` used by the round trip (the source never reads a price back): text with a leading minus reads as a price that is not positive |
| `LivreModel.FractionRoundTrip` | src/model/Livre.java:32-35 | the fraction digits read back as the cents they name |
| `LivreModel.UnsignedPriceRoundTrip` | src/model/Livre.java:32-35 | the rendering of a non-negative price reads back as that price |
| `LivreModel.ParsePriceOfPriceToString` | src/model/Livre.java:32-35 | the price `toString` shows reads back as the price, for every price in cents |
| `ListeLivresModel.JoinCommaFront` | src/model/ListeLivres.java:34-45 | joining with `, ` puts the separator between titles only, never after the last |
| `ListeLivresModel.ListeLivres.constructor` | src/model/ListeLivres.java:14-16 | a new list is empty |
| `ListeLivresModel.ListeLivres.FromTitres` | src/model/ListeLivres.java:18-20 | the list holds the given titles |
| `ListeLivresModel.ListeLivres.AjouterLivre` | src/model/ListeLivres.java:22-24 | the title is appended and the earlier titles are kept, in order |
| `ListeLivresModel.ListeLivres.NombreLivres` | src/model/ListeLivres.java:30-32 | the count is the number of titles |
| `ListeLivresModel.ListeLivres.ToString` | src/model/ListeLivres.java:34-45 | `Liste de livres [` followed by the titles joined by `, ` and `]` |
| `ResultatRechercheModel.EnumeratingStep` | src/model/ResultatRecherche.java:54-59 | each turn over the found map visits a key not yet visited, so the turns enumerate the keys once each |
| `ResultatRechercheModel.EnumeratingDone` | src/model/ResultatRecherche.java:54-59 | once every key is visited, the order is an enumeration of the map's keys |
| `ResultatRechercheModel.ShowAll` | src/model/ResultatRecherche.java:54-59 | one rendered line per visited key, showing that key's book |
| `ResultatRechercheModel.EnumerationOfEmpty` | src/model/ResultatRecherche.java:53-59 | an empty map is enumerated by the empty order |
| `ResultatRechercheModel.ResultatRecherche.constructor` | src/model/ResultatRecherche.java:17-20 | a new result has no found and no missing titles |
| `ResultatRechercheModel.ResultatRecherche.AjouterLivreTrouve` | src/model/ResultatRecherche.java:22-24 | the title maps to the book, replacing an earlier entry, and the missing titles are kept |
| `ResultatRechercheModel.ResultatRecherche.AjouterLivreNonTrouve` | src/model/ResultatRecherche.java:26-28 | the title is appended to the missing titles, duplicates kept, and the found map is kept |
| `ResultatRechercheModel.ResultatRecherche.NombreLivresTrouves` | src/model/ResultatRecherche.java:38-40 | the found count is the number of distinct found titles |
| `ResultatRechercheModel.ResultatRecherche.NombreLivresNonTrouves` | src/model/ResultatRecherche.java:42-44 | the missing count is the length of the missing list |
| `ResultatRechercheModel.ResultatRecherche.TousLesTitresTrouves` | src/model/ResultatRecherche.java:46-48 | every title was found exactly when nothing is missing |
| `ResultatRechercheModel.ResultatRecherche.Snapshot` | src/model/ResultatRecherche.java:12-15 | the serialized result carries the found map and the missing list |
| `ResultatRechercheModel.ResultatRecherche.ToString` | src/model/ResultatRecherche.java:50-69 | the text is empty exactly when both parts are, and is the two sections in some enumeration of the found map |
| `ResultatRechercheModel.LinesOfShowAllSnoc` | src/model/ResultatRecherche.java:56-58 | rendering one more key appends exactly its ` - <book>` line |
| `ResultatRechercheModel.RenderFound` | src/model/ResultatRecherche.java:54-59 | the found section: omitted when the map is empty, else its count and one line per key in an enumeration of the map |
| `ResultatRechercheModel.RenderNotFound` | src/model/ResultatRecherche.java:61-66 | the missing section: omitted when empty, else its count and one line per title in order |
| `Seller.EqualsIgnoreCase` | src/agents/Vendeur.java:168 | `equalsIgnoreCase`: equal lengths and equal characters after ASCII case folding; its properties are `EqualsIgnoreCaseEquivalence` |
| `Seller.LowerAscii` | src/agents/Vendeur.java:167 | case folding maps capitals to lower case and leaves every other character alone |
| `Seller.EqualsIgnoreCaseEquivalence` | src/agents/Vendeur.java:167 | matching ignoring case is reflexive, symmetric and transitive |
| `Seller.CaseIsIgnored` | src/agents/Vendeur.java:167 | "dune" matches "DUNE" and "Dune" does not match "Dunes" |
| `Seller.Titles` | src/agents/Vendeur.java:68-85 | the titles of a shelf, position by position |
| `Seller.Vendeur.constructor` | src/agents/Vendeur.java:68-85 | the opening catalogue: three categories with their titles and prices |
| `Seller.Vendeur.RechercherLivre` | src/agents/Vendeur.java:164-174 | no book exactly when no title in any category matches ignoring case; otherwise the first match of its category |
| `Seller.Vendeur.RetirerLivreDuCatalogue` | src/agents/Vendeur.java:219-230 | true exactly when some title matches; then exactly the first match is removed from its list and all else is kept; false leaves the catalogue unchanged |
| `Seller.Vendeur.HandleCfp` | src/agents/Vendeur.java:124-162 | PROPOSE with the first matching book exactly when one exists, REFUSE `livre-non-disponible` otherwise, as a reply to the CFP |
| `Seller.Vendeur.HandleAccept` | src/agents/Vendeur.java:178-217 | INFORM `vente-confirmée` exactly when the removal succeeds, FAILURE `livre-plus-disponible` otherwise; a content that is not a book ends the agent |
| `Seller.Vendeur.CfpAction` | src/agents/Vendeur.java:124-136 | the oldest CFP gets one reply to it: PROPOSE with the first match of some category exactly when one exists, REFUSE `livre-non-disponible` otherwise; nothing is sent when there is none or the agent has ended |
| `Seller.Vendeur.AcceptAction` | src/agents/Vendeur.java:178-190 | the oldest acceptance is handled: a book is sold (the first match of some category removed, INFORM) exactly when one matches and FAILURE otherwise; a text content is dropped and other objects end the agent; nothing changes when there is none |
| `Seller.DuneMatchesOnlyItself` | src/agents/Vendeur.java:68-85 | among the opening titles only "Dune" matches "Dune" |
| `Seller.RemovingTheOnlyMatch` | src/agents/Vendeur.java:219-230 | when a title has only one match, no match is left after removing it |
| `Seller.OnlyOneDune` | src/agents/Vendeur.java:68-85 | the opening catalogue holds exactly one "Dune", the first science-fiction entry |
| `Seller.SingleCopySoldOnce` | src/agents/Vendeur.java:178-230 | the one "Dune" is sold once: a second acceptance fails and a later CFP is refused |
| `Buyer.ReplyTemplate` | src/agents/Acheteur.java:119-122 | the buyer's template matches exactly the replies on `vente-livres` to its token |
| `Buyer.Collect` | src/agents/Acheteur.java:128-153 | the loop stores at most as many proposals as there are sellers, and never grows the mailbox |
| `Buyer.CollectFromIsPrefixed` | src/agents/Acheteur.java:128-153 | the loop as it runs ends where the definition does, with the proposals stored so far in front |
| `Buyer.CollectStoresProposals` | src/agents/Acheteur.java:137-141 | every stored message is a proposal that answers the CFP |
| `Buyer.CollectDrains` | src/agents/Acheteur.java:128-153 | the loop stops short of the seller count only when no matching reply is left |
| `Buyer.CollectCrashes` | src/agents/Acheteur.java:137-141 | the agent ends exactly when a stored proposal carries an object that is not a book |
| `Buyer.CollectCrashesOnLast` | src/agents/Acheteur.java:137-141 | such a proposal is the last one stored: the loop stops there |
| `Buyer.CollectTakesProposalsInOrder` | src/agents/Acheteur.java:128-153 | the stored proposals are the first matching proposals in arrival order, all of them when fewer than the seller count arrived; refusals are taken and dropped, and other messages keep their order |
| `Buyer.CollectProposals` | src/agents/Acheteur.java:128-153 | the receive loop computes exactly what the definition does |
| `Buyer.BestOfferUnique` | src/agents/Acheteur.java:177-191 | at most one position is the best offer |
| `Buyer.ChooseBestOffer` | src/agents/Acheteur.java:177-191 | no choice exactly when no proposal is readable; otherwise the chosen price is at most every readable price, and strictly below every earlier one, so the first of equal minima wins |
| `Buyer.CheaperOfferWins` | src/agents/Acheteur.java:177-191 | of two readable offers the cheaper is chosen in either arrival order |
| `Buyer.Acheteur.constructor` | src/agents/Acheteur.java:22-39 | the title is the first argument; with none the agent deletes itself |
| `Buyer.Acheteur.RechercherLivre` | src/agents/Acheteur.java:69-103 | one CFP for the title to every seller, on `vente-livres` with a reply-with token, and a collector expecting one reply per seller; with no seller nothing is sent and the agent deletes itself |
| `Buyer.Acheteur.RecevoirPropositions` | src/agents/Acheteur.java:106-163 | the choice comes next with the collected proposals, the agent deletes itself when there are none, and it ends on a proposal that is not a book |
| `Buyer.Acheteur.ChoisirMeilleureOffre` | src/agents/Acheteur.java:166-220 | the acceptance goes only to the best offer's sender and carries its book; with no readable offer nothing is sent and the agent deletes itself |
| `Buyer.Acheteur.RecevoirConfirmation` | src/agents/Acheteur.java:223-274 | the first matching reply decides: INFORM is a purchase, anything else a failure, no reply is unanswered; the agent deletes itself in every case |
| `SimpleUser.Thanks` | src/agents/UserSimple.java:130-150 | the user says `merci` exactly when the verdict is an INFORM |
| `SimpleUser.UserSimple.constructor` | src/agents/UserSimple.java:22-38 | the title is the first argument; with none the agent deletes itself |
| `SimpleUser.UserSimple.Action` | src/agents/UserSimple.java:73-176 | step 0 sends one REQUEST with the title, or ends when there is no librarian; step 1 advances exactly on the `recherche-en-cours` notice; step 2 answers the verdict on `resultat-recherche` with thanks and ends |
| `Borrower.AwaitSearchingMatches` | src/agents/UserEmprunteur.java:122-125 | step 1 waits for an INFORM on `recherche-emprunt` |
| `Borrower.AwaitOfferMatches` | src/agents/UserEmprunteur.java:140-146 | step 2 waits for a PROPOSE or a REFUSE on `emprunt-livre` |
| `Borrower.AwaitConfirmationMatches` | src/agents/UserEmprunteur.java:231-237 | step 3 waits for an INFORM or a FAILURE on `emprunt-livre` |
| `Borrower.UserEmprunteur.constructor` | src/agents/UserEmprunteur.java:22-49 | the title is the first argument and the count is one by default or the parsed second argument; a count that does not parse ends the agent, and no argument deletes it |
| `Borrower.UserEmprunteur.Ask` | src/agents/UserEmprunteur.java:86-137 | step 0 sends one CFP `title:count` on `emprunt-livre` to the first librarian, or ends when there is none; step 1 advances exactly on the `recherche-en-cours` notice |
| `Borrower.UserEmprunteur.Decide` | src/agents/UserEmprunteur.java:139-228 | an offer is read for its period and accepted with the CFP's content; a refusal is thanked with `merci quand même` and ends the agent, with the stock read from a short refusal; an unreadable number ends the agent |
| `Borrower.UserEmprunteur.Conclude` | src/agents/UserEmprunteur.java:230-294 | a confirmation is read for its period and thanked with `merci beaucoup`, a failure with `merci quand même`; both end the agent |
| `Borrower.UserEmprunteur.Action` | src/agents/UserEmprunteur.java:85-296 | the step never goes back and title and count never change; steps 0-1 send and move as `Ask` does, step 2 as `Decide` and step 3 as `Conclude`, with the same messages, readings and endings |
| `Borrower.LoanContentIsRead` | src/agents/UserEmprunteur.java:103 | the borrower's `title:count` reads back as its title and count in the clerk's CFP and acceptance branches |
| `Borrower.OfferIsReadable` | src/agents/UserEmprunteur.java:151-188 | every offer and short refusal the clerk can send carries a number the borrower reads |
| `Borrower.ConfirmationIsReadable` | src/agents/UserEmprunteur.java:242-245 | the confirmation carries the title's loan period, which the borrower reads back |
| `ListUser.Borrows` | src/agents/UserListe.java:193-195 | `utilite >= seuilUtilite` on exact fractions; with nothing wanted, true exactly when something was found (infinity against NaN); its meaning is `BorrowsIsShareAtLeastThreshold` |
| `ListUser.BorrowsIsShareAtLeastThreshold` | src/agents/UserListe.java:193-195 | the decision to borrow is exactly "found/wanted is at least the threshold", inclusive |
| `ListUser.BorrowsIsMonotone` | src/agents/UserListe.java:193-195 | finding more titles never turns a borrow into a decline |
| `ListUser.TitlesToBorrow` | src/agents/UserListe.java:204-212 | the AGREE content is every found title, each followed by `;`, in some enumeration of the found map |
| `ListUser.AgreeIsReadBack` | src/agents/UserListe.java:204-212 | the clerk's split of that content gives back exactly the found titles in that order |
| `ListUser.AllLentPieces` | src/agents/UserListe.java:268-275 | the number of a `tous-empruntes:<d>` reply reads back as d |
| `ListUser.AllLentReplyIsReadable` | src/agents/UserListe.java:268-275 | when every title was lent, the user reads the clerk's shortest loan back |
| `ListUser.SomeLentPieces` | src/agents/UserListe.java:276-282 | a `certains-empruntes:` reply with a report has a second piece to show |
| `ListUser.SomeLentReplyIsReadable` | src/agents/UserListe.java:276-282 | every partial report the clerk can send has that second piece |
| `ListUser.UserListe.constructor` | src/agents/UserListe.java:31-64 | the list is the first argument and the threshold 3/5 by default or the second argument; no argument deletes the agent, and an argument of the wrong kind ends it |
| `ListUser.UserListe.Ask` | src/agents/UserListe.java:103-152 | step 0 sends one CONFIRM carrying the list on `recherche-liste` and records how many titles are wanted, or ends when there is no librarian; step 1 advances exactly on the `recherche-en-cours` notice |
| `ListUser.UserListe.Decide` | src/agents/UserListe.java:154-257 | a search result reports its found count; the user borrows exactly when the threshold is met, sending the notice and the AGREE on `emprunt-liste`, and otherwise says `merci-non-emprunt` and ends; any other content ends the agent |
| `ListUser.UserListe.Conclude` | src/agents/UserListe.java:259-307 | an INFORM on `emprunt-liste` is read for its period or its report and thanked with `merci-beaucoup`; an unreadable number ends the agent |
| `ListUser.UserListe.Action` | src/agents/UserListe.java:101-310 | the step never goes back and the list and threshold never change; steps 0-1 send and move as `Ask` does, step 2 as `Decide` (with the walk over the found titles returned) and step 3 as `Conclude` |
| `Scenarios.SimpleSearchForDune` | src/agents/UserSimple.java:73-157 | a simple user asking the clerk for "Dune" gets both replies it waits for, thanks the clerk with `merci` and is done |
| `Scenarios.LoanOffered` | src/agents/UserEmprunteur.java:94-137 | against the clerk, a borrower's CFP for a title on the shelf in that number gets an offer of the title's longest loan on `emprunt-livre`, and the borrower waits for it |
| `Scenarios.LoanAccepted` | src/agents/UserEmprunteur.java:151-182 | that offer is read for its period and accepted with the content of the CFP |
| `Scenarios.LoanLent` | src/agents/Bibliothecaire.java:264-299 | the clerk lends exactly that many copies for that acceptance and confirms the longest loan on `emprunt-livre` |
| `Scenarios.LoanThanked` | src/agents/UserEmprunteur.java:242-277 | the borrower reads the confirmed period back, thanks the clerk with `merci beaucoup` and is done |
| `Scenarios.LoanConversation` | src/agents/UserEmprunteur.java:85-294 | for any title on the shelf in the number asked for, the confirmed period equals the offered one, the title's longest loan, and exactly that many copies leave the shelf |
| `Scenarios.BorrowingDune` | src/agents/Bibliothecaire.java:72-83 | borrowing the one "Dune" is confirmed for 21 days and leaves no copy |

## Left out

- Directory service: `DFService.register`, `search` and `deregister` are JADE calls. The agents found by a search are an input sequence.
- Message transport: `send`, `block()` and behaviour scheduling are left out. The mailbox each step reads is an input, and what it sends is its result.
- "Reply-with" tokens: JADE generates them, and here they are parameters. The buyer's `"cfp" + currentTimeMillis()` token takes the clock reading as a parameter.
- Observer notifications and the Swing windows: `informerObservateur`, `ObservateurAgent`, `BibliothequeGUI`, `LibrairieGUI` and the console output are a display side channel with no protocol effect.
- Start-up wiring: `Main` and the containers create agents with delays. This is operational setup.
- Delays and deadlines: `Thread.sleep` pauses, and the buyer's five-second waits are left out. A deadline is modelled as the mailbox contents delivered before it.
- Delayed deletion: the `WakerBehaviour` that deletes a user agent after a pause becomes `deleted := true`.
- Serialized bytes: `setContentObject` and `getContentObject` are modelled as a content datatype. The text of an object content is empty, and I/O exceptions while serializing are left out.
- Floating point:
  - prices are whole cents, not `double`s, and the buyer compares them exactly;
  - `UserListe`'s `float` threshold is an exact fraction `num/den`, and its argument is a `Decimal` value rather than a `Float` read from text;
  - the utility test is exact, and 0/0 (`NaN`) declines.
- LivreModel.ParsePriceOfPriceToString: `Double.toString` is modelled only in its plain form, a whole part, a dot and up to two fraction digits. Its scientific notation for very large or very small prices is left out.
- `equalsIgnoreCase`: case folding is ASCII only, with no Unicode case mapping.
- `HashMap` iteration order: the found map in `ResultatRecherche.toString`, the `UserListe` AGREE content, and the seller's category scans in `rechercherLivre` and `retirerLivreDuCatalogue` (Vendeur.java:166, 221). The order is unspecified, so the contracts hold for every enumeration of the keys. Each seller scan picks its order afresh, so the model allows a CFP to quote one category's matching copy while a later acceptance removes another category's. Java walks an unchanged map in the same order both times.
- Counters: `demandes` and `emprunts` are unbounded, with no 32-bit wrap-around.
- JavaText.ParseInt: only ASCII digits are read. `Integer.parseInt` reads digits through `Character.digit`, which also accepts other Unicode decimal digits such as `３` or `٣`; on those the model ends the borrower where Java reads the number.
- Library.LoanOffer: a count below one is refused here. The code as read offers it (`LoanOfferAsWritten`; see Findings).
- Library.AfterLoan: a count below one changes nothing here. The code as read confirms it, leaving the stock as it is for zero and raising it for a negative count (`AfterLoanAsWritten`; see Findings).
- Library.Bibliothecaire.HandleCfp: uses `LoanOffer`, so a CFP for a count below one is refused. The code as read proposes `livre-disponible:<d>`.
- Library.Bibliothecaire.HandleAccept: uses `AfterLoan`, so an acceptance for a count below one gets FAILURE `emprunt-impossible` and is not counted. The code as read confirms it and counts one more loan.
- `Buyer.Acheteur.ChoisirMeilleureOffre`: the starting `meilleurPrix = Double.MAX_VALUE` becomes "no offer yet". This differs only for a price of `Double.MAX_VALUE` itself, which whole cents cannot express.
- Null content: a `null` content or a missing argument of the wrong type is not modelled beyond the cases listed in the constructors.
- The library record class: the `Livre` the clerk constructs with a stock and a period is not part of this model. Its members are read from their names.

## Findings

| source | as written | input that shows it | evidently intended | confidence | as-written member | corrected member |
|---|---|---|---|---|---|---|
| src/agents/Bibliothecaire.java:276-278 | the clerk reads the count of an acceptance with `Integer.parseInt` and lends when `estDisponible(n)`, that is stock at least n; `reduireQuantite(n)` then subtracts n | ACCEPT_PROPOSAL `Dune:-3` against a stock of 1 raises the stock to 4; `Dune:-2147483648` wraps the stock negative | only counts of at least one copy are lent, so the stock stays between zero and what it was | not executed | `LibraryRecords.NegativeCountRaisesStock` | `LibraryRecords.AvailabilityAgreesOnPositiveCounts` |
| src/agents/Bibliothecaire.java:237-285 | the CFP and acceptance branches apply the same check to the count read from the message, so a count of zero passes both | CFP then ACCEPT_PROPOSAL `Dune:0` against the opening catalogue: PROPOSE `livre-disponible:21`, then INFORM `emprunt-confirme:21` and one more loan counted, with no copy taken | an offered and confirmed loan always takes at least one copy | not executed | `Library.CountBelowOneIsLentAsWritten` | `Library.OfferedLoanTakesACopy` |
