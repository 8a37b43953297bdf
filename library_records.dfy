/** The clerk's book record: the library flavour of `Livre`, built as
    `new Livre(titre, auteur, quantite, dureeEmpruntMax)` and queried through
    `estDisponible()`, `estDisponible(n)`, `reduireQuantite(n)`,
    `getQuantiteDisponible()` and `getDureeEmpruntMax()`. That class is not
    part of this model; the meanings below are read from the names and from
    the clerk's refusal messages. */
module LibraryRecords {
  import opened JavaText

  datatype LibraryBook = LibraryBook(titre: string, auteur: string, quantite: int, dureeEmpruntMax: int)

  /** The record invariant the catalogue keeps: a stock that is never negative
      and, like every Java `int`, fits in 32 bits. */
  predicate WellFormed(b: LibraryBook) {
    0 <= b.quantite <= Int32Max && IsInt32(b.dureeEmpruntMax)
  }

  /** `estDisponible()`: at least one copy is on the shelf. */
  predicate IsAvailable(b: LibraryBook) { b.quantite >= 1 }

  // ---------------------------------------------------------------------
  // As written: `estDisponible(n)` read as `quantite >= n`, and
  // `reduireQuantite(n)` as the `int` subtraction `quantite - n`.
  // ---------------------------------------------------------------------

  predicate IsAvailableForAsWritten(b: LibraryBook, n: int) { b.quantite >= n }

  function ReduceAsWritten(b: LibraryBook, n: int): (r: LibraryBook)
    ensures r.titre == b.titre && r.auteur == b.auteur && r.dureeEmpruntMax == b.dureeEmpruntMax
    ensures IsInt32(b.quantite - n) ==> r.quantite == b.quantite - n
  {
    b.(quantite := Wrap32(b.quantite - n))
  }

  /** A negative count passes the check and raises the stock: "borrowing" -3
      copies of a one-copy title leaves four. */
  lemma NegativeCountRaisesStock()
    ensures var b := LibraryBook("Dune", "Frank Herbert", 1, 21);
      IsAvailableForAsWritten(b, -3) && ReduceAsWritten(b, -3).quantite == 4
  {
  }

  /** The most negative `int` passes the check and the subtraction wraps, so
      the stock ends up negative. */
  lemma MinimumCountWrapsStockNegative()
    ensures var b := LibraryBook("Dune", "Frank Herbert", 1, 21);
      WellFormed(b) && IsAvailableForAsWritten(b, Int32Min) && ReduceAsWritten(b, Int32Min).quantite < 0
  {
    var b := LibraryBook("Dune", "Frank Herbert", 1, 21);
    assert Wrap32(1 - Int32Min) == -0x7FFF_FFFF;
  }

  // ---------------------------------------------------------------------
  // As intended, and as the rest of the model uses it: a loan is for at
  // least one copy and for no more copies than are available.
  // ---------------------------------------------------------------------

  predicate IsAvailableFor(b: LibraryBook, n: int) { 1 <= n <= b.quantite }

  /** `reduireQuantite(n)` after a successful check: exactly `n` copies fewer,
      never below zero, and nothing else changes. */
  function Reduce(b: LibraryBook, n: int): (r: LibraryBook)
    requires WellFormed(b) && IsAvailableFor(b, n)
    ensures WellFormed(r)
    ensures r.quantite == b.quantite - n && r.quantite < b.quantite
    ensures r.titre == b.titre && r.auteur == b.auteur && r.dureeEmpruntMax == b.dureeEmpruntMax
  {
    b.(quantite := Wrap32(b.quantite - n))
  }

  /** The corrected check agrees with the written one on every count the
      borrowers are meant to send. */
  lemma AvailabilityAgreesOnPositiveCounts(b: LibraryBook, n: int)
    requires n >= 1 && WellFormed(b)
    ensures IsAvailableFor(b, n) <==> IsAvailableForAsWritten(b, n)
    ensures IsAvailableFor(b, n) ==> Reduce(b, n) == ReduceAsWritten(b, n)
  {
  }

  /** One copy is available exactly when one copy can be lent. */
  lemma AvailableIsAvailableForOne(b: LibraryBook)
    ensures IsAvailable(b) <==> IsAvailableFor(b, 1)
  {
  }

  /** Two loans of the same record, each checked against the stock the first
      one left, never take more copies than there were: of two requests for
      the last copy, the second is refused. */
  lemma SuccessiveLoansStayWithinStock(b: LibraryBook, n1: int, n2: int)
    requires WellFormed(b) && IsAvailableFor(b, n1)
    ensures IsAvailableFor(Reduce(b, n1), n2) ==> n1 + n2 <= b.quantite
    ensures b.quantite == 1 ==> !IsAvailableFor(Reduce(b, n1), n2)
  {
  }
}
