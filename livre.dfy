/** The seller's book, `model.Livre`: a title and an author fixed at
    construction and a price that `setPrix` may change. Prices are whole
    cents (the source holds a `double`). */
module LivreModel {
  import opened JavaText

  /** What a serialized `Livre` carries in a message (`setContentObject`). */
  datatype BookData = BookData(titre: string, auteur: string, prix: int)

  class Livre {
    const titre: string
    const auteur: string
    var prix: int

    /** The getters of the source are these fields; title and author are
        constants, so no method can change them after construction. */
    constructor (titre: string, auteur: string, prix: int)
      ensures this.titre == titre && this.auteur == auteur && this.prix == prix
    {
      this.titre := titre;
      this.auteur := auteur;
      this.prix := prix;
    }

    method SetPrix(prix: int)
      modifies this
      ensures this.prix == prix
    {
      this.prix := prix;
    }

    /** The value a message carries when this book is sent as an object. */
    function Data(): (d: BookData)
      reads this
      ensures d.titre == titre && d.auteur == auteur && d.prix == prix
    {
      BookData(titre, auteur, prix)
    }

    /** `toString`: the text of the book's current fields. */
    function ToString(): (s: string)
      reads this
      ensures s == BookToString(Data())
    {
      BookToString(Data())
    }
  }

  /** `toString`'s text: the title, the author and the price, each after its
      label, inside `Livre [` and `]`. */
  function BookToString(b: BookData): (s: string)
    ensures "Livre [titre=" + b.titre + ", auteur=" + b.auteur + ", prix=" <= s
    ensures |s| > 0 && s[|s| - 1] == ']'
  {
    "Livre [titre=" + b.titre + ", auteur=" + b.auteur + ", prix=" + PriceToString(b.prix) + "]"
  }

  /** `Double.toString` of `cents / 100` for a price below ten million: the
      whole part, a dot, and the shortest fraction (at least one digit). A
      minus sign comes first exactly for a negative price. */
  function PriceToString(cents: int): (s: string)
    ensures |s| > 0 && (s[0] == '-' <==> cents < 0) && '.' in s
  {
    var m: nat := if cents < 0 then -cents else cents;
    var body := UnsignedPriceText(m);
    var s := (if cents < 0 then "-" else "") + body;
    assert cents < 0 ==> s[1..] == body;
    assert cents >= 0 ==> s == body;
    s
  }

  /** The rendering of a price that is not negative: it starts with a digit
      and holds the dot. */
  function UnsignedPriceText(m: nat): (s: string)
    ensures |s| > 0 && IsDigit(s[0]) && '.' in s
  {
    var whole := NatToString(m / 100);
    var s := whole + "." + FractionText(m % 100);
    assert s[0] == whole[0] && s[|whole|] == '.';
    s
  }

  /** The one or two fraction digits: a trailing zero is dropped. */
  function FractionText(frac: nat): (s: string)
    requires frac < 100
    ensures 1 <= |s| <= 2 && AllDigits(s)
  {
    if frac % 10 == 0 then [DigitChar(frac / 10)] else [DigitChar(frac / 10), DigitChar(frac % 10)]
  }

  /** The cents that one or two fraction digits stand for. */
  function FractionValue(s: string): (v: nat)
    requires 1 <= |s| <= 2 && AllDigits(s)
    ensures v < 100
  {
    if |s| == 1 then 10 * DigitValue(s[0]) else 10 * DigitValue(s[0]) + DigitValue(s[1])
  }

  /** Reading a rendered price back: an optional minus, then the whole part,
      a dot and one or two fraction digits (`Double.parseDouble` on that
      shape). */
  function ParsePrice(s: string): (r: Wrappers.Option<int>)
    ensures r.Some? && |s| > 0 && s[0] == '-' ==> r.value <= 0
  {
    var neg := |s| > 0 && s[0] == '-';
    match ParseUnsignedPrice(if neg then s[1..] else s)
    case None => Wrappers.None
    case Some(m) =>
      var magnitude: int := m;
      Wrappers.Some(if neg then -magnitude else magnitude)
  }

  function ParseUnsignedPrice(body: string): (r: Wrappers.Option<nat>)
  {
    var parts := Split(body, '.');
    if |parts| != 2 || |parts[0]| == 0 || !AllDigits(parts[0]) || !AllDigits(parts[1])
       || |parts[1]| == 0 || |parts[1]| > 2 then Wrappers.None
    else Wrappers.Some(100 * DigitsValue(parts[0]) + FractionValue(parts[1]))
  }

  lemma FractionRoundTrip(frac: nat)
    requires frac < 100
    ensures FractionValue(FractionText(frac)) == frac
  {
  }

  lemma UnsignedPriceRoundTrip(m: nat)
    ensures ParseUnsignedPrice(UnsignedPriceText(m)) == Wrappers.Some(m)
  {
    var whole := NatToString(m / 100);
    var frac := FractionText(m % 100);
    assert '.' !in whole by {
      assert forall i :: 0 <= i < |whole| ==> IsDigit(whole[i]);
    }
    assert '.' !in frac by {
      assert forall i :: 0 <= i < |frac| ==> IsDigit(frac[i]);
    }
    SplitTwo(whole, frac, '.');
    assert UnsignedPriceText(m) == whole + ['.'] + frac;
    DigitsValueOfNatToString(m / 100);
    FractionRoundTrip(m % 100);
  }

  /** The rendering loses nothing: the price can be read back from it, so
      books with different prices print differently. */
  lemma ParsePriceOfPriceToString(cents: int)
    ensures ParsePrice(PriceToString(cents)) == Wrappers.Some(cents)
  {
    var m: nat := if cents < 0 then -cents else cents;
    var body := UnsignedPriceText(m);
    var s := PriceToString(cents);
    UnsignedPriceRoundTrip(m);
    if cents < 0 {
      assert s == "-" + body && s[1..] == body;
    } else {
      assert s == body;
      assert s[0] != '-' by {
        assert IsDigit(NatToString(m / 100)[0]);
        assert s[0] == NatToString(m / 100)[0];
      }
    }
  }

  /** Two copies of a book that differ only in price print differently:
      the price is never lost in `toString`. */
  lemma DifferentPricesPrintDifferently(b1: BookData, b2: BookData)
    requires b1.titre == b2.titre && b1.auteur == b2.auteur && b1.prix != b2.prix
    ensures BookToString(b1) != BookToString(b2)
  {
    var head := "Livre [titre=" + b1.titre + ", auteur=" + b1.auteur + ", prix=";
    var p1, p2 := PriceToString(b1.prix), PriceToString(b2.prix);
    assert BookToString(b1) == head + (p1 + "]");
    assert BookToString(b2) == head + (p2 + "]");
    ParsePriceOfPriceToString(b1.prix);
    ParsePriceOfPriceToString(b2.prix);
    assert p1 != p2;
    assert (p1 + "]")[..|p1|] == p1 && (p2 + "]")[..|p2|] == p2;
    assert (head + (p1 + "]"))[|head|..] == p1 + "]";
    assert (head + (p2 + "]"))[|head|..] == p2 + "]";
  }
}
