/** `model.ListeLivres`: the ordered list of titles a list borrower wants. */
module ListeLivresModel {

  /** The titles separated by `", "`, with no separator after the last. */
  function JoinComma(ts: seq<string>): string
    decreases |ts|
  {
    if |ts| == 0 then ""
    else if |ts| == 1 then ts[0]
    else JoinComma(ts[..|ts| - 1]) + ", " + ts[|ts| - 1]
  }

  /** The same list read from the front: the first title, then a separator
      and the rest, so no separator is ever doubled or left dangling. */
  lemma {:induction false} JoinCommaFront(t: string, ts: seq<string>)
    ensures JoinComma([t] + ts) == if ts == [] then t else t + ", " + JoinComma(ts)
    decreases |ts|
  {
    if |ts| > 1 {
      var front := ts[..|ts| - 1];
      assert ([t] + ts)[..|ts|] == [t] + front;
      JoinCommaFront(t, front);
    } else if |ts| == 1 {
      assert ([t] + ts)[..1] == [t];
    }
  }

  class ListeLivres {
    var titres: seq<string>

    constructor ()
      ensures titres == []
    {
      titres := [];
    }

    constructor FromTitres(titres: seq<string>)
      ensures this.titres == titres
    {
      this.titres := titres;
    }

    method AjouterLivre(titre: string)
      modifies this
      ensures titres == old(titres) + [titre]
    {
      titres := titres + [titre];
    }

    /** How many titles are on the list, duplicates included. */
    function NombreLivres(): (n: nat)
      reads this
      ensures n == |titres|
    {
      |titres|
    }

    method ToString() returns (s: string)
      ensures s == "Liste de livres [" + JoinComma(titres) + "]"
    {
      var sb := "Liste de livres [";
      var i := 0;
      while i < |titres|
        invariant 0 <= i <= |titres|
        invariant sb == "Liste de livres [" + JoinComma(titres[..i]) + (if 0 < i < |titres| then ", " else "")
      {
        assert titres[..i + 1][..i] == titres[..i];
        sb := sb + titres[i];
        if i < |titres| - 1 {
          sb := sb + ", ";
        }
        i := i + 1;
      }
      assert titres[..i] == titres;
      s := sb + "]";
    }
  }
}
