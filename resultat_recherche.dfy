/** `model.ResultatRecherche`: the clerk's answer to a list search, the
    titles found (each with its record) and, in request order, those not
    found. */
module ResultatRechercheModel {
  import opened JavaText
  import opened LibraryRecords
  import opened Acl

  /** `order` lists every key of `m` exactly once: one iteration order of a
      `HashMap`, which the source leaves unspecified. */
  predicate IsEnumeration<V>(order: seq<string>, m: map<string, V>) {
    |order| == |m.Keys|
    && (forall i :: 0 <= i < |order| ==> order[i] in m)
    && (forall i, j :: 0 <= i < j < |order| ==> order[i] != order[j])
  }

  /** Part way through walking the keys: `order` lists, each once, the keys
      already visited, and `left` holds the rest. */
  ghost predicate Enumerating<V>(order: seq<string>, left: set<string>, m: map<string, V>) {
    && left <= m.Keys
    && (forall i :: 0 <= i < |order| ==> order[i] in m && order[i] !in left)
    && (forall i, j :: 0 <= i < j < |order| ==> order[i] != order[j])
    && |order| + |left| == |m.Keys|
  }

  lemma EnumeratingStart<V>(m: map<string, V>)
    ensures Enumerating([], m.Keys, m)
  {
  }

  lemma EnumeratingStep<V>(order: seq<string>, left: set<string>, m: map<string, V>, k: string)
    requires Enumerating(order, left, m) && k in left
    ensures Enumerating(order + [k], left - {k}, m)
  {
    var o := order + [k];
    forall i | 0 <= i < |o|
      ensures o[i] in m && o[i] !in left - {k}
    {
      if i < |order| {
        assert o[i] == order[i];
      }
    }
    forall i, j | 0 <= i < j < |o|
      ensures o[i] != o[j]
    {
      if j < |order| {
        assert o[i] == order[i] && o[j] == order[j];
      } else {
        assert o[i] == order[i] && order[i] !in left;
      }
    }
  }

  lemma EnumeratingDone<V>(order: seq<string>, m: map<string, V>)
    requires Enumerating(order, {}, m)
    ensures IsEnumeration(order, m)
  {
  }

  /** One `" - " + x + "\n"` line per element. */
  function Lines(xs: seq<string>): string {
    if xs == [] then "" else Lines(xs[..|xs| - 1]) + " - " + xs[|xs| - 1] + "\n"
  }

  function ShowAll(order: seq<string>, m: map<string, LibraryBook>, show: LibraryBook -> string): (r: seq<string>)
    requires forall i :: 0 <= i < |order| ==> order[i] in m
    ensures |r| == |order| && forall i :: 0 <= i < |order| ==> r[i] == show(m[order[i]])
  {
    if order == [] then [] else ShowAll(order[..|order| - 1], m, show) + [show(m[order[|order| - 1]])]
  }

  /** The text `toString` builds: each section only when it has entries. */
  function Rendering(m: map<string, LibraryBook>, order: seq<string>, nonTrouves: seq<string>, show: LibraryBook -> string): string
    requires IsEnumeration(order, m)
  {
    (if |m| == 0 then "" else "Livres trouvés : " + NatToString(|m|) + "\n" + Lines(ShowAll(order, m, show)))
    + (if |nonTrouves| == 0 then "" else "Livres non trouvés : " + NatToString(|nonTrouves|) + "\n" + Lines(nonTrouves))
  }

  lemma EnumerationOfEmpty<V>(order: seq<string>, m: map<string, V>)
    requires IsEnumeration(order, m) && |m| == 0
    ensures order == []
  {
  }

  class ResultatRecherche {
    var livresTrouves: map<string, LibraryBook>
    var livresNonTrouves: seq<string>

    constructor ()
      ensures livresTrouves == map[] && livresNonTrouves == []
    {
      livresTrouves := map[];
      livresNonTrouves := [];
    }

    /** Records a found title; a later record for the same title replaces
        the earlier one. */
    method AjouterLivreTrouve(titre: string, livre: LibraryBook)
      modifies this
      ensures livresTrouves == old(livresTrouves)[titre := livre]
      ensures livresNonTrouves == old(livresNonTrouves)
    {
      livresTrouves := livresTrouves[titre := livre];
    }

    /** Appends a title that was not found, keeping order and duplicates. */
    method AjouterLivreNonTrouve(titre: string)
      modifies this
      ensures livresNonTrouves == old(livresNonTrouves) + [titre]
      ensures livresTrouves == old(livresTrouves)
    {
      livresNonTrouves := livresNonTrouves + [titre];
    }

    /** The number of distinct titles found. */
    function NombreLivresTrouves(): (n: nat)
      reads this
      ensures n == |livresTrouves.Keys|
    {
      |livresTrouves|
    }

    /** The number of not-found entries, duplicates included. */
    function NombreLivresNonTrouves(): (n: nat)
      reads this
      ensures n == |livresNonTrouves|
    {
      |livresNonTrouves|
    }

    predicate TousLesTitresTrouves()
      reads this
      ensures TousLesTitresTrouves() <==> livresNonTrouves == []
    {
      |livresNonTrouves| == 0
    }

    /** The object a message carries (`setContentObject`). */
    function Snapshot(): (c: Content)
      reads this
      ensures c.ResultatObject? && c.trouves == livresTrouves && c.nonTrouves == livresNonTrouves
    {
      ResultatObject(livresTrouves, livresNonTrouves)
    }

    /** `toString`. The found records are rendered by `show` (the library
        record's own `toString` is not part of this model) in one iteration
        order of the map. */
    method ToString(show: LibraryBook -> string) returns (s: string)
      ensures s == "" <==> (livresTrouves == map[] && livresNonTrouves == [])
      ensures exists order :: IsEnumeration(order, livresTrouves) && s == Rendering(livresTrouves, order, livresNonTrouves, show)
    {
      var found, order := RenderFound(livresTrouves, show);
      var notFound := RenderNotFound(livresNonTrouves);
      s := found + notFound;
      assert s == Rendering(livresTrouves, order, livresNonTrouves, show);
    }
  }

  /** One more found title adds its line at the end. */
  lemma LinesOfShowAllSnoc(order: seq<string>, k: string, m: map<string, LibraryBook>, show: LibraryBook -> string)
    requires k in m && forall i :: 0 <= i < |order| ==> order[i] in m
    ensures Lines(ShowAll(order + [k], m, show)) == Lines(ShowAll(order, m, show)) + " - " + show(m[k]) + "\n"
  {
    assert (order + [k])[..|order|] == order;
    var xs := ShowAll(order, m, show) + [show(m[k])];
    assert ShowAll(order + [k], m, show) == xs;
    assert xs[..|xs| - 1] == ShowAll(order, m, show);
  }

  /** The found section of `toString`, walking the map in some order, which
      is returned. */
  method RenderFound(m: map<string, LibraryBook>, show: LibraryBook -> string) returns (s: string, order: seq<string>)
    ensures IsEnumeration(order, m)
    ensures s == if |m| == 0 then "" else "Livres trouvés : " + NatToString(|m|) + "\n" + Lines(ShowAll(order, m, show))
  {
    s := "";
    order := [];
    if |m| != 0 {
      var lines := "";
      var left := m.Keys;
      EnumeratingStart(m);
      while left != {}
        invariant Enumerating(order, left, m)
        invariant lines == Lines(ShowAll(order, m, show))
        decreases left
      {
        var k :| k in left;
        LinesOfShowAllSnoc(order, k, m, show);
        EnumeratingStep(order, left, m, k);
        lines := lines + " - " + show(m[k]) + "\n";
        order := order + [k];
        left := left - {k};
      }
      EnumeratingDone(order, m);
      s := "Livres trouvés : " + NatToString(|m|) + "\n" + lines;
    }
  }

  /** The not-found section of `toString`, in list order. */
  method RenderNotFound(n: seq<string>) returns (s: string)
    ensures s == if |n| == 0 then "" else "Livres non trouvés : " + NatToString(|n|) + "\n" + Lines(n)
  {
    s := "";
    if |n| != 0 {
      s := "Livres non trouvés : " + NatToString(|n|) + "\n";
      var i := 0;
      while i < |n|
        invariant 0 <= i <= |n|
        invariant s == "Livres non trouvés : " + NatToString(|n|) + "\n" + Lines(n[..i])
      {
        assert n[..i + 1][..i] == n[..i];
        s := s + " - " + n[i] + "\n";
        i := i + 1;
      }
      assert n[..i] == n;
    }
  }
}
