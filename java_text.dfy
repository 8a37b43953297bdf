/** The Java string and integer operations the agents use to build and read
    the tagged-string contents of their messages: `String.split` on a
    one-character separator, `Integer.parseInt`, `Integer.toString`,
    `startsWith`, and 32-bit `int` arithmetic. */
module JavaText {
  import opened Wrappers

  const Int32Min: int := -0x8000_0000
  const Int32Max: int := 0x7FFF_FFFF

  predicate IsInt32(n: int) { Int32Min <= n <= Int32Max }

  /** Java's `int` result of an exact integer computation: the value is
      reduced into the 32-bit two's-complement range. */
  function Wrap32(n: int): (r: int)
    ensures IsInt32(r)
    ensures IsInt32(n) ==> r == n
    ensures (n - r) % 0x1_0000_0000 == 0
  {
    (n - Int32Min) % 0x1_0000_0000 + Int32Min
  }

  function Min(a: int, b: int): (r: int)
    ensures r <= a && r <= b && (r == a || r == b)
  {
    if a <= b then a else b
  }

  // ---------------------------------------------------------------------
  // Decimal digits
  // ---------------------------------------------------------------------

  predicate IsDigit(c: char) { '0' <= c <= '9' }

  predicate AllDigits(s: string) { forall i :: 0 <= i < |s| ==> IsDigit(s[i]) }

  function DigitValue(c: char): (d: nat)
    requires IsDigit(c)
    ensures d < 10
  {
    (c as int) - ('0' as int)
  }

  function DigitChar(d: nat): (c: char)
    requires d < 10
    ensures IsDigit(c) && DigitValue(c) == d
  {
    (('0' as int) + d) as char
  }

  /** The decimal rendering of a natural number, most significant digit first. */
  function NatToString(n: nat): (s: string)
    ensures |s| >= 1 && AllDigits(s)
    decreases n
  {
    if n < 10 then [DigitChar(n)] else NatToString(n / 10) + [DigitChar(n % 10)]
  }

  /** `Integer.toString(n)`: a minus sign for negative values, then the digits. */
  function IntToString(n: int): (s: string)
    ensures |s| >= 1
    ensures forall i :: 0 <= i < |s| ==> IsDigit(s[i]) || s[i] == '-'
  {
    if n < 0 then "-" + NatToString(-n) else NatToString(n)
  }

  /** No character other than a digit or a minus sign occurs in a rendered
      `int`, so it never holds a separator. */
  lemma IntToStringAvoids(n: int, sep: char)
    requires !IsDigit(sep) && sep != '-'
    ensures sep !in IntToString(n)
  {
    var s := IntToString(n);
    forall i | 0 <= i < |s|
      ensures s[i] != sep
    {
      assert IsDigit(s[i]) || s[i] == '-';
    }
  }

  /** The value of a string of decimal digits. */
  function DigitsValue(s: string): nat
    requires AllDigits(s)
  {
    if s == [] then 0 else 10 * DigitsValue(s[..|s| - 1]) + DigitValue(s[|s| - 1])
  }

  lemma {:induction false} DigitsValueOfNatToString(n: nat)
    ensures DigitsValue(NatToString(n)) == n
    decreases n
  {
    if n >= 10 {
      var s := NatToString(n);
      assert s[..|s| - 1] == NatToString(n / 10);
      DigitsValueOfNatToString(n / 10);
    }
  }

  /** `Integer.parseInt(s)` in radix 10: an optional `+` or `-`, at least one
      digit, and a value that fits in an `int`; anything else throws
      `NumberFormatException`, which is `None` here. */
  function ParseInt(s: string): (r: Option<int>)
    ensures r.Some? ==> IsInt32(r.value)
    ensures r.Some? ==> |s| >= 1
  {
    if |s| == 0 then None
    else
      var signed := s[0] == '-' || s[0] == '+';
      var digits := if signed then s[1..] else s;
      if |digits| == 0 || !AllDigits(digits) then None
      else
        var magnitude: int := DigitsValue(digits);
        var v := if s[0] == '-' then -magnitude else magnitude;
        if IsInt32(v) then Some(v) else None
  }

  /** `Integer.parseInt(Integer.toString(n)) == n` for every `int`. */
  lemma ParseIntOfIntToString(n: int)
    requires IsInt32(n)
    ensures ParseInt(IntToString(n)) == Some(n)
  {
    var s := IntToString(n);
    if n < 0 {
      assert s[1..] == NatToString(-n);
      DigitsValueOfNatToString(-n);
    } else {
      DigitsValueOfNatToString(n);
      assert IsDigit(s[0]);
    }
  }

  /** A string that holds a character other than a sign or a digit never parses. */
  lemma ParseIntRejectsNonDigit(s: string, i: nat)
    requires 0 < i < |s| && !IsDigit(s[i])
    ensures ParseInt(s) == None
  {
    var signed := s[0] == '-' || s[0] == '+';
    var digits := if signed then s[1..] else s;
    if |digits| > 0 {
      assert digits[if signed then i - 1 else i] == s[i];
    }
  }

  // ---------------------------------------------------------------------
  // String.split on a one-character separator
  // ---------------------------------------------------------------------

  /** The pieces between consecutive occurrences of `sep`, empty pieces included:
      one more piece than there are separators. */
  function Pieces(s: string, sep: char): (parts: seq<string>)
    ensures |parts| >= 1
    ensures forall i :: 0 <= i < |parts| ==> sep !in parts[i]
    decreases |s|
  {
    if s == [] then [""]
    else
      var rest := Pieces(s[1..], sep);
      if s[0] == sep then [""] + rest
      else [[s[0]] + rest[0]] + rest[1..]
  }

  /** The pieces glued back with the separator between them. */
  function JoinWith(parts: seq<string>, sep: char): string
    requires |parts| >= 1
  {
    if |parts| == 1 then parts[0] else parts[0] + [sep] + JoinWith(parts[1..], sep)
  }

  /** Joining the pieces of `s` gives `s` back: together with the fact that no
      piece holds the separator, this pins `Pieces` down. */
  lemma {:induction false} JoinPieces(s: string, sep: char)
    ensures JoinWith(Pieces(s, sep), sep) == s
    decreases |s|
  {
    if s != [] {
      JoinPieces(s[1..], sep);
      var rest := Pieces(s[1..], sep);
      if s[0] != sep {
        assert s == [s[0]] + s[1..];
        if |rest| > 1 {
          assert ([[s[0]] + rest[0]] + rest[1..])[1..] == rest[1..];
        }
      }
    }
  }

  lemma {:induction false} PiecesOfCons(a: string, sep: char, r: string)
    requires sep !in a
    ensures Pieces(a + [sep] + r, sep) == [a] + Pieces(r, sep)
    decreases |a|
  {
    if a == [] {
      assert a + [sep] + r == [sep] + r;
      assert ([sep] + r)[1..] == r;
    } else {
      PiecesOfCons(a[1..], sep, r);
      assert (a + [sep] + r)[1..] == a[1..] + [sep] + r;
      assert [a[0]] + a[1..] == a;
    }
  }

  lemma {:induction false} PiecesWithoutSeparator(s: string, sep: char)
    requires sep !in s
    ensures Pieces(s, sep) == [s]
    decreases |s|
  {
    if s != [] {
      PiecesWithoutSeparator(s[1..], sep);
      assert [s[0]] + s[1..] == s;
    }
  }

  /** The list without its trailing empty strings. */
  function DropTrailingEmpty(parts: seq<string>): (r: seq<string>)
    ensures r <= parts
    ensures r == [] || r[|r| - 1] != ""
    ensures forall i :: |r| <= i < |parts| ==> parts[i] == ""
  {
    if parts != [] && parts[|parts| - 1] == "" then DropTrailingEmpty(parts[..|parts| - 1]) else parts
  }

  /** `s.split(sep)` for a separator that is not a regular-expression
      metacharacter: with no occurrence the result is `[s]` (so `""` gives
      `[""]`); otherwise every piece, with the trailing empty ones removed
      (so `"a;b;"` gives `["a", "b"]` and `";"` gives `[]`). */
  function Split(s: string, sep: char): (r: seq<string>)
    ensures forall i :: 0 <= i < |r| ==> sep !in r[i]
    ensures sep !in s ==> r == [s]
  {
    if sep !in s then [s] else DropTrailingEmpty(Pieces(s, sep))
  }

  /** Splitting `a + sep + b` gives `[a, b]` when neither holds the separator
      and `b` is not empty. */
  lemma SplitTwo(a: string, b: string, sep: char)
    requires sep !in a && sep !in b && b != ""
    ensures Split(a + [sep] + b, sep) == [a, b]
  {
    var s := a + [sep] + b;
    assert s[|a|] == sep;
    PiecesOfCons(a, sep, b);
    PiecesWithoutSeparator(b, sep);
  }

  /** Each element followed by the separator: the shape of a `StringBuilder`
      that appends `t` and then `sep` for every `t`. */
  function Terminated(ts: seq<string>, sep: char): string {
    if ts == [] then "" else ts[0] + [sep] + Terminated(ts[1..], sep)
  }

  lemma {:induction false} PiecesOfTerminated(ts: seq<string>, sep: char)
    requires forall i :: 0 <= i < |ts| ==> sep !in ts[i]
    ensures Pieces(Terminated(ts, sep), sep) == ts + [""]
    decreases |ts|
  {
    if ts != [] {
      PiecesOfTerminated(ts[1..], sep);
      PiecesOfCons(ts[0], sep, Terminated(ts[1..], sep));
      assert [ts[0]] + (ts[1..] + [""]) == ts + [""];
    }
  }

  /** Splitting a terminated list gives the list back, less its trailing empty
      elements, as long as no element holds the separator; the empty list
      gives `[""]`, because `"".split(sep)` is `[""]`. */
  lemma SplitOfTerminated(ts: seq<string>, sep: char)
    requires forall i :: 0 <= i < |ts| ==> sep !in ts[i]
    ensures Split(Terminated(ts, sep), sep) == if ts == [] then [""] else DropTrailingEmpty(ts)
  {
    if ts != [] {
      var s := Terminated(ts, sep);
      assert s[|ts[0]|] == sep;
      PiecesOfTerminated(ts, sep);
      assert (ts + [""])[..|ts|] == ts;
    }
  }

  /** When the separator occurs, there are at least two pieces and the first
      is everything before its first occurrence. */
  lemma {:induction false} PiecesOfFirst(s: string, sep: char)
    requires sep in s
    ensures |Pieces(s, sep)| >= 2 && Pieces(s, sep)[0] + [sep] <= s
    decreases |s|
  {
    if s[0] != sep {
      assert sep in s[1..] by {
        var k :| 0 <= k < |s| && s[k] == sep;
        assert s[1..][k - 1] == sep;
      }
      PiecesOfFirst(s[1..], sep);
      assert s == [s[0]] + s[1..];
    }
  }

  /** The first element of a split that has one is the text before the
      first separator. */
  lemma SplitHead(s: string, sep: char)
    requires sep in s && |Split(s, sep)| >= 1
    ensures Split(s, sep)[0] + [sep] <= s
  {
    PiecesOfFirst(s, sep);
  }

  lemma {:induction false} TerminatedSnoc(ts: seq<string>, t: string, sep: char)
    ensures Terminated(ts + [t], sep) == Terminated(ts, sep) + t + [sep]
    decreases |ts|
  {
    if ts == [] {
      assert [t][1..] == [];
    } else {
      assert (ts + [t])[1..] == ts[1..] + [t];
      TerminatedSnoc(ts[1..], t, sep);
    }
  }

  /** A text that does not end with the separator has a last piece that
      is not empty. */
  lemma {:induction false} LastPieceNonEmpty(s: string, sep: char)
    requires s != [] && s[|s| - 1] != sep
    ensures Pieces(s, sep)[|Pieces(s, sep)| - 1] != ""
    decreases |s|
  {
    if |s| == 1 {
      assert Pieces(s[1..], sep) == [""];
    } else {
      assert s[1..][|s[1..]| - 1] == s[|s| - 1];
      LastPieceNonEmpty(s[1..], sep);
    }
  }

  /** `(a + sep + b).split(sep)` keeps a second element whenever `b` does
      not end with the separator, so indexing it at 1 does not throw. */
  lemma SplitKeepsSecond(a: string, b: string, sep: char)
    requires sep !in a && b != [] && b[|b| - 1] != sep
    ensures |Split(a + [sep] + b, sep)| >= 2
  {
    var s := a + [sep] + b;
    assert s[|a|] == sep;
    PiecesOfCons(a, sep, b);
    LastPieceNonEmpty(b, sep);
    var parts := Pieces(s, sep);
    assert parts == [a] + Pieces(b, sep);
    assert parts[|parts| - 1] != "";
    assert Split(s, sep) == parts;
  }

  /** `s.startsWith(p)`. */
  predicate StartsWith(s: string, p: string) { p <= s }
}
