/** `String.split(regex)` of java.lang.String for a one-character separator
    and the default limit 0: the string is cut at every separator, trailing
    empty strings are removed, and a string without any separator comes
    back whole (so "" gives [""], while ";;" gives []). */
module JavaSplit {

  /** Every piece between two separators, empty pieces included. */
  function Pieces(s: string, sep: char): (parts: seq<string>)
    ensures |parts| >= 1
    ensures forall i :: 0 <= i < |parts| ==> sep !in parts[i]
  {
    if s == [] then [[]]
    else
      var rest := Pieces(s[1..], sep);
      if s[0] == sep then [[]] + rest
      else [[s[0]] + rest[0]] + rest[1..]
  }

  /** There is one more piece than there are separators. */
  lemma {:induction false} PiecesCount(s: string, sep: char)
    ensures |Pieces(s, sep)| == multiset(s)[sep] + 1
  {
    if s != [] {
      PiecesCount(s[1..], sep);
      assert s == [s[0]] + s[1..];
    }
  }

  /** Glues pieces back together with the separator between them. */
  function Join(parts: seq<string>, sep: char): string
    requires |parts| >= 1
  {
    if |parts| == 1 then parts[0] else parts[0] + [sep] + Join(parts[1..], sep)
  }

  /** Prefixing the first piece prefixes the joined string. */
  lemma JoinPrefixFirst(c: char, parts: seq<string>, sep: char)
    requires |parts| >= 1
    ensures Join([[c] + parts[0]] + parts[1..], sep) == [c] + Join(parts, sep)
  {
    var moved := [[c] + parts[0]] + parts[1..];
    assert moved[1..] == parts[1..];
  }

  /** Cutting loses nothing: joining the pieces gives the string back. */
  lemma {:induction false} JoinPieces(s: string, sep: char)
    ensures Join(Pieces(s, sep), sep) == s
  {
    if s != [] {
      var rest := Pieces(s[1..], sep);
      JoinPieces(s[1..], sep);
      if s[0] == sep {
        assert ([[]] + rest)[1..] == rest;
      } else {
        JoinPrefixFirst(s[0], rest, sep);
      }
      assert s == [s[0]] + s[1..];
    }
  }

  /** One step of cutting, for a string given as its first character and
      the rest. */
  lemma PiecesCons(c: char, t: string, sep: char)
    ensures Pieces([c] + t, sep) ==
      if c == sep then [[]] + Pieces(t, sep)
      else [[c] + Pieces(t, sep)[0]] + Pieces(t, sep)[1..]
  {
    assert ([c] + t)[1..] == t;
  }

  /** Removes the empty strings at the end of the list. */
  function DropTrailingEmpty(parts: seq<string>): (r: seq<string>)
    ensures r <= parts
    ensures forall i :: |r| <= i < |parts| ==> parts[i] == []
    ensures r == [] || r[|r| - 1] != []
  {
    if parts != [] && parts[|parts| - 1] == [] then DropTrailingEmpty(parts[..|parts| - 1])
    else parts
  }

  /** `s.split(sep)` as Java computes it. */
  function Split(s: string, sep: char): (fields: seq<string>)
    ensures forall i :: 0 <= i < |fields| ==> sep !in fields[i]
  {
    if sep !in s then [s] else DropTrailingEmpty(Pieces(s, sep))
  }

  /** What Java promises of split: without a separator the string is the one
      field; otherwise the fields are the leading pieces, only empty pieces
      were dropped, and the last field kept is not empty. No field holds a
      separator. */
  lemma SplitSpec(s: string, sep: char)
    ensures sep !in s ==> Split(s, sep) == [s]
    ensures sep in s ==>
      var fields, parts := Split(s, sep), Pieces(s, sep);
      && fields <= parts
      && (forall i :: |fields| <= i < |parts| ==> parts[i] == [])
      && (fields == [] || fields[|fields| - 1] != [])
    ensures forall i :: 0 <= i < |Split(s, sep)| ==> sep !in Split(s, sep)[i]
  {
    var parts := Pieces(s, sep);
    if sep in s {
      var fields := Split(s, sep);
      forall i | 0 <= i < |fields| ensures sep !in fields[i] {
        assert fields[i] == parts[i];
      }
    }
  }

  /** Trailing separators are dropped together with the empty fields they
      delimit: "A;;" has one field. */
  lemma TrailingEmptyFieldsDropped()
    ensures Split("A;;", ';') == ["A"]
  {
    var semi, semis := [';'], [';', ';'];
    PiecesCons(';', "", ';');
    assert Pieces(semi, ';') == ["", ""];
    PiecesCons(';', semi, ';');
    assert Pieces(semis, ';') == ["", "", ""];
    PiecesCons('A', semis, ';');
    assert "A;;" == ['A'] + semis;
    assert ['A'] + Pieces(semis, ';')[0] == "A";
    assert Pieces("A;;", ';') == ["A", "", ""];
    assert DropTrailingEmpty(["A", "", ""]) == DropTrailingEmpty(["A", ""]);
  }

  /** A field before a trailing separator is kept. */
  lemma TrailingSeparatorDropped()
    ensures Split("A;1;", ';') == ["A", "1"]
  {
    var semi := [';'];
    PiecesCons(';', "", ';');
    assert Pieces(semi, ';') == ["", ""];
    PiecesCons('1', semi, ';');
    assert ['1'] + "" == "1";
    assert Pieces(['1', ';'], ';') == ["1", ""];
    PiecesCons(';', ['1', ';'], ';');
    assert Pieces([';', '1', ';'], ';') == ["", "1", ""];
    PiecesCons('A', [';', '1', ';'], ';');
    assert ['A'] + "" == "A";
    assert "A;1;" == ['A'] + [';', '1', ';'];
    assert Pieces("A;1;", ';') == ["A", "1", ""];
  }

  /** A line made only of separators has no field at all, while the empty
      line has one empty field and a leading empty field is kept. */
  lemma EmptyFields()
    ensures Split(";;", ';') == []
    ensures Split("", ';') == [""]
    ensures Split(";A", ';') == ["", "A"]
  {
    var semi := [';'];
    PiecesCons(';', "", ';');
    PiecesCons(';', semi, ';');
    assert ";;" == [';'] + semi;
    assert Pieces(";;", ';') == ["", "", ""];
    assert DropTrailingEmpty(["", "", ""]) == DropTrailingEmpty(["", ""]);
    assert DropTrailingEmpty(["", ""]) == DropTrailingEmpty([""]);
    PiecesCons('A', "", ';');
    PiecesCons(';', "A", ';');
    assert ";A" == [';'] + "A" && ";A"[0] == ';';
    assert ['A'] + Pieces("", ';')[0] == "A";
    assert Pieces("A", ';') == ["A"];
    assert Pieces(";A", ';') == ["", "A"];
  }

  /** A piece without separator is one piece. */
  lemma {:induction false} PiecesOfPiece(a: string, sep: char)
    requires sep !in a
    ensures Pieces(a, sep) == [a]
  {
    if a != [] {
      PiecesOfPiece(a[1..], sep);
      assert a == [a[0]] + a[1..];
    }
  }

  /** A leading piece is cut off at the first separator. */
  lemma {:induction false} PiecesOfLeadingPiece(a: string, rest: string, sep: char)
    requires sep !in a
    ensures Pieces(a + [sep] + rest, sep) == [a] + Pieces(rest, sep)
  {
    if a == [] {
      assert a + [sep] + rest == [sep] + rest;
      PiecesCons(sep, rest, sep);
    } else {
      PiecesOfLeadingPiece(a[1..], rest, sep);
      assert a + [sep] + rest == [a[0]] + (a[1..] + [sep] + rest);
      PiecesCons(a[0], a[1..] + [sep] + rest, sep);
      assert [a[0]] + a[1..] == a;
    }
  }

  /** Cutting a joined list gives the list back when no piece holds the
      separator. */
  lemma {:induction false} PiecesOfJoin(parts: seq<string>, sep: char)
    requires |parts| >= 1
    requires forall i :: 0 <= i < |parts| ==> sep !in parts[i]
    ensures Pieces(Join(parts, sep), sep) == parts
    decreases |parts|
  {
    if |parts| == 1 {
      PiecesOfPiece(parts[0], sep);
    } else {
      PiecesOfJoin(parts[1..], sep);
      PiecesOfLeadingPiece(parts[0], Join(parts[1..], sep), sep);
      assert [parts[0]] + parts[1..] == parts;
    }
  }

  /** The round trip of split: fields without separators, joined with it,
      split back into the same fields, provided the last one is not empty
      (Java drops trailing empty fields) or there is only one. */
  lemma SplitOfJoin(parts: seq<string>, sep: char)
    requires |parts| >= 1
    requires forall i :: 0 <= i < |parts| ==> sep !in parts[i]
    requires |parts| == 1 || parts[|parts| - 1] != []
    ensures Split(Join(parts, sep), sep) == parts
  {
    if |parts| == 1 {
      assert Join(parts, sep) == parts[0];
    } else {
      PiecesOfJoin(parts, sep);
      assert sep in Join(parts, sep) by {
        assert Join(parts, sep) == parts[0] + [sep] + Join(parts[1..], sep);
        assert (parts[0] + [sep] + Join(parts[1..], sep))[|parts[0]|] == sep;
      }
    }
  }
}
