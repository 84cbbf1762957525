/** The column conversion of a record's genre list: written as the entries
    joined by commas, read back by splitting at every comma, empty pieces
    kept. */
module GenreListConversion {

  const Separator: char := ','

  /** `string.Join(',', genres)`. */
  function Write(genres: seq<string>): string
    decreases |genres|
  {
    if |genres| == 0 then ""
    else if |genres| == 1 then genres[0]
    else genres[0] + [Separator] + Write(genres[1..])
  }

  /** `s.Split(',', StringSplitOptions.None)`: the pieces between commas,
      empty ones included; never an empty list. */
  function Read(s: string): (genres: seq<string>)
    ensures |genres| >= 1
    decreases |s|
  {
    if |s| == 0 then [""]
    else
      var rest := Read(s[1..]);
      if s[0] == Separator then [""] + rest
      else [[s[0]] + rest[0]] + rest[1..]
  }

  /** How many times `c` occurs in `s`. */
  function Count(s: string, c: char): nat
    decreases |s|
  {
    if |s| == 0 then 0 else (if s[0] == c then 1 else 0) + Count(s[1..], c)
  }

  /** Reading gives one piece more than there are commas. */
  lemma {:induction false} ReadPieceCount(s: string)
    ensures |Read(s)| == Count(s, Separator) + 1
    decreases |s|
  {
    if |s| > 0 {
      ReadPieceCount(s[1..]);
    }
  }

  /** No piece read back contains a comma. */
  lemma {:induction false} ReadPiecesHaveNoSeparator(s: string)
    ensures forall i :: 0 <= i < |Read(s)| ==> Separator !in Read(s)[i]
    decreases |s|
  {
    if |s| > 0 {
      ReadPiecesHaveNoSeparator(s[1..]);
      var rest := Read(s[1..]);
      if s[0] != Separator {
        assert Separator !in [s[0]] + rest[0];
      }
    }
  }

  /** Reading then writing gives back any stored string. */
  lemma {:induction false} WriteRead(s: string)
    ensures Write(Read(s)) == s
    decreases |s|
  {
    if |s| > 0 {
      var rest := Read(s[1..]);
      WriteRead(s[1..]);
      if s[0] == Separator {
        assert ([""] + rest)[1..] == rest;
        assert s == [s[0]] + s[1..];
      } else {
        var r := [[s[0]] + rest[0]] + rest[1..];
        assert r[1..] == rest[1..];
        assert s == [s[0]] + s[1..];
      }
    }
  }

  /** A comma-free first piece is read off up to the first comma. */
  lemma {:induction false} ReadPiece(piece: string, tail: string)
    requires Separator !in piece
    ensures Read(piece + [Separator] + tail) == [piece] + Read(tail)
    ensures Read(piece) == [piece]
    decreases |piece|
  {
    if |piece| > 0 {
      ReadPiece(piece[1..], tail);
      assert (piece + [Separator] + tail)[1..] == piece[1..] + [Separator] + tail;
      assert [piece[0]] + piece[1..] == piece;
    } else {
      assert piece + [Separator] + tail == [Separator] + tail;
    }
  }

  /** Writing then reading gives back any non-empty list whose entries hold
      no comma. */
  lemma {:induction false} ReadWrite(genres: seq<string>)
    requires |genres| >= 1
    requires forall i :: 0 <= i < |genres| ==> Separator !in genres[i]
    ensures Read(Write(genres)) == genres
    decreases |genres|
  {
    if |genres| == 1 {
      ReadPiece(genres[0], "");
    } else {
      ReadWrite(genres[1..]);
      ReadPiece(genres[0], Write(genres[1..]));
      assert genres == [genres[0]] + genres[1..];
    }
  }

  /** A list survives a write and a read exactly when it is not empty and
      none of its entries holds a comma. */
  lemma RoundTripExactly(genres: seq<string>)
    ensures Read(Write(genres)) == genres
            <==> |genres| >= 1 && forall i :: 0 <= i < |genres| ==> Separator !in genres[i]
  {
    if |genres| >= 1 && forall i :: 0 <= i < |genres| ==> Separator !in genres[i] {
      ReadWrite(genres);
    } else {
      ReadPiecesHaveNoSeparator(Write(genres));
    }
  }

  /** The empty list does not survive a write and a read: it comes back as
      one empty genre. */
  lemma EmptyListReadsBackAsOneEmptyGenre()
    ensures Write([]) == ""
    ensures Read(Write([])) == [""]
  {
  }

  /** The entry "Sci,Fi" comes back as the two entries "Sci" and "Fi". */
  lemma EmbeddedSeparatorSplitsEntry()
    ensures Read(Write(["Sci,Fi"])) == ["Sci", "Fi"]
  {
    ReadPiece("Sci", "Fi");
    ReadPiece("Fi", "");
    assert "Sci" + [Separator] + "Fi" == "Sci,Fi";
  }
}
