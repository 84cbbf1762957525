/** The title and genre filters of `ContentsManager.GetFilteredContents`. */
module ContentFilter {

  import opened Wrappers
  import opened Text
  import opened Sequences
  import opened Models
  import opened GenreLists

  /** The one failure of the filter: LINQ's `Any` raises on a record whose
      genre list is null. */
  datatype FilterError = NullGenreList

  /** The title contains `title`, ignoring case. */
  predicate TitleMatches(c: Content, title: string) {
    ContainsIgnoreCase(c.title, title)
  }

  /** The genre list has an entry equal to `genre`, ignoring case. */
  predicate HasGenre(c: Content, genre: string) {
    c.genreList.Some? && Mentions(c.genreList.value, genre)
  }

  /** A record passes the title filter: the filter is blank or matches. */
  predicate PassesTitle(c: Content, title: Option<string>) {
    IsNullOrWhiteSpace(title) || TitleMatches(c, title.value)
  }

  /** A record passes the genre filter: the filter is blank or matches. */
  predicate PassesGenre(c: Content, genre: Option<string>) {
    IsNullOrWhiteSpace(genre) || HasGenre(c, genre.value)
  }

  /** The test `TitleMatches` as a `Where` predicate. Named once so that
      every use denotes the same function. */
  function MatchingTitle(title: string): Content -> bool {
    c => TitleMatches(c, title)
  }

  /** The test `HasGenre` as a `Where` predicate. */
  function HavingGenre(genre: string): Content -> bool {
    c => HasGenre(c, genre)
  }

  /** The tests `PassesTitle` and `PassesGenre` at once, as a `Where`
      predicate. */
  function PassingBoth(title: Option<string>, genre: Option<string>): Content -> bool {
    c => PassesTitle(c, title) && PassesGenre(c, genre)
  }

  /** The test `PassesTitle` as a `Where` predicate. */
  function PassingTitle(title: Option<string>): Content -> bool {
    c => PassesTitle(c, title)
  }

  /** The scan after the title step: unchanged for a blank title. */
  function ByTitle(all: seq<Content>, title: Option<string>): seq<Content> {
    if IsNullOrWhiteSpace(title) then all else Where(all, MatchingTitle(title.value))
  }

  /** The records of a full scan that pass the filters: an empty scan gives
      nothing; a non-blank title keeps the records whose title contains it; a
      non-blank genre then keeps the records listing it. */
  function GetFilteredContents(all: seq<Content>, title: Option<string>, genre: Option<string>)
    : Result<seq<Content>, FilterError>
  {
    if |all| == 0 then Success([])
    else
      var byTitle := ByTitle(all, title);
      if IsNullOrWhiteSpace(genre) then Success(byTitle)
      else if exists c :: c in byTitle && c.genreList.None? then Failure(NullGenreList)
      else Success(Where(byTitle, HavingGenre(genre.value)))
  }

  /** The title step keeps exactly the title-passing records. */
  lemma ByTitleSpec(all: seq<Content>, title: Option<string>)
    ensures ByTitle(all, title) == Where(all, PassingTitle(title))
    ensures forall c :: c in ByTitle(all, title) <==> c in all && PassesTitle(c, title)
  {
    if IsNullOrWhiteSpace(title) {
      WhereKeepsAll(all, PassingTitle(title));
    } else {
      WhereExtensional(all, MatchingTitle(title.value), PassingTitle(title));
    }
    var r := ByTitle(all, title);
    forall c ensures c in r <==> c in all && PassesTitle(c, title) {
      if c in all && PassesTitle(c, title) {
        var i :| 0 <= i < |all| && all[i] == c;
        assert PassingTitle(title)(all[i]);
      }
      if c in r {
        var i :| 0 <= i < |r| && r[i] == c;
        assert PassingTitle(title)(r[i]);
      }
    }
  }

  /** The filter fails exactly when the scan is not empty, a genre filter is
      given and a record that passes the title filter has a null genre list. */
  lemma GetFilteredContentsFails(all: seq<Content>, title: Option<string>, genre: Option<string>)
    ensures all == [] ==> GetFilteredContents(all, title, genre) == Success([])
    ensures GetFilteredContents(all, title, genre).Failure?
            <==> all != [] && !IsNullOrWhiteSpace(genre)
                 && exists c :: c in all && PassesTitle(c, title) && c.genreList.None?
  {
    ByTitleSpec(all, title);
  }

  /** A successful filter keeps, in scan order, exactly what the conjunction
      of the two filters keeps. */
  lemma GetFilteredContentsSpec(all: seq<Content>, title: Option<string>, genre: Option<string>)
    requires GetFilteredContents(all, title, genre).Success?
    ensures GetFilteredContents(all, title, genre).value == Where(all, PassingBoth(title, genre))
  {
    if all != [] {
      ByTitleSpec(all, title);
      if IsNullOrWhiteSpace(genre) {
        WhereExtensional(all, PassingTitle(title), PassingBoth(title, genre));
      } else {
        var g := HavingGenre(genre.value);
        assert GetFilteredContents(all, title, genre) == Success(Where(ByTitle(all, title), g));
        WhereComposes(all, PassingTitle(title), g);
        WhereExtensional(all, And(PassingTitle(title), g), PassingBoth(title, genre));
      }
    }
  }

  /** What a caller sees of a successful filter: an order-preserving
      selection from the scan holding exactly the records that pass both
      filters. */
  lemma FilteredRecordsPassBothFilters(all: seq<Content>, title: Option<string>, genre: Option<string>)
    requires GetFilteredContents(all, title, genre).Success?
    ensures IsSubsequence(GetFilteredContents(all, title, genre).value, all)
    ensures forall c :: c in GetFilteredContents(all, title, genre).value
                        <==> c in all && PassesTitle(c, title) && PassesGenre(c, genre)
  {
    GetFilteredContentsSpec(all, title, genre);
    WhereIsSubsequence(all, PassingBoth(title, genre));
    var r := Where(all, PassingBoth(title, genre));
    forall c ensures c in r <==> c in all && PassesTitle(c, title) && PassesGenre(c, genre) {
      if c in all && PassesTitle(c, title) && PassesGenre(c, genre) {
        var i :| 0 <= i < |all| && all[i] == c;
        assert PassingBoth(title, genre)(all[i]);
      }
      if c in r {
        var i :| 0 <= i < |r| && r[i] == c;
        assert PassingBoth(title, genre)(r[i]);
      }
    }
  }

  /** No two records of `s` share an identifier. */
  predicate DistinctIds(s: seq<Content>) {
    forall i, j :: 0 <= i < j < |s| ==> s[i].id != s[j].id
  }

  /** Deleting records from a list with distinct identifiers keeps them
      distinct. */
  lemma {:induction false} SubsequenceKeepsDistinctIds(a: seq<Content>, b: seq<Content>)
    requires IsSubsequence(a, b) && DistinctIds(b)
    ensures DistinctIds(a)
    decreases |b|
  {
    if a != [] {
      var a', b' := a[..|a| - 1], b[..|b| - 1];
      assert DistinctIds(b') by {
        forall i, j | 0 <= i < j < |b'|
          ensures b'[i].id != b'[j].id
        {
          assert b'[i] == b[i] && b'[j] == b[j];
        }
      }
      if a[|a| - 1] == b[|b| - 1] {
        SubsequenceKeepsDistinctIds(a', b');
        SubsequenceMembers(a', b');
        forall i, j | 0 <= i < j < |a|
          ensures a[i].id != a[j].id
        {
          assert a[i] == a'[i];
          if j == |a| - 1 {
            var k :| 0 <= k < |b'| && b'[k] == a'[i];
            assert b[k] == b'[k];
          } else {
            assert a[j] == a'[j];
          }
        }
      } else {
        SubsequenceKeepsDistinctIds(a, b');
      }
    }
  }

  /** A scan with distinct identifiers gives a filtered result with distinct
      identifiers: no record is listed twice. */
  lemma FilteredRecordsHaveDistinctIds(all: seq<Content>, title: Option<string>, genre: Option<string>)
    requires DistinctIds(all)
    requires GetFilteredContents(all, title, genre).Success?
    ensures DistinctIds(GetFilteredContents(all, title, genre).value)
  {
    FilteredRecordsPassBothFilters(all, title, genre);
    SubsequenceKeepsDistinctIds(GetFilteredContents(all, title, genre).value, all);
  }

  /** A blank title and a blank genre filter nothing out. */
  lemma BlankFiltersKeepEverything(all: seq<Content>, title: Option<string>, genre: Option<string>)
    requires IsNullOrWhiteSpace(title) && IsNullOrWhiteSpace(genre)
    ensures GetFilteredContents(all, title, genre) == Success(all)
  {
  }
}
