/** The genre-list algebra of the contents manager: lists treated as
    case-insensitive sets that keep their insertion order. */
module GenreLists {

  import opened Text
  import opened Sequences

  /** Some entry of `genres` equals `g` ignoring case. */
  predicate Mentions(genres: seq<string>, g: string) {
    exists i :: 0 <= i < |genres| && EqualsIgnoreCase(genres[i], g)
  }

  /** No two entries of `genres` are equal ignoring case. */
  predicate NoCaseDuplicates(genres: seq<string>) {
    forall i, j :: 0 <= i < j < |genres| ==> !EqualsIgnoreCase(genres[i], genres[j])
  }

  lemma MentionsAppend(a: seq<string>, b: seq<string>, g: string)
    ensures Mentions(a + b, g) <==> Mentions(a, g) || Mentions(b, g)
  {
    if Mentions(a + b, g) {
      var i :| 0 <= i < |a + b| && EqualsIgnoreCase((a + b)[i], g);
      if i >= |a| {
        assert EqualsIgnoreCase(b[i - |a|], g);
      }
    }
    if Mentions(a, g) {
      var i :| 0 <= i < |a| && EqualsIgnoreCase(a[i], g);
      assert (a + b)[i] == a[i];
    }
    if Mentions(b, g) {
      var i :| 0 <= i < |b| && EqualsIgnoreCase(b[i], g);
      assert (a + b)[|a| + i] == b[i];
    }
  }

  /** LINQ `Distinct` under an ignore-case comparer: each entry is kept unless
      an earlier kept entry equals it ignoring case, so the first occurrence
      wins and the order is kept. */
  function Distinct(genres: seq<string>): (r: seq<string>)
    ensures NoCaseDuplicates(r)
    decreases |genres|
  {
    if genres == [] then []
    else
      var d := Distinct(genres[..|genres| - 1]);
      if Mentions(d, genres[|genres| - 1]) then d else d + [genres[|genres| - 1]]
  }

  /** `Distinct` only deletes entries. */
  lemma {:induction false} DistinctIsSubsequence(genres: seq<string>)
    ensures IsSubsequence(Distinct(genres), genres)
    decreases |genres|
  {
    if genres != [] {
      var rest, last := genres[..|genres| - 1], genres[|genres| - 1];
      assert genres == rest + [last];
      var d := Distinct(rest);
      DistinctIsSubsequence(rest);
      if Mentions(d, last) {
        SubsequenceAppendRight(d, rest, last);
      } else {
        SubsequenceAppendBoth(d, rest, last);
      }
    }
  }

  /** `Distinct` mentions exactly the genres its input mentions. */
  lemma {:induction false} DistinctMentions(genres: seq<string>, g: string)
    ensures Mentions(Distinct(genres), g) <==> Mentions(genres, g)
    decreases |genres|
  {
    if genres != [] {
      var rest, last := genres[..|genres| - 1], genres[|genres| - 1];
      assert genres == rest + [last];
      var d := Distinct(rest);
      DistinctMentions(rest, g);
      MentionsAppend(rest, [last], g);
      MentionsAppend(d, [last], g);
      assert Mentions([last], g) <==> EqualsIgnoreCase(last, g) by {
        assert [last][0] == last;
      }
      if Mentions(d, last) && EqualsIgnoreCase(last, g) {
        var i :| 0 <= i < |d| && EqualsIgnoreCase(d[i], last);
        assert EqualsIgnoreCase(d[i], g);
      }
    }
  }

  /** A list without case duplicates is its own `Distinct`. */
  lemma {:induction false} DistinctOfDuplicateFree(genres: seq<string>)
    requires NoCaseDuplicates(genres)
    ensures Distinct(genres) == genres
    decreases |genres|
  {
    if genres != [] {
      var rest, last := genres[..|genres| - 1], genres[|genres| - 1];
      assert NoCaseDuplicates(rest) by {
        forall i, j | 0 <= i < j < |rest|
          ensures !EqualsIgnoreCase(rest[i], rest[j])
        {
          assert rest[i] == genres[i] && rest[j] == genres[j];
        }
      }
      DistinctOfDuplicateFree(rest);
      assert !Mentions(rest, last) by {
        forall i | 0 <= i < |rest|
          ensures !EqualsIgnoreCase(rest[i], last)
        {
          assert rest[i] == genres[i];
        }
      }
      assert genres == rest + [last];
    }
  }

  /** One more entry at the end only ever extends `Distinct`. */
  lemma DistinctGrows(genres: seq<string>)
    requires genres != []
    ensures Distinct(genres[..|genres| - 1]) <= Distinct(genres)
  {
  }

  /** The prefix order on lists is transitive. */
  lemma PrefixTransitive(x: seq<string>, y: seq<string>, z: seq<string>)
    requires x <= y && y <= z
    ensures x <= z
  {
  }

  /** `Distinct` of a prefix is a prefix of `Distinct`: what comes first keeps
      its place whatever follows. */
  lemma {:induction false} DistinctKeepsPrefix(a: seq<string>, b: seq<string>)
    ensures Distinct(a) <= Distinct(a + b)
    decreases |b|
  {
    if b == [] {
      assert a + b == a;
    } else {
      var b', s := b[..|b| - 1], a + b;
      var d0, d1, d2 := Distinct(a), Distinct(a + b'), Distinct(s);
      DistinctKeepsPrefix(a, b');
      assert d0 <= d1;
      assert s[..|s| - 1] == a + b';
      DistinctGrows(s);
      assert d1 <= d2;
      PrefixTransitive(d0, d1, d2);
    }
  }

  /** Appending entries that are all already mentioned changes nothing. */
  lemma {:induction false} DistinctAbsorbs(m: seq<string>, added: seq<string>)
    requires NoCaseDuplicates(m)
    requires forall i :: 0 <= i < |added| ==> Mentions(m, added[i])
    ensures Distinct(m + added) == m
    decreases |added|
  {
    if added == [] {
      assert m + added == m;
      DistinctOfDuplicateFree(m);
    } else {
      var a' := added[..|added| - 1];
      DistinctAbsorbs(m, a');
      assert (m + added)[..|m + added| - 1] == m + a';
    }
  }

  /** The genre list `AddGenres` writes: the existing entries followed by the
      new ones, with case duplicates removed. */
  function MergeGenres(existing: seq<string>, added: seq<string>): seq<string> {
    Distinct(existing + added)
  }

  /** What the merged list is: free of case duplicates, the existing entries
      (deduplicated) first in their order, every existing and added genre
      represented and nothing else, all drawn in order from the input. */
  lemma MergeGenresSpec(existing: seq<string>, added: seq<string>)
    ensures NoCaseDuplicates(MergeGenres(existing, added))
    ensures Distinct(existing) <= MergeGenres(existing, added)
    ensures NoCaseDuplicates(existing) ==> existing <= MergeGenres(existing, added)
    ensures forall g :: Mentions(MergeGenres(existing, added), g) <==> Mentions(existing, g) || Mentions(added, g)
    ensures IsSubsequence(MergeGenres(existing, added), existing + added)
  {
    DistinctKeepsPrefix(existing, added);
    DistinctIsSubsequence(existing + added);
    if NoCaseDuplicates(existing) {
      DistinctOfDuplicateFree(existing);
    }
    forall g
      ensures Mentions(MergeGenres(existing, added), g) <==> Mentions(existing, g) || Mentions(added, g)
    {
      MentionsAppend(existing, added, g);
      DistinctMentions(existing + added, g);
    }
  }

  /** Merging the same genres a second time leaves the list unchanged. */
  lemma MergeGenresIdempotent(existing: seq<string>, added: seq<string>)
    ensures MergeGenres(MergeGenres(existing, added), added) == MergeGenres(existing, added)
  {
    var m := MergeGenres(existing, added);
    forall i | 0 <= i < |added|
      ensures Mentions(m, added[i])
    {
      MentionsAppend(existing, added, added[i]);
      DistinctMentions(existing + added, added[i]);
      assert EqualsIgnoreCase(added[i], added[i]);
    }
    DistinctAbsorbs(m, added);
  }

  /** The list `RemoveGenres` writes: the entries that match no given genre,
      in their order. */
  function WithoutGenres(genres: seq<string>, removed: seq<string>): seq<string> {
    Where(genres, Survives(removed))
  }

  /** An entry survives removal when it matches no removed genre. */
  function Survives(removed: seq<string>): string -> bool {
    g => !Mentions(removed, g)
  }

  /** What the list after removal is: exactly the entries matching no removed
      genre, each as often as in the original, in their original order. */
  lemma WithoutGenresSpec(genres: seq<string>, removed: seq<string>)
    ensures forall g :: g in WithoutGenres(genres, removed) <==> g in genres && !Mentions(removed, g)
    ensures forall g :: multiset(WithoutGenres(genres, removed))[g]
                        == if Mentions(removed, g) then 0 else multiset(genres)[g]
    ensures IsSubsequence(WithoutGenres(genres, removed), genres)
  {
    WhereIsSubsequence(genres, Survives(removed));
    WhereCount(genres, Survives(removed));
    forall g
      ensures multiset(WithoutGenres(genres, removed))[g]
              == if Mentions(removed, g) then 0 else multiset(genres)[g]
    {
      assert Survives(removed)(g) == !Mentions(removed, g);
    }
    var r := WithoutGenres(genres, removed);
    forall g ensures g in r <==> g in genres && !Mentions(removed, g) {
      if g in genres && !Mentions(removed, g) {
        var i :| 0 <= i < |genres| && genres[i] == g;
        assert Survives(removed)(genres[i]);
      }
      if g in r {
        var i :| 0 <= i < |r| && r[i] == g;
        assert Survives(removed)(r[i]);
      }
    }
  }

  /** Deleting entries from a list without case duplicates leaves none. */
  lemma {:induction false} SubsequenceKeepsNoCaseDuplicates(a: seq<string>, b: seq<string>)
    requires IsSubsequence(a, b) && NoCaseDuplicates(b)
    ensures NoCaseDuplicates(a)
    decreases |b|
  {
    if a != [] {
      var a', b' := a[..|a| - 1], b[..|b| - 1];
      assert NoCaseDuplicates(b') by {
        forall i, j | 0 <= i < j < |b'|
          ensures !EqualsIgnoreCase(b'[i], b'[j])
        {
          assert b'[i] == b[i] && b'[j] == b[j];
        }
      }
      if a[|a| - 1] == b[|b| - 1] {
        SubsequenceKeepsNoCaseDuplicates(a', b');
        SubsequenceMembers(a', b');
        forall i, j | 0 <= i < j < |a|
          ensures !EqualsIgnoreCase(a[i], a[j])
        {
          assert a[i] == a'[i];
          if j == |a| - 1 {
            var k :| 0 <= k < |b'| && b'[k] == a'[i];
            assert b[k] == b'[k];
          } else {
            assert a[j] == a'[j];
          }
        }
      } else {
        SubsequenceKeepsNoCaseDuplicates(a, b');
      }
    }
  }

  /** Removing genres from a list without case duplicates gives a list
      without case duplicates. */
  lemma RemovalKeepsNoCaseDuplicates(genres: seq<string>, removed: seq<string>)
    requires NoCaseDuplicates(genres)
    ensures NoCaseDuplicates(WithoutGenres(genres, removed))
  {
    WithoutGenresSpec(genres, removed);
    SubsequenceKeepsNoCaseDuplicates(WithoutGenres(genres, removed), genres);
  }

  /** Removing genres that no entry matches leaves the list as it was. */
  lemma WithoutAbsentGenres(genres: seq<string>, removed: seq<string>)
    requires forall i :: 0 <= i < |genres| ==> !Mentions(removed, genres[i])
    ensures WithoutGenres(genres, removed) == genres
  {
    WhereKeepsAll(genres, Survives(removed));
  }

  /** Removing a genre just added to a list that did not mention it restores
      the list. */
  lemma RemoveUndoesAdd(existing: seq<string>, g: string)
    requires NoCaseDuplicates(existing) && !Mentions(existing, g)
    ensures WithoutGenres(MergeGenres(existing, [g]), [g]) == existing
  {
    assert NoCaseDuplicates(existing + [g]);
    DistinctOfDuplicateFree(existing + [g]);
    forall i | 0 <= i < |existing|
      ensures !Mentions([g], existing[i])
    {
      if Mentions([g], existing[i]) {
        assert EqualsIgnoreCase(existing[i], g);
      }
    }
    WithoutAbsentGenres(existing, [g]);
    assert (existing + [g])[..|existing|] == existing;
    assert Mentions([g], g) by {
      assert EqualsIgnoreCase([g][0], g);
    }
  }

  /** Adding "Genre2" to ["Genre1"] gives ["Genre1", "Genre2"]. */
  lemma MergeGenresExample()
    ensures MergeGenres(["Genre1"], ["Genre2"]) == ["Genre1", "Genre2"]
  {
    assert Fold("Genre1")[5] != Fold("Genre2")[5];
    assert NoCaseDuplicates(["Genre1", "Genre2"]);
    DistinctOfDuplicateFree(["Genre1", "Genre2"]);
    assert ["Genre1"] + ["Genre2"] == ["Genre1", "Genre2"];
  }

  /** Adding "drama" and "Comedy" to ["Drama"] keeps the stored casing of
      "Drama" and appends "Comedy". */
  lemma MergeGenresKeepsFirstCasing()
    ensures MergeGenres(["Drama"], ["drama", "Comedy"]) == ["Drama", "Comedy"]
  {
    var s := ["Drama"] + ["drama", "Comedy"];
    assert s == ["Drama", "drama", "Comedy"];
    assert s[..2] == ["Drama", "drama"];
    assert s[..1] == ["Drama"];
    assert s[..1][..0] == [];
    assert EqualsIgnoreCase("Drama", "drama");
    assert Distinct(["Drama"]) == ["Drama"];
    assert Mentions(["Drama"], "drama") by {
      assert EqualsIgnoreCase(["Drama"][0], "drama");
    }
    assert Distinct(s[..2]) == ["Drama"];
    assert |Fold("Drama")| != |Fold("Comedy")|;
    assert !Mentions(["Drama"], "Comedy");
  }

  /** Removing "Genre2" from ["Genre1", "Genre2"] gives ["Genre1"]. */
  lemma WithoutGenresExample()
    ensures WithoutGenres(["Genre1", "Genre2"], ["Genre2"]) == ["Genre1"]
  {
    var s := ["Genre1", "Genre2"];
    assert Fold("Genre1")[5] != Fold("Genre2")[5];
    assert !Mentions(["Genre2"], "Genre1");
    assert Mentions(["Genre2"], "Genre2") by {
      assert EqualsIgnoreCase(["Genre2"][0], "Genre2");
    }
    assert s[..1] == ["Genre1"];
    WhereStep([], "Genre1", Survives(["Genre2"]));
    WhereStep(["Genre1"], "Genre2", Survives(["Genre2"]));
  }

  /** `List.RemoveAll` on a list filling all of `a`: the entries matching
      no removed genre are moved to the front in their order, and their number
      `count` is returned; the list is then the first `count` cells. */
  method RemoveAll(a: array<string>, removed: seq<string>) returns (count: nat)
    modifies a
    ensures count <= a.Length
    ensures a[..count] == WithoutGenres(old(a[..]), removed)
  {
    ghost var original := a[..];
    count := 0;
    var i := 0;
    while i < a.Length
      invariant count <= i <= a.Length
      invariant a[..count] == WithoutGenres(original[..i], removed)
      invariant forall k :: i <= k < a.Length ==> a[k] == original[k]
    {
      ghost var kept := a[..count];
      assert original[..i + 1] == original[..i] + [original[i]];
      WhereStep(original[..i], original[i], Survives(removed));
      if !Mentions(removed, a[i]) {
        a[count] := a[i];
        assert a[..count + 1] == kept + [original[i]];
        count := count + 1;
      }
      i := i + 1;
    }
    assert original[..a.Length] == original;
  }
}
