/** The contents manager: catalog operations over the store, the genre edits
    and the filtered scan. */
module Managers {

  import opened Wrappers
  import opened Text
  import opened Models
  import opened GenreLists
  import opened ContentFilter
  import opened Database

  class ContentsManager {
    const database: FastDatabase

    constructor (database: FastDatabase)
      ensures this.database == database
    {
      this.database := database;
    }

    /** The deprecated full scan. */
    method GetManyContents() returns (r: seq<Content>)
      requires database.Valid()
      ensures |r| == |database.table|
      ensures forall c :: c in r <==> c in database.table.Values
      ensures forall i, j :: 0 <= i < j < |r| ==> r[i].id != r[j].id
    {
      r := database.ReadAll();
    }

    /** The stored records passing the title and genre filters: nothing from
        an empty store, a failure when a genre filter meets a null genre list,
        otherwise exactly the records passing both filters. */
    method GetFilteredContents(title: Option<string>, genre: Option<string>)
      returns (r: Result<seq<Content>, FilterError>)
      requires database.Valid()
      ensures |database.table| == 0 ==> r == Success([])
      ensures r.Failure? <==> !IsNullOrWhiteSpace(genre)
                              && exists c :: c in database.table.Values && PassesTitle(c, title) && c.genreList.None?
      ensures r.Success? ==> forall c :: c in r.value
                                         <==> c in database.table.Values && PassesTitle(c, title) && PassesGenre(c, genre)
      ensures r.Success? ==> forall i, j :: 0 <= i < j < |r.value| ==> r.value[i].id != r.value[j].id
    {
      var all := database.ReadAll();
      r := ContentFilter.GetFilteredContents(all, title, genre);
      GetFilteredContentsFails(all, title, genre);
      if r.Success? {
        FilteredRecordsPassBothFilters(all, title, genre);
        FilteredRecordsHaveDistinctIds(all, title, genre);
      }
    }

    method CreateContent(item: ContentDto, id: Guid) returns (r: Option<Content>)
      requires database.Valid() && id !in database.table
      modifies database
      ensures database.Valid() && database.updateCalls == old(database.updateCalls)
      ensures r == database.mapper.Map(id, item)
      ensures r.Some? ==> database.table == old(database.table)[id := r.value]
      ensures r.None? ==> database.table == old(database.table)
    {
      r := database.Create(item, id);
    }

    method GetContent(id: Guid) returns (r: Option<Content>)
      requires database.Valid()
      ensures r.Some? <==> id in database.table
      ensures r.Some? ==> r.value == database.table[id]
    {
      r := database.Read(id);
    }

    method UpdateContent(id: Guid, item: ContentDto) returns (r: Option<Content>)
      requires database.Valid()
      modifies database
      ensures database.Valid() && database.updateCalls == old(database.updateCalls) + 1
      ensures id !in old(database.table) ==> r.None?
      ensures id in old(database.table) ==> r == database.mapper.Patch(old(database.table)[id], item)
      ensures r.Some? ==> database.table == old(database.table)[id := r.value]
      ensures r.None? ==> database.table == old(database.table)
    {
      r := database.Update(id, item);
    }

    method DeleteContent(id: Guid) returns (r: Guid)
      requires database.Valid()
      modifies database
      ensures database.Valid() && database.updateCalls == old(database.updateCalls)
      ensures id !in old(database.table) ==> r == EmptyGuid && database.table == old(database.table)
      ensures id in old(database.table) ==> r == id && database.table == old(database.table) - {id}
    {
      r := database.Delete(id);
    }

    /** Reads the record; when there is none, returns nothing without calling
        `Update`. Otherwise writes back, through `Update`, its genres (none
        when null) followed by `genres`, with case duplicates removed. */
    method AddGenres(id: Guid, genres: seq<string>) returns (r: Option<Content>)
      requires database.Valid()
      modifies database
      ensures database.Valid()
      ensures id !in old(database.table) ==> r.None? && database.updateCalls == old(database.updateCalls)
      ensures id in old(database.table) ==>
                var existing := old(database.table)[id];
                var merged := MergeGenres(existing.genreList.GetOr([]), genres);
                && database.updateCalls == old(database.updateCalls) + 1
                && r == database.mapper.Patch(existing, ContentDto.WithGenres(merged))
      ensures r.Some? ==> database.table == old(database.table)[id := r.value]
      ensures r.None? ==> database.table == old(database.table)
    {
      var existing := database.Read(id);
      if existing.None? {
        return existing;
      }
      var existingGenres := existing.value.genreList.GetOr([]);
      var dto := ContentDto.WithGenres(MergeGenres(existingGenres, genres));
      r := database.Update(id, dto);
    }

    /** Reads the record; when there is none or its genre list is null,
        returns what was read without calling `Update`. Otherwise writes back,
        through `Update`, its genres without those matching any of `genres`. */
    method RemoveGenres(id: Guid, genres: seq<string>) returns (r: Option<Content>)
      requires database.Valid()
      modifies database
      ensures database.Valid()
      ensures id !in old(database.table) ==> r.None? && database.updateCalls == old(database.updateCalls)
      ensures id in old(database.table) && old(database.table)[id].genreList.None? ==>
                r == Some(old(database.table)[id]) && database.updateCalls == old(database.updateCalls)
      ensures id in old(database.table) && old(database.table)[id].genreList.Some? ==>
                var existing := old(database.table)[id];
                var kept := WithoutGenres(existing.genreList.value, genres);
                && database.updateCalls == old(database.updateCalls) + 1
                && r == database.mapper.Patch(existing, ContentDto.WithGenres(kept))
      ensures r.Some? ==> database.table == old(database.table)[id := r.value]
      ensures r.None? ==> database.table == old(database.table)
    {
      var existing := database.Read(id);
      if existing.None? || existing.value.genreList.None? {
        return existing;
      }
      var current := existing.value.genreList.value;
      var list := new string[|current|](i requires 0 <= i < |current| => current[i]);
      assert list[..] == current;
      var count := RemoveAll(list, genres);
      r := database.Update(id, ContentDto.WithGenres(list[..count]));
    }
  }
}
