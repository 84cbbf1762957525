/** The catalog's records: a stored content item and the partial form used to
    create and patch one. */
module Models {

  import opened Wrappers

  /** A 128-bit identifier, read as a number. */
  type Guid = x: int | 0 <= x < 0x1_0000_0000_0000_0000_0000_0000_0000_0000

  /** `Guid.Empty`, the all-zero identifier. */
  const EmptyGuid: Guid := 0

  /** A point in time, kept opaque: nothing in the model reads it. */
  datatype DateTime = DateTime(ticks: int)

  /** A content record. Its genre list may be null. */
  datatype Content = Content(
    id: Guid,
    title: string,
    subTitle: string,
    description: string,
    imageUrl: string,
    duration: int,
    startTime: DateTime,
    endTime: DateTime,
    genreList: Option<seq<string>>)

  /** The request form of a record: every field may be absent. */
  datatype ContentDto = ContentDto(
    title: Option<string>,
    subTitle: Option<string>,
    description: Option<string>,
    imageUrl: Option<string>,
    duration: Option<int>,
    startTime: Option<DateTime>,
    endTime: Option<DateTime>,
    genreList: Option<seq<string>>)
  {
    /** The one-argument constructor: only the genre list is given. */
    static function WithGenres(genres: seq<string>): ContentDto
    {
      ContentDto(None, None, None, None, None, None, None, Some(genres))
    }
  }
}
