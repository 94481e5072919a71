/**
 * The normalised review record both extractors produce. Title and author
 * are optional because the profile extractor can store Python's `None`
 * in them; the feed extractor always fills them.
 */
module Record {
  import opened Opt

  datatype Review = Review(
    title: Option<string>,
    score: int,
    author: Option<string>,
    url: string,
    imageUrl: string,
    userUrl: string,
    username: string,
    userImageUrl: string)
}
