/**
 * The page a feed request answers with: the link it was asked for, its entries, and the
 * previous/next links set once the entries are known.
 */
module SearchResponse {
  import opened Domain
  import opened Paging

  const Author := "FreeSHR"
  const Title := "Encounters"

  class EncounterSearchResponse<T> {
    var requestUrl: FeedLink
    var author: string
    var title: string
    var nextUrl: Option<FeedLink>
    var prevUrl: Option<FeedLink>
    var entries: seq<T>

    /** Every page is authored by FreeSHR and titled Encounters. */
    predicate Valid()
      reads this
    {
      author == Author && title == Title
    }

    /** The request link and entries are stored unchanged; no navigation links yet. */
    constructor (requestUrl: FeedLink, entries: seq<T>)
      ensures Valid()
      ensures this.requestUrl == requestUrl && this.entries == entries
      ensures nextUrl == None && prevUrl == None
    {
      this.requestUrl := requestUrl;
      this.entries := entries;
      author, title := Author, Title;
      nextUrl, prevUrl := None, None;
    }

    /** setNavLinks: sets both links and nothing else. */
    method SetNavLinks(prevResultUrl: Option<FeedLink>, nextResultUrl: Option<FeedLink>)
      modifies this
      ensures prevUrl == prevResultUrl && nextUrl == nextResultUrl
      ensures requestUrl == old(requestUrl) && entries == old(entries)
      ensures author == old(author) && title == old(title)
      ensures old(Valid()) ==> Valid()
    {
      prevUrl := prevResultUrl;
      nextUrl := nextResultUrl;
    }
  }
}
