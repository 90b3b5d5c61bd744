/** The saved items the application shows. */
module Content {

  /** The closed set of content types a card can have. */
  datatype ContentType = YouTube | Twitter | Document

  /** The string stored in a card's `type` field. */
  function TypeName(t: ContentType): string {
    match t
    case YouTube => "youtube"
    case Twitter => "twitter"
    case Document => "document"
  }

  /** One saved bookmark. A missing description is the empty string, which
      the card renders the same way. Of each tag record only its name is
      kept; no operation here reads a card's tags. */
  datatype Card = Card(
    id: string,
    title: string,
    kind: ContentType,
    link: string,
    description: string,
    tags: seq<string>)
}
