/** Link rewriting for embedded content: YouTube watch pages become embed
    URLs and `x.com` links are sent to `twitter.com` for the tweet widget.
    Both are `String.prototype.replace` with a string pattern, so only the
    first occurrence changes. */
module Links {
  import opened Options
  import opened JsStrings
  import opened Content

  const WatchPrefix := "https://www.youtube.com/watch?v="
  const EmbedPrefix := "https://www.youtube.com/embed/"

  /** `createYouTubeEmbedLink` */
  function YouTubeEmbedLink(link: string): string {
    ReplaceFirst(link, WatchPrefix, EmbedPrefix)
  }

  /** The tweet anchor's href. */
  function TwitterHref(link: string): string {
    ReplaceFirst(link, "x.com", "twitter.com")
  }

  /** A watch URL becomes the embed URL of the same video id, whatever the id
      contains: only the leading watch prefix is rewritten. */
  lemma EmbedOfWatchLink(id: string)
    ensures YouTubeEmbedLink(WatchPrefix + id) == EmbedPrefix + id
  {
    var link := WatchPrefix + id;
    assert link[0..|WatchPrefix|] == WatchPrefix;
    ReplaceFirstAt(link, WatchPrefix, EmbedPrefix, 0);
    assert link[..0] == [];
    assert link[|WatchPrefix|..] == id;
  }

  /** A link without the watch prefix is used as it is. */
  lemma EmbedKeepsOtherLinks(link: string)
    requires !Contains(link, WatchPrefix)
    ensures YouTubeEmbedLink(link) == link
  {
  }

  /** The first occurrence of "x.com" in an `x.com` post link is its host. */
  lemma XHostFirst(link: string, path: string)
    requires link == "https://x.com/" + path
    ensures OccursAt(link, "x.com", 8)
    ensures forall j: nat :: j < 8 ==> !OccursAt(link, "x.com", j)
  {
    assert link[..8] == "https://";
    assert link[8..13] == "x.com";
    forall j: nat | j < 8 ensures !OccursAt(link, "x.com", j) {
      assert link[j] == link[..8][j];
      assert link[j..j + 5][0] == link[j];
    }
  }

  /** Putting `twitter.com` in place of the host of an `x.com` post link. */
  lemma TwitterHostSwap(link: string, path: string)
    requires link == "https://x.com/" + path
    ensures link[..8] + "twitter.com" + link[13..] == "https://twitter.com/" + path
  {
    assert link[..8] == "https://";
    assert link[13..] == "/" + path;
  }

  /** An `x.com` post link is sent to `twitter.com`; anything after the host,
      even another `x.com`, is kept. */
  lemma TwitterHrefOfXLink(path: string)
    ensures TwitterHref("https://x.com/" + path) == "https://twitter.com/" + path
  {
    var link := "https://x.com/" + path;
    XHostFirst(link, path);
    ReplaceFirstAt(link, "x.com", "twitter.com", 8);
    TwitterHostSwap(link, path);
  }

  /** What the card embeds in its frame, by type: the rewritten YouTube URL,
      the rewritten tweet link, or the document link as stored. */
  function CardEmbed(card: Card): string {
    match card.kind
    case YouTube => YouTubeEmbedLink(card.link)
    case Twitter => TwitterHref(card.link)
    case Document => card.link
  }

  /** The share page embeds YouTube videos and tweets the same way but shows
      no frame for documents. */
  function ShareEmbed(card: Card): (embed: Option<string>)
    ensures card.kind != Document ==> embed == Some(CardEmbed(card))
    ensures card.kind == Document <==> embed.None?
  {
    match card.kind
    case YouTube => Some(YouTubeEmbedLink(card.link))
    case Twitter => Some(TwitterHref(card.link))
    case Document => None
  }
}
