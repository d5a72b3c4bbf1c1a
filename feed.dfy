/** A parsed feed as the fetch code sees it, and the image policy both
    variants apply to each entry. The parser itself is not modelled: a feed
    is either a failure (any exception while fetching or parsing it) or a
    sequence of entries whose optional attributes are explicit. */
module Feed {
  import opened Common

  /** One element of `entry.media_content`; `url` is `.get('url')`. */
  datatype Media = Media(url: Option<string>)

  /** One element of `entry.links`, read with `.get('rel')`,
      `.get('type', '')` and `.get('href')`. */
  datatype EntryLink = EntryLink(rel: Option<string>, mediaType: Option<string>, href: Option<string>)

  /** A feed entry; `None` means the attribute is absent. */
  datatype Entry = Entry(
    title: Option<string>,
    link: Option<string>,
    published: Option<string>,
    mediaContent: Option<seq<Media>>,
    links: Option<seq<EntryLink>>)

  datatype FeedContent = FetchFailed | Parsed(entries: seq<Entry>)

  predicate HasTitleAndLink(e: Entry)
  {
    e.title.Some? && e.link.Some?
  }

  predicate AllHaveTitleAndLink(entries: seq<Entry>)
  {
    forall i :: 0 <= i < |entries| ==> HasTitleAndLink(entries[i])
  }

  /** A link with relation "enclosure" (section 4.2.7.2 of RFC 4287) whose
      media type, empty when absent, contains "image". */
  predicate IsImageEnclosure(l: EntryLink)
  {
    l.rel == Some("enclosure") && Contains(if l.mediaType.Some? then l.mediaType.value else "", "image")
  }

  /** The index of the first image enclosure, if there is one. */
  function FirstImageEnclosure(links: seq<EntryLink>): (r: Option<nat>)
    ensures r.Some? ==> r.value < |links| && IsImageEnclosure(links[r.value])
                        && forall j :: 0 <= j < r.value ==> !IsImageEnclosure(links[j])
    ensures r.None? <==> forall j :: 0 <= j < |links| ==> !IsImageEnclosure(links[j])
  {
    if links == [] then None
    else if IsImageEnclosure(links[0]) then Some(0)
    else
      match FirstImageEnclosure(links[1..])
      case Some(i) => Some(i + 1)
      case None => None
  }

  /** `'media_content' in entry and entry.media_content`. */
  predicate HasMedia(e: Entry)
  {
    e.mediaContent.Some? && |e.mediaContent.value| > 0
  }

  /** The image URL of an entry, first match wins: the first media item's
      url; otherwise, when the entry has links, the href of the first image
      enclosure; otherwise none. */
  function ImageUrl(e: Entry): Option<string>
  {
    if HasMedia(e) then e.mediaContent.value[0].url
    else if e.links.Some? then
      match FirstImageEnclosure(e.links.value)
      case Some(i) => e.links.value[i].href
      case None => None
    else None
  }

  /** The image search as the fetch loop runs it, breaking at the first
      image enclosure. */
  method FindImageUrl(e: Entry) returns (image: Option<string>)
    ensures image == ImageUrl(e)
    ensures HasMedia(e) ==> image == e.mediaContent.value[0].url
    ensures !HasMedia(e) && image.Some? ==>
              exists i :: 0 <= i < |e.links.value| && IsImageEnclosure(e.links.value[i])
                          && image == e.links.value[i].href
  {
    image := None;
    if HasMedia(e) {
      image := e.mediaContent.value[0].url;
    } else if e.links.Some? {
      var links := e.links.value;
      var i := 0;
      while i < |links|
        invariant 0 <= i <= |links|
        invariant image == None
        invariant forall j :: 0 <= j < i ==> !IsImageEnclosure(links[j])
      {
        if IsImageEnclosure(links[i]) {
          image := links[i].href;
          assert FirstImageEnclosure(links) == Some(i);
          break;
        }
        i := i + 1;
      }
    }
  }
}
