/**
 * data/get_data.py: turning Wikipedia URLs into (title, url, content) records. The
 * call to the MediaWiki API that fetches a page's title and plain text is a function
 * parameter, fetch, which either returns the pair or raises.
 */
module GetData {
  import opened Wrappers
  import opened PyStr

  /** One entry of the extracted data: the page's own title, the URL, the page's plain text. */
  datatype Article = Article(title: string, url: string, content: string)

  /** The marker get_wikipedia_title splits on. */
  const WikiMarker: string := "/wiki/"

  /** The prefix of the URLs the script collects. */
  const WikipediaPrefix: string := "https://en.wikipedia.org/wiki/"

  // ---------------------------------------------------------------------------
  // get_wikipedia_title
  // ---------------------------------------------------------------------------

  /**
   * url.split("/wiki/")[1]: the piece after the first marker. Indexing a one-piece list
   * raises IndexError; a title never contains the marker.
   */
  function GetWikipediaTitle(url: string): (r: Result<string>)
    ensures r.Raise? ==> r.exc == IndexError
    ensures r.Ok? ==> !Contains(r.value, WikiMarker)
  {
    var parts := Split(url, WikiMarker);
    SplitPiecesApart(url, WikiMarker);
    if |parts| < 2 then Raise(IndexError) else Ok(parts[1])
  }

  /** get_wikipedia_title raises exactly when the URL has no "/wiki/" in it. */
  lemma TitleFailsWithoutMarker(url: string)
    ensures GetWikipediaTitle(url).Raise? <==> !Contains(url, WikiMarker)
  {
    SplitHead(url, WikiMarker);
    IndexFromSpec(url, WikiMarker, 0);
    match IndexFrom(url, WikiMarker, 0)
    case None =>
    case Some(i) =>
      assert OccursAt(url, WikiMarker, i);
  }

  /**
   * When the first marker is at i, the title is the text after it, up to the next
   * marker or the end of the URL: no marker starts inside the title.
   */
  lemma TitleAfterFirstMarker(url: string, i: nat)
    requires OccursAt(url, WikiMarker, i)
    requires forall j :: 0 <= j < i ==> !OccursAt(url, WikiMarker, j)
    ensures GetWikipediaTitle(url).Ok?
    ensures var rest, title := url[i + |WikiMarker|..], GetWikipediaTitle(url).value;
      && |title| <= |rest| && rest[..|title|] == title
      && (title == rest || OccursAt(rest, WikiMarker, |title|))
      && (forall j :: 0 <= j < |title| ==> !OccursAt(rest, WikiMarker, j))
  {
    IndexFromIsFirst(url, WikiMarker, 0, i);
    var rest := url[i + |WikiMarker|..];
    SplitHead(url, WikiMarker);
    assert GetWikipediaTitle(url) == Ok(Split(rest, WikiMarker)[0]);
    SplitHead(rest, WikiMarker);
    IndexFromSpec(rest, WikiMarker, 0);
  }

  /** A string with no '/' has no marker in it, so splitting it gives it back whole. */
  lemma SplitWithoutSlash(t: string)
    requires '/' !in t
    ensures Split(t, WikiMarker) == [t]
  {
    forall j | 0 <= j
      ensures !OccursAt(t, WikiMarker, j)
    {
      if j + 6 <= |t| {
        assert t[j..j + 6][0] == t[j];
      }
    }
    IndexFromNone(t, WikiMarker, 0);
  }

  /** The URLs the script lists: the title of WikipediaPrefix + t is t when t has no '/'. */
  lemma {:induction false} WikipediaUrlTitle(t: string)
    requires '/' !in t
    ensures GetWikipediaTitle(WikipediaPrefix + t) == Ok(t)
  {
    var url := WikipediaPrefix + t;
    assert url[24..30] == WikiMarker;
    forall j | 0 <= j < 24
      ensures !OccursAt(url, WikiMarker, j)
    {
      assert url[j..j + 6][0] == WikipediaPrefix[j] && url[j..j + 6][1] == WikipediaPrefix[j + 1];
    }
    IndexFromIsFirst(url, WikiMarker, 0, 24);
    assert url[30..] == t;
    SplitWithoutSlash(t);
  }

  /** The first URL of the script's list yields the title "Genghis_Khan". */
  lemma GenghisKhanTitle()
    ensures GetWikipediaTitle("https://en.wikipedia.org/wiki/Genghis_Khan") == Ok("Genghis_Khan")
  {
    assert "https://en.wikipedia.org/wiki/Genghis_Khan" == WikipediaPrefix + "Genghis_Khan";
    WikipediaUrlTitle("Genghis_Khan");
  }

  // ---------------------------------------------------------------------------
  // extract_text_from_urls
  // ---------------------------------------------------------------------------

  /** How a URL becomes a title: get_wikipedia_title in the script itself. */
  type TitleFn = string -> Result<string>

  /** The page request for a title: its title and plain text, or the exception it raises. */
  type FetchFn = string -> Result<(string, string)>

  /** One iteration of extract_text_from_urls: the title from the URL, then the page fetched under it. */
  function FetchArticle(url: string, titleOf: TitleFn, fetch: FetchFn): Result<Article> {
    match titleOf(url)
    case Raise(e) => Raise(e)
    case Ok(title) =>
      match fetch(title)
      case Raise(e) => Raise(e)
      case Ok(page) => Ok(Article(page.0, url, page.1))
  }

  /** The whole loop: the records in URL order, or the exception of the first URL that fails. */
  function Extracted(urls: seq<string>, titleOf: TitleFn, fetch: FetchFn): Result<seq<Article>> {
    if urls == [] then Ok([])
    else
      match Extracted(urls[..|urls| - 1], titleOf, fetch)
      case Raise(e) => Raise(e)
      case Ok(data) =>
        match FetchArticle(urls[|urls| - 1], titleOf, fetch)
        case Raise(e) => Raise(e)
        case Ok(article) => Ok(data + [article])
  }

  /** Once a prefix of the URLs has raised, the whole list raises the same exception. */
  lemma {:induction false} ExtractedRaisePersists(urls: seq<string>, titleOf: TitleFn, fetch: FetchFn, k: nat)
    requires k <= |urls| && Extracted(urls[..k], titleOf, fetch).Raise?
    ensures Extracted(urls, titleOf, fetch) == Extracted(urls[..k], titleOf, fetch)
    decreases |urls| - k
  {
    if k < |urls| {
      assert urls[..k + 1][..k] == urls[..k];
      ExtractedRaisePersists(urls, titleOf, fetch, k + 1);
    } else {
      assert urls[..k] == urls;
    }
  }

  /**
   * extract_text_from_urls: for each URL, its title, the fetched page, and a record
   * of the page's title, the URL and the page's text; an exception from either step
   * ends the loop.
   */
  method ExtractTextFromUrls(urls: seq<string>, fetch: FetchFn)
    returns (result: Result<seq<Article>>)
    ensures result == Extracted(urls, GetWikipediaTitle, fetch)
  {
    var data := [];
    for i := 0 to |urls|
      invariant Extracted(urls[..i], GetWikipediaTitle, fetch) == Ok(data)
    {
      ExtractedStep(urls, GetWikipediaTitle, fetch, i);
      var title := GetWikipediaTitle(urls[i]);
      if title.Raise? {
        ExtractedRaisePersists(urls, GetWikipediaTitle, fetch, i + 1);
        return Raise(title.exc);
      }
      var page := fetch(title.value);
      if page.Raise? {
        ExtractedRaisePersists(urls, GetWikipediaTitle, fetch, i + 1);
        return Raise(page.exc);
      }
      var (pageTitle, content) := page.value;
      data := data + [Article(pageTitle, urls[i], content)];
    }
    assert urls[..|urls|] == urls;
    return Ok(data);
  }

  /** The extraction succeeds exactly when every URL yields a title and a page. */
  lemma {:induction false} ExtractedSucceeds(urls: seq<string>, titleOf: TitleFn, fetch: FetchFn)
    ensures Extracted(urls, titleOf, fetch).Ok? <==> forall i :: 0 <= i < |urls| ==> FetchArticle(urls[i], titleOf, fetch).Ok?
  {
    if urls != [] {
      var pre := urls[..|urls| - 1];
      ExtractedSucceeds(pre, titleOf, fetch);
      assert forall i :: 0 <= i < |pre| ==> pre[i] == urls[i];
    }
  }

  /**
   * A successful extraction holds one record per URL, in order, each with that URL and
   * the title and text fetched under the URL's title.
   */
  lemma {:induction false} ExtractedRecords(urls: seq<string>, titleOf: TitleFn, fetch: FetchFn)
    requires Extracted(urls, titleOf, fetch).Ok?
    ensures var data := Extracted(urls, titleOf, fetch).value;
      && |data| == |urls|
      && forall i :: 0 <= i < |urls| ==>
           && data[i].url == urls[i]
           && titleOf(urls[i]).Ok?
           && fetch(titleOf(urls[i]).value) == Ok((data[i].title, data[i].content))
  {
    if urls != [] {
      var pre := urls[..|urls| - 1];
      ExtractedRecords(pre, titleOf, fetch);
      assert forall i :: 0 <= i < |pre| ==> pre[i] == urls[i];
    }
  }

  /** One more URL: the extraction of urls[..k + 1] from that of urls[..k]. */
  lemma ExtractedStep(urls: seq<string>, titleOf: TitleFn, fetch: FetchFn, k: nat)
    requires k < |urls|
    ensures Extracted(urls[..k + 1], titleOf, fetch)
         == if Extracted(urls[..k], titleOf, fetch).Raise? then Extracted(urls[..k], titleOf, fetch)
            else if FetchArticle(urls[k], titleOf, fetch).Raise? then Raise(FetchArticle(urls[k], titleOf, fetch).exc)
            else Ok(Extracted(urls[..k], titleOf, fetch).value + [FetchArticle(urls[k], titleOf, fetch).value])
  {
    assert urls[..k + 1][..k] == urls[..k];
  }

  lemma ExtractedPrefix(urls: seq<string>, titleOf: TitleFn, fetch: FetchFn, i: nat)
    requires i <= |urls|
    requires forall j :: 0 <= j < i ==> FetchArticle(urls[j], titleOf, fetch).Ok?
    ensures Extracted(urls[..i], titleOf, fetch).Ok?
  {
    var pre := urls[..i];
    assert forall j :: 0 <= j < |pre| ==> pre[j] == urls[j];
    ExtractedSucceeds(pre, titleOf, fetch);
  }

  /** When the extraction raises, it raises the exception of the first URL that fails. */
  lemma ExtractedFirstFailure(urls: seq<string>, titleOf: TitleFn, fetch: FetchFn, i: nat)
    requires i < |urls| && FetchArticle(urls[i], titleOf, fetch).Raise?
    requires forall j :: 0 <= j < i ==> FetchArticle(urls[j], titleOf, fetch).Ok?
    ensures Extracted(urls, titleOf, fetch) == Raise(FetchArticle(urls[i], titleOf, fetch).exc)
  {
    ExtractedPrefix(urls, titleOf, fetch, i);
    ExtractedStep(urls, titleOf, fetch, i);
    ExtractedRaisePersists(urls, titleOf, fetch, i + 1);
  }
}
