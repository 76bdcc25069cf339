/** The mdpimg resolution pipeline: from an mdpr.jp article URL to the
    ordered list of its gallery image URLs.

    The network, the HTML query and the two decoders are not modelled: an
    Env bundles them as functions, and every operation here is deterministic
    given its Env. */
module Mdpimg {
  import opened Outcomes
  import opened Strings
  import opened Json

  /** The site marker an input URL must contain. */
  const Domain := "https://mdpr.jp/"
  /** The page category URLCheck turns away, domain or not. */
  const PhotoDetail := "photo/detail"
  /** Host prepended to the relative `url` of the chosen descriptor. */
  const ApiPrefix := "https://app2-mdpr.freetls.fastly.net"
  /** Mobile article page, followed by the article id. */
  const MobilePrefix := "https://app2-mdpr.freetls.fastly.net/articles/detail/"

  /** The two header sets: webHeader() for the mobile page, apiHeader() for
      the image-list API. */
  datatype Profile = Web | Api

  /** One GET request: the URL and the header set it carries. */
  datatype Request = Request(url: string, profile: Profile)

  /** The collaborators the core calls but does not implement:
      - fetch: the HTTP GET with a 30-second timeout, giving the body;
      - findAnchors: htmlquery.Parse of a page, the query
        //div[@class="p-articleBody"]/a, and each anchor's
        data-mdprapp-option attribute ("" when absent), in document order;
      - unescape: url.QueryUnescape;
      - parseJson: the JSON syntax of json.Unmarshal. */
  datatype Env = Env(
    fetch: Request -> Result<string>,
    findAnchors: string -> Result<seq<string>>,
    unescape: string -> Result<string>,
    parseJson: string -> Result<Value>)

  // ---------------------------------------------------------------------
  // URL validation

  /** URLCheck: accepts the trimmed input when it holds the site marker and
      not the photo-detail marker; a rejection gives back "". */
  function URLCheck(url: string): (r: (string, bool))
    ensures r.1 <==> IsSubstring(Domain, TrimSpace(url)) && !IsSubstring(PhotoDetail, TrimSpace(url))
    ensures r.1 ==> r.0 == TrimSpace(url) && NoOuterSpace(r.0)
    ensures !r.1 ==> r.0 == ""
  {
    var newurl := TrimSpace(url);
    if Contains(newurl, Domain) then
      if Contains(newurl, PhotoDetail) then ("", false) else (newurl, true)
    else
      ("", false)
  }

  /** Checking an accepted URL again accepts it unchanged. */
  lemma URLCheckIdempotent(url: string)
    requires URLCheck(url).1
    ensures URLCheck(URLCheck(url).0) == URLCheck(url)
  {
    TrimSpaceIdempotent(url);
  }

  /** Neither marker holds white space, so trimming never changes the
      verdict: the input is accepted exactly when it holds the site marker
      and not the photo-detail marker, and the photo-detail marker rejects
      whatever else the input holds. */
  lemma URLCheckVerdict(url: string)
    ensures URLCheck(url).1 <==> IsSubstring(Domain, url) && !IsSubstring(PhotoDetail, url)
    ensures IsSubstring(PhotoDetail, url) ==> URLCheck(url) == ("", false)
  {
    assert forall k :: 0 <= k < |Domain| ==> !IsSpace(Domain[k]);
    assert forall k :: 0 <= k < |PhotoDetail| ==> !IsSpace(PhotoDetail[k]);
    TrimSpaceKeepsSubstring(Domain, url);
    TrimSpaceKeepsSubstring(PhotoDetail, url);
  }

  // ---------------------------------------------------------------------
  // Article id

  /** getArticleID: the last piece of the URL split on "/", which is the
      longest suffix of the URL free of "/". */
  function ArticleID(url: string): (aid: string)
    ensures '/' !in aid
    ensures |aid| <= |url| && url[|url| - |aid|..] == aid
    ensures |aid| < |url| ==> url[|url| - |aid| - 1] == '/'
  {
    var urlPart := Split(url, '/');
    JoinLast(urlPart, '/');
    urlPart[|urlPart| - 1]
  }

  /** The id is whatever follows the final "/". */
  lemma ArticleIDAfterLastSlash(prefix: string, x: string)
    requires '/' !in x
    ensures ArticleID(prefix + "/" + x) == x
  {
    var s := prefix + "/" + x;
    var y := ArticleID(s);
    assert s[|s| - |x| - 1] == '/';
    assert forall k :: |s| - |x| <= k < |s| ==> s[k] != '/' by {
      forall k | |s| - |x| <= k < |s| ensures s[k] != '/' { assert s[k] == x[k - (|s| - |x|)]; }
    }
    assert forall k :: |s| - |y| <= k < |s| ==> s[k] != '/' by {
      forall k | |s| - |y| <= k < |s| ensures s[k] != '/' { assert s[k] == y[k - (|s| - |y|)]; }
    }
    assert s[|s| - |x|..] == x;
  }

  /** A URL without "/" is its own id; one ending in "/" has the empty id. */
  lemma ArticleIDEdgeCases(url: string)
    ensures '/' !in url ==> ArticleID(url) == url
    ensures |url| > 0 && url[|url| - 1] == '/' ==> ArticleID(url) == ""
  {
    if '/' !in url {
      assert forall k :: 0 <= k < |url| ==> url[k] != '/';
    }
    if |url| > 0 && url[|url| - 1] == '/' {
      ArticleIDAfterLastSlash(url[..|url| - 1], "");
      assert url[..|url| - 1] + "/" + "" == url;
    }
  }

  /** A concrete article page: its id is its last segment. */
  lemma ArticleIDExample()
    ensures ArticleID("https://mdpr.jp/news/detail/12345") == "12345"
  {
    ArticleIDAfterLastSlash("https://mdpr.jp/news/detail", "12345");
    assert "https://mdpr.jp/news/detail" + "/" + "12345" == "https://mdpr.jp/news/detail/12345";
  }

  /** A concrete photo-detail page is rejected. */
  lemma URLCheckPhotoExample()
    ensures URLCheck("https://mdpr.jp/photo/detail/12345") == ("", false)
  {
    var photo := Domain + PhotoDetail + "/12345";
    assert photo == "https://mdpr.jp/photo/detail/12345";
    assert photo[|Domain|..|Domain| + |PhotoDetail|] == PhotoDetail;
    assert OccursAt(PhotoDetail, photo, |Domain|);
    URLCheckVerdict(photo);
  }

  /** A string without the letter 'o' cannot hold the photo-detail marker. */
  lemma NoPhotoDetailWithoutO(u: string)
    requires 'o' !in u
    ensures !IsSubstring(PhotoDetail, u)
  {
    forall i ensures !OccursAt(PhotoDetail, u, i) {
      if 0 <= i && i + |PhotoDetail| <= |u| {
        assert u[i..i + |PhotoDetail|][2] == u[i + 2];
      }
    }
  }

  /** A URL that starts with the site marker, has no 'o' in it (so no
      photo-detail marker) and does not end in white space, pasted between
      a space and a line feed, is accepted and comes back trimmed. */
  lemma URLCheckAcceptsPadded(u: string)
    requires |Domain| <= |u| && u[..|Domain|] == Domain
    requires 'o' !in u && !IsSpace(u[|u| - 1])
    ensures URLCheck(" " + u + "\n") == (u, true)
  {
    assert OccursAt(Domain, u, 0);
    NoPhotoDetailWithoutO(u);
    TrimSpacePadded(" ", u, "\n");
  }

  /** An article page `https://mdpr.jp/news/detail/<id>` with a numeric id,
      pasted between a space and a line feed, is accepted and comes back
      trimmed, and its article id is `<id>`. */
  lemma URLCheckAcceptsArticle(id: string)
    requires id != [] && forall k :: 0 <= k < |id| ==> '0' <= id[k] <= '9'
    ensures var u := Domain + "news/detail/" + id;
      URLCheck(" " + u + "\n") == (u, true) && ArticleID(u) == id
  {
    var dir := Domain + "news/detail";
    var u := dir + "/" + id;
    assert u == Domain + "news/detail/" + id;
    assert u[..|Domain|] == Domain by {
      assert u[..|Domain|] == dir[..|Domain|];
    }
    assert 'o' !in u by {
      assert 'o' !in dir + "/";
      assert forall k :: 0 <= k < |id| ==> id[k] != 'o';
    }
    assert u[|u| - 1] == id[|id| - 1];
    URLCheckAcceptsPadded(u);
    assert forall k :: 0 <= k < |id| ==> id[k] != '/';
    ArticleIDAfterLastSlash(dir, id);
  }

  // ---------------------------------------------------------------------
  // Endpoint selection (GetImgURL)

  /** One anchor of the loop body of GetImgURL: percent-decode the
      attribute, decode it into a map, and read its "url" as a string (a
      panic when that field is missing or not a string). */
  function DecodeAnchor(env: Env, attr: string): (r: Outcome<string>)
    ensures r.Err? ==> r.error.UnescapeError? || r.error.JsonSyntaxError? || r.error.JsonTypeError?
    ensures r.Panic? ==> r.fault == UrlNotString
    ensures env.unescape(attr).Failure? ==> r == Err(UnescapeError(env.unescape(attr).msg))
    ensures env.unescape(attr).Success? ==>
              var m := Unmarshal(env.parseJson, env.unescape(attr).value);
              (r.Err? <==> m.Err?) && (m.Err? ==> r.error == m.error)
    ensures r.Ok? <==> (env.unescape(attr).Success? &&
              var m := Unmarshal(env.parseJson, env.unescape(attr).value);
              m.Ok? && "url" in m.value && m.value["url"].Str?)
    ensures r.Ok? ==> r.value == Unmarshal(env.parseJson, env.unescape(attr).value).value["url"].s
  {
    var appStr := env.unescape(attr);
    if appStr.Failure? then
      Err(UnescapeError(appStr.msg))
    else
      var appJson :- Unmarshal(env.parseJson, appStr.value);
      if "url" in appJson && appJson["url"].Str? then Ok(appJson["url"].s) else Panic(UrlNotString)
  }

  /** A descriptor that decodes to JSON `null` leaves the map nil, and the
      `url` assertion on it panics instead of returning an error. */
  lemma NullDescriptorPanics(env: Env, attr: string)
    requires env.unescape(attr).Success?
    requires env.parseJson(env.unescape(attr).value) == Success(Null)
    ensures DecodeAnchor(env, attr) == Panic(UrlNotString)
  {
  }

  /** The anchor decodes, and its url does not name the article: the loop
      moves on to the next anchor. */
  predicate Skipped(env: Env, attr: string, aid: string) {
    var d := DecodeAnchor(env, attr);
    d.Ok? && !Contains(d.value, aid)
  }

  /** Anchor `k` is the first that the loop stops at with a match. */
  predicate FirstMatchAt(env: Env, attrs: seq<string>, aid: string, k: int) {
    0 <= k < |attrs|
    && (forall j :: 0 <= j < k ==> Skipped(env, attrs[j], aid))
    && DecodeAnchor(env, attrs[k]).Ok?
    && Contains(DecodeAnchor(env, attrs[k]).value, aid)
  }

  /** The scan of GetImgURL over the anchor attributes, in document order:
      the first decoded url naming the article wins; a failure before it
      ends the scan; no match at all is "url not found". */
  function SelectEndpoint(env: Env, attrs: seq<string>, aid: string): (r: Outcome<string>)
    ensures r.Ok? ==> |ApiPrefix| <= |r.value| && r.value[..|ApiPrefix|] == ApiPrefix
                      && IsSubstring(aid, r.value[|ApiPrefix|..])
    ensures r.Err? ==> r.error.UrlNotFound? || r.error.UnescapeError?
                       || r.error.JsonSyntaxError? || r.error.JsonTypeError?
    ensures r.Panic? ==> r.fault == UrlNotString
    decreases |attrs|
  {
    if attrs == [] then
      Err(UrlNotFound)
    else
      var mdpURL :- DecodeAnchor(env, attrs[0]);
      if Contains(mdpURL, aid) then
        assert (ApiPrefix + mdpURL)[|ApiPrefix|..] == mdpURL;
        Ok(ApiPrefix + mdpURL)
      else
        SelectEndpoint(env, attrs[1..], aid)
  }

  /** Anchors the loop skips do not change where it ends. */
  lemma {:induction false} SelectSkipsPrefix(env: Env, attrs: seq<string>, aid: string, k: nat)
    requires k <= |attrs|
    requires forall j :: 0 <= j < k ==> Skipped(env, attrs[j], aid)
    ensures SelectEndpoint(env, attrs, aid) == SelectEndpoint(env, attrs[k..], aid)
    decreases k
  {
    if k > 0 {
      assert Skipped(env, attrs[0], aid);
      assert forall j :: 0 <= j < k - 1 ==> attrs[1..][j] == attrs[j + 1];
      SelectSkipsPrefix(env, attrs[1..], aid, k - 1);
      assert attrs[1..][k - 1..] == attrs[k..];
    }
  }

  /** The first anchor whose url names the article is the one chosen. */
  lemma SelectChoosesFirstMatch(env: Env, attrs: seq<string>, aid: string, k: nat)
    requires FirstMatchAt(env, attrs, aid, k)
    ensures SelectEndpoint(env, attrs, aid) == Ok(ApiPrefix + DecodeAnchor(env, attrs[k]).value)
  {
    SelectSkipsPrefix(env, attrs, aid, k);
    assert attrs[k..][0] == attrs[k];
  }

  /** A decode failure or panic reached before any match ends the whole
      call with that failure. */
  lemma SelectStopsAtFailure(env: Env, attrs: seq<string>, aid: string, k: nat)
    requires k < |attrs|
    requires forall j :: 0 <= j < k ==> Skipped(env, attrs[j], aid)
    requires DecodeAnchor(env, attrs[k]).IsFailure()
    ensures SelectEndpoint(env, attrs, aid) == DecodeAnchor(env, attrs[k]).PropagateFailure()
  {
    SelectSkipsPrefix(env, attrs, aid, k);
    assert attrs[k..][0] == attrs[k];
  }

  /** "url not found" is returned exactly when every anchor decodes and
      none of their urls names the article (in particular when there are
      no anchors). */
  lemma {:induction false} SelectNotFound(env: Env, attrs: seq<string>, aid: string)
    ensures SelectEndpoint(env, attrs, aid) == Err(UrlNotFound)
            <==> forall j :: 0 <= j < |attrs| ==> Skipped(env, attrs[j], aid)
    decreases |attrs|
  {
    if attrs != [] && SelectEndpoint(env, attrs, aid) == Err(UrlNotFound) {
      assert Skipped(env, attrs[0], aid);
      SelectNotFound(env, attrs[1..], aid);
      assert forall j :: 1 <= j < |attrs| ==> attrs[j] == attrs[1..][j - 1];
    }
    if forall j :: 0 <= j < |attrs| ==> Skipped(env, attrs[j], aid) {
      SelectSkipsPrefix(env, attrs, aid, |attrs|);
    }
  }

  /** A url returned by the scan comes from the first matching anchor. */
  lemma {:induction false} SelectOkFromFirstMatch(env: Env, attrs: seq<string>, aid: string)
    requires SelectEndpoint(env, attrs, aid).Ok?
    ensures exists k :: FirstMatchAt(env, attrs, aid, k)
              && SelectEndpoint(env, attrs, aid).value == ApiPrefix + DecodeAnchor(env, attrs[k]).value
    decreases |attrs|
  {
    var d := DecodeAnchor(env, attrs[0]);
    if Contains(d.value, aid) {
      assert FirstMatchAt(env, attrs, aid, 0);
    } else {
      SelectOkFromFirstMatch(env, attrs[1..], aid);
      var k :| FirstMatchAt(env, attrs[1..], aid, k)
               && SelectEndpoint(env, attrs[1..], aid).value == ApiPrefix + DecodeAnchor(env, attrs[1..][k]).value;
      assert forall j :: 1 <= j < k + 1 ==> attrs[j] == attrs[1..][j - 1];
      assert FirstMatchAt(env, attrs, aid, k + 1);
    }
  }

  /** Once the scan has stopped (a match or a failure), anchors after the
      stopping point are never examined. */
  lemma {:induction false} SelectIgnoresLaterAnchors(env: Env, attrs: seq<string>, later: seq<string>, aid: string)
    requires SelectEndpoint(env, attrs, aid) != Err(UrlNotFound)
    ensures SelectEndpoint(env, attrs + later, aid) == SelectEndpoint(env, attrs, aid)
    decreases |attrs|
  {
    assert (attrs + later)[0] == attrs[0];
    var d := DecodeAnchor(env, attrs[0]);
    if d.Ok? && !Contains(d.value, aid) {
      assert (attrs + later)[1..] == attrs[1..] + later;
      SelectIgnoresLaterAnchors(env, attrs[1..], later, aid);
    }
  }

  /** With an empty article id every url matches, so the first anchor that
      decodes is chosen. */
  lemma EmptyIdTakesFirstAnchor(env: Env, attrs: seq<string>)
    requires |attrs| > 0 && DecodeAnchor(env, attrs[0]).Ok?
    ensures SelectEndpoint(env, attrs, "") == Ok(ApiPrefix + DecodeAnchor(env, attrs[0]).value)
  {
    assert OccursAt("", DecodeAnchor(env, attrs[0]).value, 0);
  }

  /** The scan depends on the decoders only, never on the transport. */
  lemma {:induction false} SelectSameDecoders(e1: Env, e2: Env, attrs: seq<string>, aid: string)
    requires e1.unescape == e2.unescape && e1.parseJson == e2.parseJson
    ensures SelectEndpoint(e1, attrs, aid) == SelectEndpoint(e2, attrs, aid)
    decreases |attrs|
  {
    if attrs != [] {
      assert DecodeAnchor(e1, attrs[0]) == DecodeAnchor(e2, attrs[0]);
      SelectSameDecoders(e1, e2, attrs[1..], aid);
    }
  }

  /** What GetImgURL computes: fetch the mobile page of the article with
      the web headers, list its anchors, and scan them. */
  function Resolve(env: Env, mdprURL: string): (r: Outcome<string>)
    ensures r.Ok? ==> |ApiPrefix| <= |r.value| && r.value[..|ApiPrefix|] == ApiPrefix
                      && IsSubstring(ArticleID(mdprURL), r.value[|ApiPrefix|..])
    ensures r.Panic? ==> r.fault == UrlNotString
  {
    var aid := ArticleID(mdprURL);
    var resBody := env.fetch(Request(MobilePrefix + aid, Web));
    if resBody.Failure? then
      Err(FetchError(resBody.msg))
    else
      var nodes := env.findAnchors(resBody.value);
      if nodes.Failure? then Err(HtmlError(nodes.msg)) else SelectEndpoint(env, nodes.value, aid)
  }

  /** The only request GetImgURL sends is to the mobile page of the
      article id, with the web headers: two transports that agree on that
      one request give the same result. */
  lemma ResolveFetchesOnlyMobilePage(e1: Env, e2: Env, mdprURL: string)
    requires e1.findAnchors == e2.findAnchors && e1.unescape == e2.unescape && e1.parseJson == e2.parseJson
    requires e1.fetch(Request(MobilePrefix + ArticleID(mdprURL), Web))
             == e2.fetch(Request(MobilePrefix + ArticleID(mdprURL), Web))
    ensures Resolve(e1, mdprURL) == Resolve(e2, mdprURL)
  {
    var aid := ArticleID(mdprURL);
    var body := e1.fetch(Request(MobilePrefix + aid, Web));
    if body.Success? {
      var nodes := e1.findAnchors(body.value);
      assert e2.findAnchors(body.value) == nodes;
      if nodes.Success? {
        SelectSameDecoders(e1, e2, nodes.value, aid);
      }
    }
  }

  /** GetImgURL: the anchor loop with early return. */
  method GetImgURL(env: Env, mdprURL: string) returns (r: Outcome<string>)
    ensures r == Resolve(env, mdprURL)
  {
    var aid := ArticleID(mdprURL);
    var mobileIndex := MobilePrefix + aid;
    var resBody := env.fetch(Request(mobileIndex, Web));
    if resBody.Failure? {
      return Err(FetchError(resBody.msg));
    }
    var nodes := env.findAnchors(resBody.value);
    if nodes.Failure? {
      return Err(HtmlError(nodes.msg));
    }
    var attrs := nodes.value;
    for i := 0 to |attrs|
      invariant SelectEndpoint(env, attrs[i..], aid) == SelectEndpoint(env, attrs, aid)
    {
      assert attrs[i..][0] == attrs[i] && attrs[i..][1..] == attrs[i + 1..];
      var mdpURL :- DecodeAnchor(env, attrs[i]);
      if Contains(mdpURL, aid) {
        return Ok(ApiPrefix + mdpURL);
      }
    }
    return Err(UrlNotFound);
  }

  // ---------------------------------------------------------------------
  // Image list (GetImgs)

  /** One element of the API's "list": an object with a string "url". */
  predicate WellFormedItem(item: Value) {
    item.Object? && "url" in item.fields && item.fields["url"].Str?
  }

  /** The loop body of GetImgs on element `index`: its "url", or the panic
      of whichever type assertion fails. */
  function ItemUrl(item: Value, index: nat): (r: Outcome<string>)
    ensures r.Ok? <==> WellFormedItem(item)
    ensures r.Ok? ==> r.value == item.fields["url"].s
    ensures r.Panic? ==> r.fault == (if item.Object? then ItemUrlNotString(index) else ItemNotObject(index))
    ensures !r.Err?
  {
    if !item.Object? then
      Panic(ItemNotObject(index))
    else if "url" in item.fields && item.fields["url"].Str? then
      Ok(item.fields["url"].s)
    else
      Panic(ItemUrlNotString(index))
  }

  /** The urls of the elements of "list", appended one by one. It never
      returns an error, only a panic, and an image list as long as "list". */
  function ImageList(items: seq<Value>): (r: Outcome<seq<string>>)
    ensures !r.Err?
    ensures r.Ok? ==> |r.value| == |items|
    decreases |items|
  {
    if items == [] then
      Ok([])
    else
      var imgs :- ImageList(items[..|items| - 1]);
      var url :- ItemUrl(items[|items| - 1], |items| - 1);
      Ok(imgs + [url])
  }

  /** The list is extracted exactly when every element is an object with a
      string url; element i of the result is the url of element i, in order
      and without dropping duplicates. */
  lemma {:induction false} ImageListOk(items: seq<Value>)
    ensures ImageList(items).Ok? <==> forall k :: 0 <= k < |items| ==> WellFormedItem(items[k])
    ensures ImageList(items).Ok? ==>
              forall k :: 0 <= k < |items| ==> ImageList(items).value[k] == items[k].fields["url"].s
    decreases |items|
  {
    if items != [] {
      var init := items[..|items| - 1];
      ImageListOk(init);
      assert forall k :: 0 <= k < |init| ==> init[k] == items[k];
    }
  }

  /** A failure in a prefix of the list is the failure of the whole list. */
  lemma {:induction false} ImageListPrefixFailure(items: seq<Value>, n: nat)
    requires n <= |items| && ImageList(items[..n]).IsFailure()
    ensures ImageList(items) == ImageList(items[..n])
    decreases |items| - n
  {
    if n < |items| {
      var init := items[..|items| - 1];
      assert init[..n] == items[..n];
      ImageListPrefixFailure(init, n);
    } else {
      assert items[..n] == items;
    }
  }

  /** The first malformed element decides the panic, whatever follows. */
  lemma ImageListFirstFault(items: seq<Value>, k: nat)
    requires k < |items|
    requires forall j :: 0 <= j < k ==> WellFormedItem(items[j])
    requires !WellFormedItem(items[k])
    ensures ImageList(items) == ItemUrl(items[k], k).PropagateFailure()
  {
    var prefix := items[..k + 1];
    assert prefix[..k] == items[..k];
    ImageListOk(items[..k]);
    ImageListPrefixFailure(items, k + 1);
  }

  /** What GetImgs computes: fetch the API url with the API headers, decode
      the body into a map, require "list" to be an array, and extract. */
  function ListImages(env: Env, url: string): (r: Outcome<seq<string>>)
    ensures r.Panic? ==> r.fault.ListNotArray? || r.fault.ItemNotObject? || r.fault.ItemUrlNotString?
  {
    var resBody := env.fetch(Request(url, Api));
    if resBody.Failure? then
      Err(FetchError(resBody.msg))
    else
      var apiJSON :- Unmarshal(env.parseJson, resBody.value);
      if "list" in apiJSON && apiJSON["list"].Array? then
        var items := apiJSON["list"].items;
        var imgs := ImageList(items);
        assert imgs.Panic? ==> imgs.fault.ItemNotObject? || imgs.fault.ItemUrlNotString? by {
          if imgs.Panic? {
            ImageListOk(items);
            var k :| 0 <= k < |items| && !WellFormedItem(items[k]);
            var first := FirstMalformed(items, k);
            ImageListFirstFault(items, first);
          }
        }
        imgs
      else
        Panic(ListNotArray)
  }

  /** An API body that decodes to JSON `null` leaves the map nil, and the
      `list` assertion on it panics instead of returning an error. */
  lemma NullListPanics(env: Env, url: string)
    requires env.fetch(Request(url, Api)).Success?
    requires env.parseJson(env.fetch(Request(url, Api)).value) == Success(Null)
    ensures ListImages(env, url) == Panic(ListNotArray)
  {
  }

  /** The index of the first malformed element, given that one exists at
      or before `k`. */
  ghost function FirstMalformed(items: seq<Value>, k: nat): (first: nat)
    requires k < |items| && !WellFormedItem(items[k])
    ensures first <= k && !WellFormedItem(items[first])
    ensures forall j :: 0 <= j < first ==> WellFormedItem(items[j])
  {
    if forall j :: 0 <= j < k ==> WellFormedItem(items[j]) then
      k
    else
      var j :| 0 <= j < k && !WellFormedItem(items[j]);
      FirstMalformed(items, j)
  }

  /** The only request GetImgs sends is to its url, with the API headers. */
  lemma ListImagesFetchesOnlyApi(e1: Env, e2: Env, url: string)
    requires e1.parseJson == e2.parseJson
    requires e1.fetch(Request(url, Api)) == e2.fetch(Request(url, Api))
    ensures ListImages(e1, url) == ListImages(e2, url)
  {
  }

  /** GetImgs: the loop over "list" appending each url. */
  method GetImgs(env: Env, url: string) returns (r: Outcome<seq<string>>)
    ensures r == ListImages(env, url)
  {
    var resBody := env.fetch(Request(url, Api));
    if resBody.Failure? {
      return Err(FetchError(resBody.msg));
    }
    var apiJSON :- Unmarshal(env.parseJson, resBody.value);
    if !("list" in apiJSON && apiJSON["list"].Array?) {
      return Panic(ListNotArray);
    }
    var imgList := apiJSON["list"].items;
    var imgs: seq<string> := [];
    for i := 0 to |imgList|
      invariant ImageList(imgList[..i]) == Ok(imgs)
    {
      assert imgList[..i + 1][..i] == imgList[..i];
      if ItemUrl(imgList[i], i).IsFailure() {
        ImageListPrefixFailure(imgList, i + 1);
      }
      var u :- ItemUrl(imgList[i], i);
      imgs := imgs + [u];
    }
    assert imgList[..|imgList|] == imgList;
    return Ok(imgs);
  }

  // ---------------------------------------------------------------------
  // Orchestration (Get)

  /** What Get computes: validate, resolve, list; the first failure is
      returned unchanged. */
  function Pipeline(env: Env, raw: string): (r: Outcome<seq<string>>)
  {
    var (url, ok) := URLCheck(raw);
    if ok then
      var imgURL :- Resolve(env, url);
      ListImages(env, imgURL)
    else
      Err(UrlIsError)
  }

  /** An input without the site marker, or with the photo-detail marker,
      fails with "url is error" whatever the transport would answer: no
      request is needed to decide it. */
  lemma PipelineRejects(env: Env, raw: string)
    requires !IsSubstring(Domain, raw) || IsSubstring(PhotoDetail, raw)
    ensures Pipeline(env, raw) == Err(UrlIsError)
  {
    URLCheckVerdict(raw);
  }

  /** Get sends at most two requests: the mobile page of the trimmed URL's
      article id with the web headers, then the resolved API url with the
      API headers. Two transports that agree on those give the same result. */
  lemma PipelineFetches(e1: Env, e2: Env, raw: string)
    requires e1.findAnchors == e2.findAnchors && e1.unescape == e2.unescape && e1.parseJson == e2.parseJson
    requires var aid := ArticleID(TrimSpace(raw));
      e1.fetch(Request(MobilePrefix + aid, Web)) == e2.fetch(Request(MobilePrefix + aid, Web))
    requires var api := Resolve(e1, TrimSpace(raw));
      api.Ok? ==> e1.fetch(Request(api.value, Api)) == e2.fetch(Request(api.value, Api))
    ensures Pipeline(e1, raw) == Pipeline(e2, raw)
  {
    var (url, ok) := URLCheck(raw);
    if ok {
      ResolveFetchesOnlyMobilePage(e1, e2, url);
      var api := Resolve(e1, url);
      if api.Ok? {
        ListImagesFetchesOnlyApi(e1, e2, api.value);
      }
    }
  }

  /** Get: straight-line composition of the three stages. */
  method Get(env: Env, raw: string) returns (r: Outcome<seq<string>>)
    ensures r == Pipeline(env, raw)
  {
    var (url, ok) := URLCheck(raw);
    if ok {
      var imgURL :- GetImgURL(env, url);
      r := GetImgs(env, imgURL);
      return;
    }
    return Err(UrlIsError);
  }
}
