/**
 * The page extractors of the scraper. The parsed HTML document is given as
 * plain data: the texts of its inline scripts, and records holding the
 * attributes and inner text of the elements each extractor selects.
 * `JSON.parse` is the caller-supplied `parse`, returning `None` where
 * JavaScript's would throw a `SyntaxError`.
 */
module Selectors {
  import opened Wrappers
  import opened JsText
  import opened JsValue
  import opened ScriptVariable

  /** The site prefix put in front of relative image paths. */
  const BaseUrl: string := "https://animeflv.net"

  /** An element's attribute map (`element.attributes`). */
  type Attrs = map<string, string>

  /** A stand-in for `JSON.parse`. */
  type Parser = string -> Option<Value>

  // ---------------------------------------------------------------------
  // Field rules

  /** Segment 2 of the path split on `/` (`href.split('/')[2]`), `undefined` when there are fewer than three segments. */
  function Slug(href: string): (r: Option<string>)
    ensures r.Some? <==> Count(href, '/') >= 2
    ensures r.Some? ==> '/' !in r.value
  {
    SplitLength(href, '/');
    var parts := Split(href, '/');
    if |parts| > 2 then Some(parts[2]) else None
  }

  /** Any text between the second and third `/` (or the end) is what `Slug` returns. */
  lemma SlugOfPath(a: string, b: string, t: string, rest: string)
    requires '/' !in a && '/' !in b && '/' !in t
    requires rest == "" || rest[0] == '/'
    ensures Slug(a + "/" + b + "/" + t + rest) == Some(t)
  {
    var tail := if rest == "" then [t] else [t] + Split(rest[1..], '/');
    if rest == "" {
      assert t + rest == t;
      SplitFree(t, '/');
    } else {
      assert rest == "/" + rest[1..];
      assert t + rest == t + "/" + rest[1..];
      SplitAfterFree(t, rest[1..], '/');
    }
    assert Split(t + rest, '/') == tail;
    SplitAfterFree(b, t + rest, '/');
    assert b + "/" + (t + rest) == b + "/" + t + rest;
    SplitAfterFree(a, b + "/" + t + rest, '/');
    assert a + "/" + (b + "/" + t + rest) == a + "/" + b + "/" + t + rest;
    assert Split(a + "/" + b + "/" + t + rest, '/') == [a] + ([b] + tail);
  }

  /** Conversely, `Slug` returns exactly the text between the second and the third `/` of the path. */
  lemma SlugLocated(href: string)
    requires Slug(href).Some?
    ensures var parts := Split(href, '/');
      href == parts[0] + "/" + parts[1] + "/" + Slug(href).value +
              (if |parts| > 3 then "/" + Join(parts[3..], '/') else "")
  {
    var parts := Split(href, '/');
    JoinSplit(href, '/');
    assert parts[1..][1..] == parts[2..];
    assert Join(parts, '/') == parts[0] + "/" + (parts[1] + "/" + Join(parts[2..], '/'));
    if |parts| > 3 {
      assert parts[2..][1..] == parts[3..];
      assert Join(parts[2..], '/') == parts[2] + "/" + Join(parts[3..], '/');
    } else {
      assert Join(parts[2..], '/') == parts[2];
    }
  }

  /** The example path of the catalogue: `/anime/my-show-title/` gives `my-show-title`. */
  lemma SlugOfCatalogueLink()
    ensures Slug("/anime/my-show-title/") == Some("my-show-title")
  {
    SlugOfPath("", "anime", "my-show-title", "/");
    assert "" + "/" + "anime" + "/" + "my-show-title" + "/" == "/anime/my-show-title/";
  }

  /** An attribute read placed in a template literal: a missing attribute prints as `undefined`. */
  function AttrText(attrs: Attrs, name: string): (r: string)
    ensures name in attrs ==> r == attrs[name]
    ensures name !in attrs ==> r == "undefined"
  {
    if name in attrs then attrs[name] else "undefined"
  }

  /** The catalogue image: `src` when truthy, else the site prefix followed by `data-cfsrc`. */
  function ListImage(img: Attrs): (r: string)
    ensures "src" in img && img["src"] != "" ==> r == img["src"]
    ensures "src" !in img || img["src"] == "" ==> r == BaseUrl + AttrText(img, "data-cfsrc")
  {
    if "src" in img && img["src"] != "" then img["src"] else BaseUrl + AttrText(img, "data-cfsrc")
  }

  /** The latest-episodes image: always the site prefix followed by `src`, with no fallback. */
  function LatestImage(src: string): (r: string)
    ensures |r| == |BaseUrl| + |src| && r[..|BaseUrl|] == BaseUrl && r[|BaseUrl|..] == src
  {
    BaseUrl + src
  }

  // ---------------------------------------------------------------------
  // Anime list

  /** An `.Anime` card: its anchor's attributes, its `.Title` markup and its `.Image span.Type` markup. */
  datatype Card = Card(anchor: Attrs, titleHtml: string, typeHtml: string)

  datatype AnimeListItem = AnimeListItem(link: string, title: Option<string>, image: string, labelText: string, kind: string)

  /** `formatAnimeList(dom)(card, i)` for a card with an `href`, and the `i`-th image of the document. */
  function FormatCard(card: Card, img: Attrs): (item: AnimeListItem)
    requires "href" in card.anchor
    ensures item.link == card.anchor["href"]
    ensures item.title == Slug(card.anchor["href"])
    ensures item.image == ListImage(img)
    ensures item.labelText == card.titleHtml && item.kind == card.typeHtml
  {
    var link := card.anchor["href"];
    AnimeListItem(link, Slug(link), ListImage(img), card.titleHtml, card.typeHtml)
  }

  /**
   * `item` is what `formatAnimeList` makes of `card` with image `img`: the
   * card's `href` as link, its slug as title, the resolved image and the
   * card's `.Title` and `.Type` markup.
   */
  predicate Describes(item: AnimeListItem, card: Card, img: Attrs) {
    && "href" in card.anchor
    && item.link == card.anchor["href"]
    && item.title == Slug(card.anchor["href"])
    && item.image == ListImage(img)
    && item.labelText == card.titleHtml
    && item.kind == card.typeHtml
  }

  /**
   * `extractAnimeList`: card `i` is formatted with image `i` of the whole
   * document. A card without an `href` (`undefined.split`) or without a
   * matching image (`undefined.attributes`) throws.
   */
  function ExtractAnimeList(cards: seq<Card>, images: seq<Attrs>): (r: Result<seq<AnimeListItem>>)
    ensures r.Ok? <==> |cards| <= |images| &&
                       forall i :: 0 <= i < |cards| ==> "href" in cards[i].anchor
    ensures r.Err? ==> r.error == TypeError
    ensures r.Ok? ==> |r.value| == |cards|
    ensures r.Ok? ==> forall i :: 0 <= i < |cards| ==> Describes(r.value[i], cards[i], images[i])
  {
    if cards == [] then Ok([])
    else if "href" !in cards[0].anchor || images == [] then Err(TypeError)
    else
      match ExtractAnimeList(cards[1..], images[1..])
      case Err(e) => Err(e)
      case Ok(rest) =>
        var out := [FormatCard(cards[0], images[0])] + rest;
        DescribesCons(cards, images, rest);
        Ok(out)
  }

  /** Prepending card 0's record to the records of the later cards keeps every record at its card's position. */
  lemma DescribesCons(cards: seq<Card>, images: seq<Attrs>, rest: seq<AnimeListItem>)
    requires 1 <= |cards| <= |images| && "href" in cards[0].anchor
    requires |rest| == |cards| - 1
    requires forall i :: 0 <= i < |rest| ==> Describes(rest[i], cards[1..][i], images[1..][i])
    ensures forall i :: 0 <= i < |cards| ==>
      Describes(([FormatCard(cards[0], images[0])] + rest)[i], cards[i], images[i])
  {
    var out := [FormatCard(cards[0], images[0])] + rest;
    forall i | 0 <= i < |cards|
      ensures Describes(out[i], cards[i], images[i])
    {
      if i > 0 {
        assert out[i] == rest[i - 1];
        assert cards[1..][i - 1] == cards[i] && images[1..][i - 1] == images[i];
      }
    }
  }

  // ---------------------------------------------------------------------
  // Anime details

  datatype Episode = Episode(index: Value, id: Value)

  /** `episodes.map(item => ({ index: item[0], id: item[1] }))`. */
  function FormatEpisodes(items: seq<Value>): (r: Result<seq<Episode>>)
    ensures r.Ok? <==> forall k :: 0 <= k < |items| ==> !IsNullish(items[k])
    ensures r.Err? ==> r.error == TypeError
    ensures r.Ok? ==> |r.value| == |items|
    ensures r.Ok? ==> forall k :: 0 <= k < |items| ==>
      ElementAt(items[k], 0) == Ok(r.value[k].index) && ElementAt(items[k], 1) == Ok(r.value[k].id)
  {
    if items == [] then Ok([])
    else if IsNullish(items[0]) then Err(TypeError)
    else
      match FormatEpisodes(items[1..])
      case Err(e) => Err(e)
      case Ok(rest) => Ok([Episode(ElementAt(items[0], 0).value, ElementAt(items[0], 1).value)] + rest)
  }

  /** A list of `[index, id]` pairs maps position by position onto episodes. */
  lemma EpisodesFromPairs(items: seq<Value>)
    requires forall k :: 0 <= k < |items| ==> items[k].Arr? && |items[k].items| == 2
    ensures FormatEpisodes(items).Ok?
    ensures var es := FormatEpisodes(items).value;
      |es| == |items| &&
      forall k :: 0 <= k < |items| ==> es[k] == Episode(items[k].items[0], items[k].items[1])
  {
  }

  /** The parsed `episodes` value: only an array has `.map`. */
  function EpisodesOf(v: Value): (r: Result<seq<Episode>>)
    ensures !v.Arr? ==> r == Err(TypeError)
    ensures v.Arr? ==> r == FormatEpisodes(v.items)
  {
    if v.Arr? then FormatEpisodes(v.items) else Err(TypeError)
  }

  /** `extractEpisodes`: the `var episodes` literal, `'[]'` when absent or empty. */
  function ExtractEpisodes(scripts: seq<string>, parse: Parser): (r: Result<seq<Episode>>)
    ensures r == Err(SyntaxError) <==> parse(LiteralOrDefault(ExtractVariableValue(scripts, "var episodes"), "[]")).None?
    ensures var parsed := parse(LiteralOrDefault(ExtractVariableValue(scripts, "var episodes"), "[]"));
      parsed.Some? ==> r == EpisodesOf(parsed.value)
  {
    match parse(LiteralOrDefault(ExtractVariableValue(scripts, "var episodes"), "[]"))
    case None => Err(SyntaxError)
    case Some(v) => EpisodesOf(v)
  }

  /** No script assigns `episodes`: the default `[]` is parsed and there are no episodes. */
  lemma EpisodesAbsent(scripts: seq<string>, parse: Parser)
    requires forall i :: 0 <= i < |scripts| ==> !Includes(scripts[i], "var episodes =")
    requires parse("[]") == Some(Arr([]))
    ensures ExtractEpisodes(scripts, parse) == Ok([])
  {
    assert AssignmentToken("var episodes") == "var episodes =";
  }

  /**
   * End to end: a script assigning a `;`-free literal that parses to a list
   * of `[index, id]` pairs gives one episode per pair, in order.
   */
  lemma EpisodesFromScript(before: seq<string>, pre: string, body: string, post: string,
                           parse: Parser, pairs: seq<Value>)
    requires forall j :: 0 <= j < |before| ==> !Includes(before[j], AssignmentToken("var episodes"))
    requires forall j: nat :: j < |pre| ==> !OccursAt(pre + AssignmentToken("var episodes"), AssignmentToken("var episodes"), j)
    requires ';' !in body && body != ""
    requires parse(body) == Some(Arr(pairs))
    requires forall k :: 0 <= k < |pairs| ==> pairs[k].Arr? && |pairs[k].items| == 2
    ensures var r := ExtractEpisodes(before + [pre + AssignmentToken("var episodes") + body + ";" + post], parse);
      && r.Ok? && |r.value| == |pairs|
      && forall k :: 0 <= k < |pairs| ==> r.value[k] == Episode(pairs[k].items[0], pairs[k].items[1])
  {
    ExtractAssignedLiteral(before, pre, "var episodes", body, post);
    EpisodesFromPairs(pairs);
  }

  datatype BasicInfo = BasicInfo(index: Value, labelValue: Value, title: Value)

  /** `const [index, label, title] = parsed`. */
  function BasicInfoOf(v: Value): (r: Result<BasicInfo>)
    ensures r.Ok? <==> v.Arr? || v.Str?
    ensures r.Err? ==> r.error == TypeError
    ensures v.Arr? ==> r == Ok(BasicInfo(
      if |v.items| > 0 then v.items[0] else Undefined,
      if |v.items| > 1 then v.items[1] else Undefined,
      if |v.items| > 2 then v.items[2] else Undefined))
    ensures v.Str? ==> r == Ok(BasicInfo(
      if |v.s| > 0 then Str([v.s[0]]) else Undefined,
      if |v.s| > 1 then Str([v.s[1]]) else Undefined,
      if |v.s| > 2 then Str([v.s[2]]) else Undefined))
  {
    match Destructure3(v)
    case Err(e) => Err(e)
    case Ok((index, labelValue, title)) => Ok(BasicInfo(index, labelValue, title))
  }

  /** `extractAnimeBasicInfo`: the `var anime_info` literal, `'[]'` when absent or empty. */
  function ExtractAnimeBasicInfo(scripts: seq<string>, parse: Parser): (r: Result<BasicInfo>)
    ensures r == Err(SyntaxError) <==> parse(LiteralOrDefault(ExtractVariableValue(scripts, "var anime_info"), "[]")).None?
    ensures var parsed := parse(LiteralOrDefault(ExtractVariableValue(scripts, "var anime_info"), "[]"));
      parsed.Some? ==> r == BasicInfoOf(parsed.value)
  {
    match parse(LiteralOrDefault(ExtractVariableValue(scripts, "var anime_info"), "[]"))
    case None => Err(SyntaxError)
    case Some(v) => BasicInfoOf(v)
  }

  /** No script assigns `anime_info`: the default `[]` leaves index, label and title undefined. */
  lemma BasicInfoAbsent(scripts: seq<string>, parse: Parser)
    requires forall i :: 0 <= i < |scripts| ==> !Includes(scripts[i], "var anime_info =")
    requires parse("[]") == Some(Arr([]))
    ensures ExtractAnimeBasicInfo(scripts, parse) == Ok(BasicInfo(Undefined, Undefined, Undefined))
  {
    assert AssignmentToken("var anime_info") == "var anime_info =";
  }

  /** End to end: a script assigning a non-empty `;`-free literal gives the destructuring of its parsed value. */
  lemma BasicInfoFromScript(before: seq<string>, pre: string, body: string, post: string, parse: Parser, v: Value)
    requires forall j :: 0 <= j < |before| ==> !Includes(before[j], AssignmentToken("var anime_info"))
    requires forall j: nat :: j < |pre| ==> !OccursAt(pre + AssignmentToken("var anime_info"), AssignmentToken("var anime_info"), j)
    requires ';' !in body && body != ""
    requires parse(body) == Some(v)
    ensures ExtractAnimeBasicInfo(before + [pre + AssignmentToken("var anime_info") + body + ";" + post], parse) == BasicInfoOf(v)
  {
    ExtractAssignedLiteral(before, pre, "var anime_info", body, post);
  }

  /** The script text of the detail-page example, `var anime_info = ["42","TV","My Show"];`. */
  const AnimeInfoScript: string := "var anime_info = [\"42\",\"TV\",\"My Show\"];"

  /** The literal assigned in that script, with the space after `=`. */
  const AnimeInfoBody: string := " [\"42\",\"TV\",\"My Show\"]"

  /** `AnimeInfoScript` assigns `AnimeInfoBody` to `anime_info`, and the body holds no `;`. */
  lemma AnimeInfoScriptShape()
    ensures AnimeInfoScript == AssignmentToken("var anime_info") + AnimeInfoBody + ";"
    ensures ';' !in AnimeInfoBody
  {
    assert AssignmentToken("var anime_info") == "var anime_info =";
  }

  /** The literal cut from that script: the text between `=` and `;`, leading space included. */
  lemma AnimeInfoScriptLiteral()
    ensures ExtractVariableValue([AnimeInfoScript], "var anime_info") == Some(AnimeInfoBody)
  {
    AnimeInfoScriptShape();
    var script := "" + AssignmentToken("var anime_info") + AnimeInfoBody + ";" + "";
    assert script == AnimeInfoScript;
    assert [] + [script] == [AnimeInfoScript];
    ExtractAssignedLiteral([], "", "var anime_info", AnimeInfoBody, "");
  }

  /** The detail-page example: `["42","TV","My Show"]` gives index 42, label TV, title My Show. */
  lemma BasicInfoOfExample(parse: Parser)
    requires parse(AnimeInfoBody) == Some(Arr([Str("42"), Str("TV"), Str("My Show")]))
    ensures ExtractAnimeBasicInfo([AnimeInfoScript], parse) == Ok(BasicInfo(Str("42"), Str("TV"), Str("My Show")))
  {
    AnimeInfoScriptLiteral();
  }

  /** The detail page as read through the DOM: scripts, `#votes_prmd`, `#votes_nmbr`, `.Nvgnrs a` texts and the description text. */
  datatype DetailsPage = DetailsPage(scripts: seq<string>, rate: string, votes: string, genres: seq<string>, description: string)

  datatype AnimeDetails = AnimeDetails(
    index: Value, labelValue: Value, title: Value,
    rate: string, votes: string, genres: seq<string>, description: string,
    episodes: seq<Episode>)

  /** `extractAnimeDetails`: the basic info spread into the record, then the page fields, then the episodes. */
  function ExtractAnimeDetails(page: DetailsPage, parse: Parser): (r: Result<AnimeDetails>)
    ensures r.Ok? <==> ExtractAnimeBasicInfo(page.scripts, parse).Ok? && ExtractEpisodes(page.scripts, parse).Ok?
    ensures ExtractAnimeBasicInfo(page.scripts, parse).Err? ==> r == Err(ExtractAnimeBasicInfo(page.scripts, parse).error)
    ensures ExtractAnimeBasicInfo(page.scripts, parse).Ok? && ExtractEpisodes(page.scripts, parse).Err? ==>
      r == Err(ExtractEpisodes(page.scripts, parse).error)
    ensures r.Ok? ==>
      var info := ExtractAnimeBasicInfo(page.scripts, parse).value;
      && r.value.index == info.index && r.value.labelValue == info.labelValue && r.value.title == info.title
      && r.value.rate == page.rate && r.value.votes == page.votes
      && r.value.genres == page.genres && r.value.description == page.description
      && r.value.episodes == ExtractEpisodes(page.scripts, parse).value
  {
    match ExtractAnimeBasicInfo(page.scripts, parse)
    case Err(e) => Err(e)
    case Ok(info) =>
      match ExtractEpisodes(page.scripts, parse)
      case Err(e) => Err(e)
      case Ok(episodes) =>
        Ok(AnimeDetails(info.index, info.labelValue, info.title, page.rate, page.votes,
                        page.genres, page.description, episodes))
  }

  // ---------------------------------------------------------------------
  // Video sources

  datatype VideoSources = VideoSources(videos: seq<Value>, downloads: Value)

  /** `item.server === 'mega'` for an item that is not nullish. */
  predicate IsMega(item: Value) {
    item.Obj? && "server" in item.fields && item.fields["server"] == Str("mega")
  }

  /** `extractDownloadLink`: the `url` of the first entry served by `mega`, `''` when there is none. */
  function ExtractDownloadLink(videos: seq<Value>): (r: Result<Value>)
    ensures (forall i :: 0 <= i < |videos| ==> !IsNullish(videos[i])) ==> r.Ok?
    ensures (forall i :: 0 <= i < |videos| ==> !IsNullish(videos[i]) && !IsMega(videos[i])) ==> r == Ok(Str(""))
    ensures r.Err? ==> r.error == TypeError
  {
    if videos == [] then Ok(Str(""))
    else
      match GetProp(videos[0], "server")
      case Err(e) => Err(e)
      case Ok(server) =>
        if server == Str("mega") then GetProp(videos[0], "url")
        else ExtractDownloadLink(videos[1..])
  }

  /** The first `mega` entry decides the link, whatever follows it. */
  lemma {:induction false} DownloadLinkIsFirstMega(videos: seq<Value>, k: nat)
    requires k < |videos| && IsMega(videos[k])
    requires forall j :: 0 <= j < k ==> !IsNullish(videos[j]) && !IsMega(videos[j])
    ensures ExtractDownloadLink(videos) == GetProp(videos[k], "url")
  {
    if k > 0 {
      assert !IsMega(videos[0]) && !IsNullish(videos[0]);
      DownloadLinkIsFirstMega(videos[1..], k - 1);
    }
  }

  /** `videos.map(item => item.code)`. */
  function CodesOf(items: seq<Value>): (r: Result<seq<Value>>)
    ensures r.Ok? <==> forall k :: 0 <= k < |items| ==> !IsNullish(items[k])
    ensures r.Err? ==> r.error == TypeError
    ensures r.Ok? ==> |r.value| == |items|
    ensures r.Ok? ==> forall k :: 0 <= k < |items| ==> GetProp(items[k], "code") == Ok(r.value[k])
  {
    if items == [] then Ok([])
    else
      match GetProp(items[0], "code")
      case Err(e) => Err(e)
      case Ok(code) =>
        match CodesOf(items[1..])
        case Err(e) => Err(e)
        case Ok(rest) => Ok([code] + rest)
  }

  /** The parsed `videos` value: its `SUB` list must be an array of non-nullish entries. */
  function VideoSourcesOf(v: Value): (r: Result<VideoSources>)
    ensures r.Ok? <==> v.Obj? && "SUB" in v.fields && v.fields["SUB"].Arr? &&
                       forall k :: 0 <= k < |v.fields["SUB"].items| ==> !IsNullish(v.fields["SUB"].items[k])
    ensures r.Err? ==> r.error == TypeError
    ensures r.Ok? ==>
      var sub := v.fields["SUB"].items;
      && CodesOf(sub) == Ok(r.value.videos)
      && ExtractDownloadLink(sub) == Ok(r.value.downloads)
  {
    match GetProp(v, "SUB")
    case Err(e) => Err(e)
    case Ok(sub) =>
      if !sub.Arr? then Err(TypeError)
      else
        match CodesOf(sub.items)
        case Err(e) => Err(e)
        case Ok(codes) =>
          match ExtractDownloadLink(sub.items)
          case Err(e) => Err(e)
          case Ok(link) => Ok(VideoSources(codes, link))
  }

  /** `extractVideoSources`: the `var videos` literal, `'{}'` when absent or empty. */
  function ExtractVideoSources(scripts: seq<string>, parse: Parser): (r: Result<VideoSources>)
    ensures r == Err(SyntaxError) <==> parse(LiteralOrDefault(ExtractVariableValue(scripts, "var videos"), "{}")).None?
    ensures var parsed := parse(LiteralOrDefault(ExtractVariableValue(scripts, "var videos"), "{}"));
      parsed.Some? ==> r == VideoSourcesOf(parsed.value)
  {
    match parse(LiteralOrDefault(ExtractVariableValue(scripts, "var videos"), "{}"))
    case None => Err(SyntaxError)
    case Some(v) => VideoSourcesOf(v)
  }

  /** No script assigns `videos`: `{}` has no `SUB`, and mapping over `undefined` throws. */
  lemma VideosAbsentThrows(scripts: seq<string>, parse: Parser)
    requires forall i :: 0 <= i < |scripts| ==> !Includes(scripts[i], "var videos =")
    requires parse("{}") == Some(Obj(map[]))
    ensures ExtractVideoSources(scripts, parse) == Err(TypeError)
  {
    assert AssignmentToken("var videos") == "var videos =";
  }

  /** End to end: a script assigning a non-empty `;`-free literal gives the sources of its parsed value. */
  lemma VideoSourcesFromScript(before: seq<string>, pre: string, body: string, post: string, parse: Parser, v: Value)
    requires forall j :: 0 <= j < |before| ==> !Includes(before[j], AssignmentToken("var videos"))
    requires forall j: nat :: j < |pre| ==> !OccursAt(pre + AssignmentToken("var videos"), AssignmentToken("var videos"), j)
    requires ';' !in body && body != ""
    requires parse(body) == Some(v)
    ensures ExtractVideoSources(before + [pre + AssignmentToken("var videos") + body + ";" + post], parse) == VideoSourcesOf(v)
  {
    ExtractAssignedLiteral(before, pre, "var videos", body, post);
  }

  /** A provider entry of the `SUB` track. */
  function Provider(code: string, server: string, url: string): Value {
    Obj(map["code" := Str(code), "server" := Str(server), "url" := Str(url)])
  }

  /** Two providers, the first on `mega`: both codes in order, and the `mega` link. */
  lemma VideoSourcesWithMega()
    ensures VideoSourcesOf(Obj(map["SUB" := Arr([Provider("c1", "mega", "http://x/1"), Provider("c2", "other", "http://y/2")])]))
            == Ok(VideoSources([Str("c1"), Str("c2")], Str("http://x/1")))
  {
    var sub := [Provider("c1", "mega", "http://x/1"), Provider("c2", "other", "http://y/2")];
    assert GetProp(sub[0], "code") == Ok(Str("c1"));
    assert GetProp(sub[1], "code") == Ok(Str("c2"));
    assert CodesOf(sub).Ok?;
    assert CodesOf(sub).value == [Str("c1"), Str("c2")];
    assert ExtractDownloadLink(sub) == Ok(Str("http://x/1"));
  }

  /** The same providers with no `mega` entry: the link is the empty string. */
  lemma VideoSourcesWithoutMega()
    ensures VideoSourcesOf(Obj(map["SUB" := Arr([Provider("c1", "fembed", "http://x/1"), Provider("c2", "other", "http://y/2")])]))
            == Ok(VideoSources([Str("c1"), Str("c2")], Str("")))
  {
    var sub := [Provider("c1", "fembed", "http://x/1"), Provider("c2", "other", "http://y/2")];
    assert GetProp(sub[0], "code") == Ok(Str("c1"));
    assert GetProp(sub[1], "code") == Ok(Str("c2"));
    assert CodesOf(sub).Ok?;
    assert CodesOf(sub).value == [Str("c1"), Str("c2")];
    assert !IsMega(sub[0]) && !IsMega(sub[1]);
  }

  // ---------------------------------------------------------------------
  // Latest episodes

  /** A `.ListEpisodios li` item: its anchor's `href`, `.Title` and `.Capi` texts and its image's `src`. */
  datatype LatestItem = LatestItem(href: string, titleText: string, capiText: string, imgSrc: string)

  datatype LatestEpisodeItem = LatestEpisodeItem(title: Option<string>, labelText: string, episode: string, image: string)

  /** `extractLatestEpisodes`: one record per list item, in document order. */
  function ExtractLatestEpisodes(items: seq<LatestItem>): (r: seq<LatestEpisodeItem>)
    ensures |r| == |items|
    ensures forall i :: 0 <= i < |items| ==>
      && r[i].title == Slug(items[i].href)
      && r[i].labelText == items[i].titleText
      && r[i].episode == items[i].capiText
      && r[i].image == LatestImage(items[i].imgSrc)
  {
    if items == [] then []
    else
      [LatestEpisodeItem(Slug(items[0].href), items[0].titleText, items[0].capiText, LatestImage(items[0].imgSrc))]
      + ExtractLatestEpisodes(items[1..])
  }
}
