# animeflv scraper selectors, modelled in Dafny

This project models `src/selectors.js` of the animeflv scraper. That file
turns catalogue, detail, episode and "latest episodes" pages into plain
records. Its core is a small extractor. The extractor finds the first
inline script that contains `<name> =`. It then cuts the text between that
token and the next `;`, and the caller hands that text to `JSON.parse`. When
nothing was extracted, or the extracted text was empty, the caller parses a
default literal instead.

The parsed HTML document is given as plain data:

- the texts of the inline scripts, in document order;
- the records of the elements each extractor selects (attribute maps and
  inner texts).

`JSON.parse` is a parameter `parse: string -> Option<Value>`. `None` stands
for the `SyntaxError` it throws. The JavaScript errors that the code does
not catch are results: `Err(SyntaxError)` from parsing, and `Err(TypeError)`
from reading a property of `undefined`/`null`, mapping over a non-array or
destructuring a non-iterable. Everything is pure, so everything is a
function, with lemmas.

Modules:

- `Wrappers`: `Option`, standing in for `undefined`.
- `JsText`: `includes`, `indexOf`, `substring` (clamping and swapping its
  bounds) and `split` on one character, over `seq<char>`.
- `JsValue`: parsed values plus `undefined`, and the property, index and
  destructuring reads applied to them.
- `ScriptVariable`: `extractVariableValue` and the `value || default` rule.
- `Selectors`: the page extractors and their field rules.

`label` and `type` are reserved words in Dafny. The record fields with those
names are called `labelText`/`labelValue` and `kind`.

## Model

| member | source | states |
|---|---|---|
| `JsText.IndexOfFrom` | src/selectors.js:26 | the result is the first position at or after `from` where the pattern occurs, or -1 exactly when there is none |
| `JsText.IndexOf` | src/selectors.js:25-26 | `indexOf` with its position clamped: the first occurrence at or after the position, -1 exactly when none follows |
| `JsText.IncludesIffFound` | src/selectors.js:17-25 | `includes(token)` holds exactly when `indexOf(token)` is not -1, so the chosen script always has a first occurrence |
| `JsText.Substring` | src/selectors.js:27 | ordered in-range bounds give `s[start..end]`; a negative end gives the prefix `s[..start]` |
| `JsText.SubstringSymmetric` | src/selectors.js:27 | `substring` gives the same text whichever bound comes first |
| `JsText.Split` | src/selectors.js:46 | `split('/')` yields at least one piece, and no piece contains the separator |
| `JsText.JoinSplit` | src/selectors.js:46 | joining the pieces of a split with the separator restores the string |
| `JsText.SplitJoin` | src/selectors.js:46 | splitting the join of separator-free pieces gives back exactly those pieces |
| `JsText.SplitLength` | src/selectors.js:46 | the number of pieces is the number of separators plus one |
| `JsValue.GetProp` | src/selectors.js:102-103 | a property read throws exactly on `undefined`/`null`, gives an object's own entry, and gives `undefined` otherwise |
| `JsValue.ElementAt` | src/selectors.js:37-38 | `item[k]` throws exactly on `undefined`/`null`; on an array it is element `k` or `undefined` past the end; on a string it is the one-character string; on an object it is the entry under the decimal key of `k`; on a number or a boolean it is `undefined` |
| `JsValue.Destructure3` | src/selectors.js:78 | `const [a, b, c] = v` succeeds exactly on arrays and strings; each component is the array's element (or the string's character) at that position, `undefined` past the end |
| `JsValue.IndexKey` | src/selectors.js:37-38 | the property name of index `k` is a string of decimal digits whose value is `k`, with a leading `0` only for index 0 |
| `ScriptVariable.AssignmentToken` | src/selectors.js:13 | the token is the name followed by `" ="` |
| `ScriptVariable.FirstContaining` | src/selectors.js:15-21 | `find` returns the first script in document order whose text includes the token, and nothing exactly when no script does |
| `ScriptVariable.LiteralSpan` | src/selectors.js:23-27 | with `start` the end of the token's first occurrence: if a `;` follows, the span is the `;`-free text from `start` up to the first `;`; otherwise it is the prefix `text[..start]` |
| `ScriptVariable.SpanUpToSemicolon` | src/selectors.js:26-27 | `substring(start, indexOf(';', start))` is the `;`-free text up to the first `;`, or the prefix before `start` when `indexOf` gives -1 |
| `ScriptVariable.ExtractVariableValue` | src/selectors.js:12-30 | the result is absent exactly when no script includes `name + " ="`; otherwise it is the span of a script that includes it |
| `ScriptVariable.ExtractUsesFirstScript` | src/selectors.js:17-19 | when several scripts assign the variable, the first one in document order gives the value |
| `ScriptVariable.SpanOfFirstOccurrence` | src/selectors.js:25-27 | if a `;` follows the token's first occurrence, the value is the `;`-free text right after the token, up to that first `;`; otherwise it is the whole prefix up to and including the token |
| `ScriptVariable.ExtractAssignedLiteral` | src/selectors.js:12-30 | round trip: a script `pre + name + " =" + body + ";" + post` with a `;`-free body, preceded only by non-assigning scripts, yields exactly `body` |
| `ScriptVariable.UnterminatedLiteralIsPrefix` | src/selectors.js:25-27 | with no `;` after the token, the literal handed to the parser is the script's prefix ending with the token, never the caller's default |
| `ScriptVariable.LiteralOrDefault` | src/selectors.js:33 | an absent or empty extraction is replaced by the default literal (`'[]'` or `'{}'`); a non-empty one passes unchanged |
| `Selectors.Slug` | src/selectors.js:46 | `href.split('/')[2]` is present exactly when the path has at least two `/`, and it never contains `/` |
| `Selectors.SlugOfPath` | src/selectors.js:46 | for any `a/b/t` followed by nothing or by `/...`, with no `/` in `a`, `b`, `t`, the slug is `t` |
| `Selectors.SlugLocated` | src/selectors.js:123-126 | conversely, the slug is exactly the text between the second and third `/` of the path |
| `Selectors.SlugOfCatalogueLink` | src/selectors.js:46 | `/anime/my-show-title/` gives `my-show-title` |
| `Selectors.AttrText` | src/selectors.js:52 | a missing attribute read inside a template literal prints as `undefined` |
| `Selectors.ListImage` | src/selectors.js:50-52 | the catalogue image is `src` when it is non-empty, and otherwise the base URL followed by `data-cfsrc` |
| `Selectors.LatestImage` | src/selectors.js:132 | the latest-episodes image is always the base URL followed by `src` |
| `Selectors.FormatCard` | src/selectors.js:44-64 | a card's record holds its `href` as link, the slug of that link as title, the resolved image, and the `.Title` and `.Type` markup |
| `Selectors.ExtractAnimeList` | src/selectors.js:44-69 | succeeds exactly when every card has an `href` and there are at least as many images as cards; the output keeps the cards' length and order, and card `i` takes its link, slug, texts and image `i` |
| `Selectors.FormatEpisodes` | src/selectors.js:36-39 | fails exactly on a nullish entry; otherwise keeps length and order, with `index == item[0]` and `id == item[1]` |
| `Selectors.EpisodesFromPairs` | src/selectors.js:36-39 | a list of `[index, id]` pairs maps position by position onto `Episode(index, id)` |
| `Selectors.EpisodesOf` | src/selectors.js:34-36 | a parsed value that is not an array has no `.map` and throws; an array is formatted entry by entry |
| `Selectors.ExtractEpisodes` | src/selectors.js:32-42 | the extracted-or-default literal is parsed; a failed parse is the only `SyntaxError`, and a successful one gives `EpisodesOf` of the parsed value |
| `Selectors.EpisodesFromScript` | src/selectors.js:32-42 | end to end: a script assigning a `;`-free literal that parses to `[index, id]` pairs gives one `Episode(index, id)` per pair, in order |
| `Selectors.EpisodesAbsent` | src/selectors.js:32-34 | with no script assigning `episodes`, the default `[]` is parsed and the result is an empty list |
| `Selectors.BasicInfoOf` | src/selectors.js:78-84 | the positional destructuring gives `index`, `label`, `title` as the array's elements (or the string's characters) 0, 1, 2, each `undefined` past the end; a non-iterable throws |
| `Selectors.ExtractAnimeBasicInfo` | src/selectors.js:76-85 | the extracted-or-default literal is parsed; a failed parse is the only `SyntaxError`, and a successful one gives `BasicInfoOf` of the parsed value |
| `Selectors.BasicInfoAbsent` | src/selectors.js:77-78 | with no script assigning `anime_info`, the default `[]` leaves index, label and title all undefined |
| `Selectors.BasicInfoFromScript` | src/selectors.js:76-85 | end to end: a script assigning a `;`-free literal gives the destructuring of its parsed value |
| `Selectors.AnimeInfoScriptLiteral` | src/selectors.js:77 | the script `var anime_info = ["42","TV","My Show"];` yields the literal ` ["42","TV","My Show"]` |
| `Selectors.BasicInfoOfExample` | src/selectors.js:76-85 | that script gives index `42`, label `TV` and title `My Show` |
| `Selectors.ExtractAnimeDetails` | src/selectors.js:87-98 | succeeds exactly when the basic info and the episodes do; a basic-info error comes first, and otherwise an episodes error is passed on unchanged; the record merges the basic info with the page's rate, votes, genres, description and episodes |
| `Selectors.ExtractDownloadLink` | src/selectors.js:112-115 | with no nullish entries it succeeds, and it gives `''` when no entry's `server` is exactly `mega` |
| `Selectors.DownloadLinkIsFirstMega` | src/selectors.js:113-114 | the `url` of the first entry whose `server` is exactly `mega` is the link, whatever follows it |
| `Selectors.CodesOf` | src/selectors.js:103 | fails exactly on a nullish entry; otherwise it is each entry's `code`, with length and order kept |
| `Selectors.VideoSourcesOf` | src/selectors.js:102-109 | succeeds exactly when `SUB` is an array without nullish entries; then `videos` are the entries' codes and `downloads` is the download link of that list |
| `Selectors.ExtractVideoSources` | src/selectors.js:100-110 | the extracted-or-default literal is parsed; a failed parse is the only `SyntaxError`, and a successful one gives `VideoSourcesOf` of the parsed value |
| `Selectors.VideoSourcesFromScript` | src/selectors.js:100-110 | end to end: a script assigning a `;`-free literal gives the sources of its parsed value |
| `Selectors.VideosAbsentThrows` | src/selectors.js:101-103 | with no script assigning `videos`, `{}` has no `SUB` and `undefined.map` throws a `TypeError` |
| `Selectors.VideoSourcesWithMega` | src/selectors.js:100-115 | the providers `c1` on `mega` and `c2` elsewhere give videos `[c1, c2]` and the `mega` URL |
| `Selectors.VideoSourcesWithoutMega` | src/selectors.js:112-115 | the same providers with no `mega` entry give the empty download link |
| `Selectors.ExtractLatestEpisodes` | src/selectors.js:117-135 | one record per list item, in order, with the path slug as title, the `.Title` and `.Capi` texts, and the prefixed image |

## Left out

- Parsing HTML and the selector engine (`parseHTML`, `querySelector`, `querySelectorAll`, `innerHTML`, `.text`) belong to `node-html-parser`. Their results are inputs here: script texts, card, image and list-item records, and the detail page's texts.
- `JSON.parse` is the caller's `parse` function. The JSON grammar is not modelled.
- A selector that finds no element (`querySelector` returning `null`, then a read of `null`) throws in the code. Here the records always hold their sub-elements. The exceptions are a card's missing `href` and a missing `i`-th image, which are modelled.
- `getAttribute('href')` and `getAttribute('src')` in the latest-episodes list are taken as present strings. The library's value for a missing attribute is not part of this model.
- `.trim()` on the description: the description is taken as already trimmed text.
- `GetProp` reads only the entries of a parsed object. On an array or a string it gives `undefined` for every key, including their own `length` and index keys. Prototype members of any value are not modelled. None of the keys this file reads by name (`SUB`, `code`, `server`, `url`) is an array or string property, or a prototype member of a parsed value.
- Dafny's `char` is a Unicode scalar value, while JavaScript indexes strings by UTF-16 code units. Index arithmetic agrees for text without characters outside the Basic Multilingual Plane.
- JSON numbers are an abstract `real`; nothing here computes with them.
- When several cards, episodes or providers would throw, the code throws at the first one. The model reports `TypeError` without saying which element caused it.
- `Selectors.ExtractDownloadLink`: its contract does not say what happens when a nullish entry comes before the first `mega` entry. The function body throws `TypeError` there, and `Selectors.VideoSourcesOf` only calls it on lists without nullish entries.
- A page without a `videos` variable would naturally give no sources. The code parses `'{}'`, reads its missing `SUB` and throws on `undefined.map`. The model follows the code (`Selectors.VideosAbsentThrows`).
- When no `;` follows the token, the code hands the script prefix ending in `" ="` to the parser, which rejects it. The model keeps this behaviour (`ScriptVariable.UnterminatedLiteralIsPrefix`). It does not substitute a "rest of the script" policy.
