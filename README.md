# Instagram media downloader: a verified model of the discovery, paging and naming core

This project models the core of a command-line tool. The tool pages through the GraphQL
feed of an Instagram profile and gathers the image and video URLs it finds in each decoded
response. It then sorts and caps the list and downloads every link under a file name that
does not collide with files already saved. A small credentials module turns a configured
cookie value into a cookie dict, builds a `Cookie` header back from that dict, and assembles
the request headers.

Modules, which follow the program's structure:

- `Wrappers`: `Option` and `Result`. `Result.Raised` stands for a Python exception that
  escapes the operation.
- `OrderedDicts`: Python dicts with string keys, as insertion-ordered entry sequences. It
  covers `d[k] = v`, `get`, `setdefault`, and assignment of a whole sequence of entries.
- `Strings`, `Seqs`, `Sorting`: `strip`, `split`, `join`, ASCII `lower`, `int`/`str`,
  comprehensions with a condition, slicing, Python's string order, and `sorted` on lists
  and sets.
- `Json`: the decoded response, with Python truthiness, `get` and `int()`. It also gives a
  pre-order of every value in the tree and paths into it.
- `Walkers`: the recursive generators `_iter_media_nodes`, `_iter_carousel_media`,
  `_iter_all_video_versions` and `_iter_all_key_values`, and `_find_page_info`.
- `Extraction`, `ExtractionProps`: `extract_links` (best video per node) and `collect_links`
  (every video URL), as loops proved against specification functions. Their properties are
  stated without reference to iteration order.
- `Crawl`, `CrawlProps`: `_variables`, `fetch_response`, and the pagination loop of `run`
  driven by a finite script of server replies.
- `Naming`, `Download`, `Run`: `safe_username`, `_next_file_path`, `download_links`, and the
  finalisation and download step of `run`.
- `Auth`: `_parse_cookie_header_to_dict`, `_parse_any_cookies_value`, `build_cookie_header`,
  `build_headers`, and the referer default of `build_session_and_headers`.

Imperative code in the source (the loops that fill sets, dicts and lists, and the `while True`
pagination loop) is modelled as Dafny methods with loop invariants. Each method's
postcondition equates its result with a specification function. The properties the program
promises are lemmas about those functions. The recursive scans are pure functions.

The environment becomes parameters:

- Server replies are a finite sequence `pages`: the k-th request gets `pages[k]`, a status and
  a body decoded as JSON (`None` when it is not JSON). `fetch_response` turns a status other
  than 200 or an undecodable body into `None`. A request past the end fails.
- Download replies are a function `reply: nat -> Reply` giving the status and `content-type`
  of the i-th GET.
- A directory is the list of names `glob` would report.
- `str.isalnum` is a predicate `isAlnum`, and `Path(urlparse(u).path).suffix` is a function
  `suffix`.
- The dict that `json.loads`/`ast.literal_eval` would yield from a configured string is an
  input `foreign`.

## Model

| member | source | states |
|---|---|---|
| Naming.SafeUsername | v1/instagram_downloader.py:8-9 | every character of the safe name is alphanumeric, `_`, `-` or `.`, and the name neither starts nor ends with `.`, `_` or `-`; it is the allowed characters of the stripped name, in order, with only a run of `.`, `_` and `-` cut from each end |
| Naming.SafeUsernameKeepsSafe | v1/instagram_downloader.py:8-9 | a name that is already safe comes back unchanged, when no whitespace character is alphanumeric |
| Naming.SafeUsernameIdempotent | v1/instagram_downloader.py:8-9 | sanitising an already safe name returns it unchanged, when no whitespace character is alphanumeric |
| Naming.SafeUsernameNoSeparator | v1/instagram_downloader.py:9 | the safe name, the prefix of every download and the directory name, holds no `/` and no `\` |
| Naming.ScanExactly | v1/instagram_downloader.py:237-250 | `existing_numbers` holds the number of every directory entry that parses, and nothing else |
| Naming.Max | v1/instagram_downloader.py:252 | `max(existing_numbers)` is an element of the list and no element exceeds it |
| Naming.MaxOf | v1/instagram_downloader.py:252 | the loop computing the maximum returns `max(xs)` |
| Naming.NextOfZero | v1/instagram_downloader.py:252 | with no numbered or bare match in the directory the chosen number is 0 |
| Naming.NextOfAbove | v1/instagram_downloader.py:252 | the chosen number is larger than the number of every matching entry |
| Naming.NextOfAttained | v1/instagram_downloader.py:252 | once any entry has a number, the chosen number is one more than the number of some entry |
| Naming.NextOfOrderFree | v1/instagram_downloader.py:238 | the chosen number depends only on which names the directory holds, not on the order `glob` yields them |
| Naming.NextFilePath | v1/instagram_downloader.py:234-254 | the loop returns `prefix`, then `_n` unless n is 0, then `ext`, where n is the specified next number of the listing |
| Naming.NameForNumber | v1/instagram_downloader.py:238-253 | a chosen name matches `prefix*ext` and parses back to its own number (the bare name to 0) |
| Naming.NextNameFresh | v1/instagram_downloader.py:234-254 | for a non-empty extension the chosen name is never a name already in the directory |
| Naming.NextAfterSave | v1/instagram_downloader.py:234-254 | saving under the chosen name moves the next choice on by exactly one |
| Naming.FirstNames | v1/instagram_downloader.py:252-253 | an empty directory yields numbers 0, 1, 2 in turn: `alice.jpg`, `alice_1.jpg`, `alice_2.jpg` |
| Download.FinalExt | v1/instagram_downloader.py:265 | the extension is never empty; a non-empty URL extension is kept, and an empty one is replaced by a default that is a video extension exactly when the reply is a video |
| Download.DownloadLinks | v1/instagram_downloader.py:256-273 | the loop's count and directories equal the specified fold over all URLs: status 200 only, video by extension or `video/` content type, saved under the next free name in the chosen directory |
| Download.DownloadCount | v1/instagram_downloader.py:257-273 | the returned count is the number of replies with status 200, and never more than the number of URLs |
| Download.DownloadGrows | v1/instagram_downloader.py:264-268 | both directories only grow, together by exactly one name per file counted |
| Download.DownloadNoOverwrite | v1/instagram_downloader.py:264-267 | no download overwrites a file: directories that held no name twice still do not |
| Run.PyPrefix | v1/instagram_downloader.py:311 | `s[:n]` is a prefix of `s` of length `min(n, len(s))` for `n >= 0`, and `max(len(s) + n, 0)` for a negative `n` |
| Run.Finalise | v1/instagram_downloader.py:307-317 | the finalisation computes the sorted images followed by the sorted videos, capped by `max_items`, with the two split lists filtered from it and sorted |
| Run.FinalisedLength | v1/instagram_downloader.py:307-311 | `combined` is a prefix of sorted images followed by sorted videos, and holds all of them without a cap and exactly `min(max_items, len(imgs) + len(vids))` links for `max_items >= 0` |
| Run.FinalisedSplit | v1/instagram_downloader.py:315-317 | the split lists are sorted and hold exactly the links of `combined` that are images, respectively videos |
| Run.FinalisedDisjoint | v1/instagram_downloader.py:307-317 | when no link is both an image and a video, the image list is the first `max_items` sorted images and the video list is the sorted videos that fit in what is left of the cap |
| Run.RunAll | v1/instagram_downloader.py:276-323 | `run` crawls, finalises, and downloads `combined` unless it is empty; an exception while crawling escapes |
| Run.RunDownloadsAtMostCap | v1/instagram_downloader.py:310-323 | at most one file is saved per link of `combined`, so never more than `max_items` |
| Crawl.Variables | v1/instagram_downloader.py:45-60 | the variables are a dict with unique keys that carries the user name, and carries `after` exactly when the cursor is truthy, with that cursor as its value |
| Crawl.NextCursor | v1/instagram_downloader.py:299-304 | a next cursor exists exactly when a page info is found whose `has_next_page` and `end_cursor` are both truthy, and it is that `end_cursor` |
| Crawl.CrawlLoop | v1/instagram_downloader.py:281-304 | the `while True` loop ends in the state of the specified crawl, or raises exactly when it does |
| CrawlProps.CrawlAllChained | v1/instagram_downloader.py:284-304 | the first request has no cursor and each later one carries the cursor of the page before it; the final sets are exactly the union of what the fetched truthy pages yield; no request before the last had reached the cap; the last request is the one where a stop condition holds; at most one request more than the script has pages is made |
| CrawlProps.GatheredIn | v1/instagram_downloader.py:290-292 | a link is in the union gathered from a run of requests exactly when one of those pages yields it |
| CrawlProps.FailedReplyEndsCrawl | v1/instagram_downloader.py:68-89 | a reply whose status is not 200, or whose body is not JSON, is the last request of the loop |
| CrawlProps.FirstFetchStops | v1/instagram_downloader.py:286-288 | a failed or falsy first fetch (`None`, `{}`, `[]`) ends the loop with nothing gathered |
| CrawlProps.CapBeforePageInfo | v1/instagram_downloader.py:295-299 | a first page that reaches the cap ends the loop even when its page info announces a next page |
| CrawlProps.LaterRequestsCarryCursor | v1/instagram_downloader.py:284-304 | every request after the first has `after` among its variables, set to the end cursor it follows |
| Json.PreOrderReachable | v1/instagram_downloader.py:91-112 | the pre-order visits exactly the values reachable from the root along a path |
| Walkers.MediaNodesPreOrder | v1/instagram_downloader.py:103-112 | `_iter_media_nodes` yields, in pre-order, exactly the dicts holding `image_versions2` or `video_versions`, still descending into a matched dict |
| Walkers.MediaNodesReachable | v1/instagram_downloader.py:103-112 | a value is yielded exactly when it is a media dict reachable from the root |
| Walkers.FindPageInfoPreOrder | v1/instagram_downloader.py:218-231 | `_find_page_info` returns the first dict of the pre-order whose keys include `end_cursor` and `has_next_page`, or `None` |
| Walkers.FindPageInfoFirst | v1/instagram_downloader.py:218-231 | `None` exactly when no value of the tree is a page info; otherwise the result is a page info and no earlier value in pre-order is one |
| Walkers.VideoVersionsAreKeyValues | v1/instagram_downloader.py:186-207 | `_iter_all_video_versions` is `_iter_all_key_values` with the key `video_versions` |
| Walkers.KeyValuesPaths | v1/instagram_downloader.py:198-207 | a value is yielded for a key exactly when some path reaches it as the value of the first member with that key along the path, so a matched value is not descended into |
| Walkers.CarouselPaths | v1/instagram_downloader.py:91-101 | a value is yielded exactly when it is an item of the first `carousel_media` list along some path; such a list is not descended into, while a non-list value under that key is |
| Extraction.PyIter | v1/instagram_downloader.py:121 | `for c in x` yields a list's items, a dict's keys in order or a string's one-character strings in order, and raises on any other value |
| Extraction.Gather | v1/instagram_downloader.py:119-181 | a loop adding what each element yields raises exactly when one element raises, and otherwise gathers exactly the union of what the elements yield |
| Extraction.GatherInto | v1/instagram_downloader.py:121-181 | the set-filling loop returns the accumulator joined with the gathered set, or raises |
| Extraction.MaxBy | v1/instagram_downloader.py:129 | `max(vvs, key=...)` returns a position of the list whose key can be computed |
| Extraction.MaxByOk | v1/instagram_downloader.py:129 | `max` raises exactly when the key of some entry cannot be computed |
| Extraction.MaxByFirstMax | v1/instagram_downloader.py:129 | the entry `max` picks has the largest area, and every entry before it a strictly smaller one |
| Extraction.MaxByLoop | v1/instagram_downloader.py:129 | the loop that replaces the running best only by a strictly larger key returns what `max` returns |
| Extraction.NodeBestVideo | v1/instagram_downloader.py:127-131 | one media node contributes at most one video under `extract_links` |
| Extraction.AddNodeImages | v1/instagram_downloader.py:120-125 | the candidate loop of one node adds that node's 1080x1080 images to the set, or raises |
| Extraction.AddBestVideo | v1/instagram_downloader.py:127-131 | the video step of one node adds its best video to the set, or raises |
| Extraction.ExtractLinks | v1/instagram_downloader.py:115-143 | `extract_links` returns the sorted images followed by the sorted videos of the specified sets, or raises exactly when they do |
| Extraction.AddNodeVideos | v1/instagram_downloader.py:158-168 | the video steps of one node under `collect_links` add every entry URL and the node's own `video_url` |
| Extraction.AddListedVideos | v1/instagram_downloader.py:171-176 | the first fallback scan adds the truthy `url` of every dict entry of every `video_versions` list |
| Extraction.CollectNodeLinks | v1/instagram_downloader.py:149-168 | the node loop of `collect_links` gathers the specified image and video sets, or raises |
| Extraction.CollectLinks | v1/instagram_downloader.py:146-183 | `collect_links` returns the specified image set and the union of the node videos and both fallback scans, or raises |
| ExtractionProps.CandidateImageSquare | v1/instagram_downloader.py:122-125 | a candidate contributes a URL exactly when it is a dict whose width and height, with -1 for a missing one, are both 1080 and whose `url` is that string |
| ExtractionProps.NodeImagesExactly | v1/instagram_downloader.py:119-125 | the images gathered from the media nodes are exactly the URLs of their 1080x1080 candidates |
| ExtractionProps.ExtractImages | v1/instagram_downloader.py:119-125 | `extract_links` keeps an image URL exactly when it belongs to a 1080x1080 candidate of a media node |
| ExtractionProps.SameImages | v1/instagram_downloader.py:120-155 | `extract_links` and `collect_links` keep the same image set whenever neither raises |
| ExtractionProps.OneVideoPerNode | v1/instagram_downloader.py:127-131 | `extract_links` keeps no more videos than there are media nodes |
| ExtractionProps.NodeBestVideoPick | v1/instagram_downloader.py:127-131 | a node's video is exactly the `url` of the first entry of largest area, with 0 for a missing dimension, of its non-empty `video_versions` list |
| ExtractionProps.ExtractVideos | v1/instagram_downloader.py:119-131 | `extract_links` keeps a video URL exactly when it is the pick of some media node |
| ExtractionProps.CollectCoversExtract | v1/instagram_downloader.py:127-163 | every non-empty video pick of `extract_links` is among the videos of `collect_links` |
| ExtractionProps.CollectHasListedUrls | v1/instagram_downloader.py:171-176 | `collect_links` keeps the non-empty `url` of every entry of every `video_versions` list reachable anywhere |
| ExtractionProps.CollectHasVideoUrls | v1/instagram_downloader.py:179-181 | `collect_links` keeps every non-empty string found under `video_url` by the key scan |
| ExtractionProps.CollectSound | v1/instagram_downloader.py:146-183 | every video `collect_links` returns is a non-empty string that some dict of the response names, as its `video_url` or as the `url` of an entry of its `video_versions` list |
| ExtractionProps.NodeVideosSound | v1/instagram_downloader.py:158-168 | a video of one media node is a non-empty `url` of its `video_versions` list or its own `video_url` |
| ExtractionProps.ListedVideosSound | v1/instagram_downloader.py:171-176 | a video of a list found under `video_versions` is the non-empty `url` of one of its dict entries |
| ExtractionProps.KeyHitEntry | v1/instagram_downloader.py:198-207 | a value the key scan reaches under a key is the value of an entry with that key of some dict in the tree |
| Sorting.SortSeq | v1/instagram_downloader.py:317 | `sorted(list)` is sorted and a permutation of the list |
| Sorting.SortedUnique | v1/instagram_downloader.py:317 | a sorted permutation is unique, so `sorted` has one answer |
| Sorting.SortedOf | v1/instagram_downloader.py:307-308 | `sorted(set)` lists every element once, in strictly increasing order |
| Sorting.SortSet | v1/instagram_downloader.py:133-134 | inserting a set's elements one by one into a sorted list yields `sorted(set)` |
| Strings.Split | v1/auth.py:14 | `split` at one character returns at least one piece, no piece holds the separator, and joining the pieces restores the text |
| Strings.SplitJoin | v1/auth.py:14 | splitting undoes joining when no part holds the separator |
| Strings.StripBy | v1/auth.py:15 | `strip` returns a slice of the text with only strippable characters removed on each side, and none left at its ends |
| Strings.ParseIntToStr | v1/instagram_downloader.py:247-253 | `int(str(n)) == n` for every integer, so a numbered name parses back to its number |
| OrderedDicts.Put | v1/auth.py:20 | `d[k] = v` makes `k` map to `v`, leaves every other key alone, keeps the order of existing keys, appends a new key, and keeps keys unique |
| OrderedDicts.SetDefault | v1/auth.py:107 | `setdefault` adds the key only when it is absent, and keeps keys unique |
| OrderedDicts.PutAllGet | v1/auth.py:19-20 | after assigning a sequence of entries, each key holds the value of its last assignment and other keys keep theirs |
| Auth.CookiePartKept | v1/auth.py:15-19 | a part is kept exactly when it still holds `=` after stripping, and its key then holds no `=` |
| Auth.ParseCookieHeader | v1/auth.py:12-21 | the loop over the `;`-separated parts builds the specified dict |
| Auth.ParsedCookiesSpec | v1/auth.py:12-21 | the parsed dict has each key once, each key holds the value of the last part that assigns it, and keys and values are stripped with no `=` in a key |
| Auth.BuildCookieHeader | v1/auth.py:65-71 | the loop builds `"; ".join` of the `k=v` parts in dict order, skipping `None` values |
| Auth.PairsOfLift | v1/auth.py:66-70 | with every value present there is one `k=v` part per entry, in dict order |
| Auth.CookieHeaderEmpty | v1/auth.py:65-71 | the header is empty exactly when no value is present, so an empty dict gives `""` |
| Auth.CookieRoundTrip | v1/auth.py:12-71 | parsing the header built from a dict whose keys and values survive `k=v; ` gives the dict back |
| Auth.ParseAnyCookiesSpec | v1/auth.py:24-56 | `None`, a blank string or a value of another type gives no cookies; a dict keeps its order with every value made a string; any result has each key once |
| Auth.StrDictSpec | v1/auth.py:28 | `{str(k): str(v) ...}` has each key once and keeps the entries of a dict in order |
| Auth.ParseAnyHeaderRoundTrip | v1/auth.py:29-71 | a configured cookie-header string built from a dict reads back as that dict, when neither foreign parser yields a dict from it |
| Auth.BuildHeaders | v1/auth.py:74-95 | the method builds the specified headers: defaults, `cookie`, `x-csrftoken`, then the extras |
| Auth.MergeExtras | v1/auth.py:91-94 | the merge loop assigns each extra `str(v)` under its key in order |
| Auth.MergeKeep | v1/auth.py:92-94 | a key the extras do not assign keeps its value |
| Auth.MergeOverride | v1/auth.py:92-94 | a key the extras assign takes the `str` of its last value there, and keys stay unique |
| Auth.BaseSpec | v1/auth.py:76-88 | before the extras the headers hold each key once and keep the defaults; `cookie` is present exactly when there are credentials and is then the built header; `x-csrftoken` is present exactly when a `csrftoken` cookie is, with its value |
| Auth.HeadersSpec | v1/auth.py:74-95 | the same holds after the extras for every key they leave alone, and a key they assign takes the `str` of its last value there |
| Auth.SessionHeaders | v1/auth.py:105-108 | the session headers are the built headers with `referer` added only when absent |
| Auth.SessionReferer | v1/auth.py:105-108 | `referer` is `https://www.instagram.com/<username>/` unless the extras set one, which is kept |

## Left out

- HTTP is not modelled: `requests.Session`, `post`, `get` and the cookie jar filled by
  `s.cookies.set`. Replies are inputs: a finite page script for the crawl and a reply function
  for downloads.
- The filesystem is not modelled: `mkdir`, the response snapshots and the link files written
  by `extract_links` and `_write_links_files`. `write_bytes` is modelled only as the addition
  of the chosen name to the directory listing. `_write_links_files` itself is out: it only
  writes and prints the lists that `Run.Finalise` computes.
- `print` and the diagnostic dump after a failed request are left out, because they do not
  affect any result.
- JSON encoding and decoding (`json.dumps`, `resp.json()`) are not modelled. A page is already
  decoded, and a body that fails to decode is `None`, the same as a failed request.
- `json.loads` and `ast.literal_eval` in `_parse_any_cookies_value` are foreign parsers. The
  dict they would return is the input `foreign`. Their exceptions and non-dict results are
  `foreign == None`.
- The `settings` module and `load_credentials` are left out. The configured `COOKIES` and
  `HEADERS` values are inputs.
- v1/main.py, the argument parsing, is not part of this model.
- The fallback headers of `InstagramDownloader.__init__`, used when the credentials module
  fails to import, are not part of this model.
- Floating-point JSON numbers are not modelled. JSON has no float case, so `int()` of a float
  width is out.
- Crawl.CrawlAll: the server is a finite script. A server that announces a next page forever
  makes the source loop forever; the model ends once the script runs out, because a fetch past
  the end fails.
- Extraction.UrlOf: a `url` value that is present but not a string is modelled as an
  exception. The source would add any hashable value to the set and fail later in `sorted` or
  `urlparse`, or keep it silently.
- Extraction.CollectSets: the `video_url` key scan does not descend into a value it finds
  under `video_url`, as in the source. A `video_url` string nested inside such a value is still
  collected when its dict is a media node.
- Strings.ParsePyInt: `int()` on text accepts surrounding whitespace, a sign and ASCII
  digits. Non-ASCII decimal digits and `_` digit grouping, which Python also accepts, are left
  out.
- Strings.AsciiLower: `lower()` folds only ASCII letters, because that is all the extension and
  `content-type` tests need. Unicode case mapping is left out.
- Naming.SafeUsername: `isalnum` is an input predicate, not Unicode's character classes.
- Naming.Matches: `glob` is a prefix-and-suffix test. Glob metacharacters in the user name or
  the extension, case-insensitive file systems and hidden files are left out.
- Naming.NextFilePath: the directory is the list `glob` reports. `Naming.NextOfOrderFree` shows
  that the listing order does not matter. Concurrent writers are left out, and with them the
  race between the scan and the write.
- Download.ExtOf: `Path(urlparse(url).path).suffix` is the input function `suffix`.
- Auth.ParseAnyHeaderRoundTrip: the round trip holds only when neither foreign parser yields a
  dict. A header that also reads as a dict literal is taken from `ast.literal_eval`: key `{'a`
  with value `': 1}` gives the header `{'a=': 1}`.
- Auth.MergeExtras, Auth.ParseAnyCookies: extra keys and the keys of a configured or foreign
  cookie dict are taken to be strings already, so `str(k)` is the identity.
  Values are one of the Python scalars a settings file would hold (`None`, `bool`, `int`,
  `str`). Floats and containers as values are left out.
- Run.Finalise: a URL that is both an image and a video occurs twice in `combined`, as in the
  source. `Run.FinalisedDisjoint` describes the split lists only when the two sets are
  disjoint.
