/** Credentials and request headers: parsing a `Cookie` header into a dict, building one back,
    normalising the configured cookie value, and assembling the default request headers. */
module Auth {
  import opened Wrappers
  import opened Seqs
  import opened OrderedDicts
  import opened Strings

  // ---------------------------------------------------------------------------------------
  // `_parse_cookie_header_to_dict`

  /** One `;`-separated part of a cookie header: after stripping, an empty part or a part
      without `=` is skipped; otherwise it splits at its first `=` into a stripped key and a
      stripped value. */
  function CookiePart(part: string): Option<Entry<string>>
  {
    var p := Strip(part);
    if p == "" then None
    else match IndexOf(p, '=')
      case None => None
      case Some(i) => Some(Entry(Strip(p[..i]), Strip(Strip(p[i + 1..]))))
  }

  /** The assignments `d[k] = v` that the parts make, in order. */
  function CookieEntries(parts: seq<string>): Dict<string>
  {
    Collect(CookiePart, parts)
  }

  /** The dict `_parse_cookie_header_to_dict(s)` returns. */
  function ParsedCookies(s: string): Dict<string>
  {
    PutAll([], CookieEntries(Split(s, ';')))
  }

  method ParseCookieHeader(s: string) returns (d: Dict<string>)
    ensures d == ParsedCookies(s)
  {
    var parts := Split(s, ';');
    d := [];
    var i := 0;
    while i < |parts|
      invariant 0 <= i <= |parts|
      invariant d == PutAll([], CookieEntries(parts[..i]))
    {
      PrefixSnoc(parts, i);
      CollectSnoc(CookiePart, parts[..i], parts[i]);
      var kv := CookiePart(parts[i]);
      if kv.Some? {
        PutAllSnoc([], CookieEntries(parts[..i]), kv.value);
        d := Put(d, kv.value.key, kv.value.value);
      }
      i := i + 1;
    }
    assert parts[..i] == parts;
  }

  /** A part is kept exactly when it still holds `=` after stripping; it is then split at
      its first `=`, so the key holds no `=` while the value may. */
  lemma CookiePartKept(part: string)
    ensures CookiePart(part).Some? <==> '=' in Strip(part)
    ensures CookiePart(part).Some? ==> '=' !in CookiePart(part).value.key
  {
    var p := Strip(part);
    match IndexOf(p, '=')
    case None =>
    case Some(i) =>
      StripInside(p[..i], '=');
  }

  /** Stripping only removes characters. */
  lemma StripInside(s: string, c: char)
    requires c !in s
    ensures c !in Strip(s)
  {
    var i, j :| 0 <= i <= j <= |s| && Strip(s) == s[i..j];
    assert forall m :: 0 <= m < j - i ==> Strip(s)[m] == s[i + m];
  }

  /** Every kept key and value is stripped and no key holds `=`. */
  lemma {:induction false} CookieEntriesClean(parts: seq<string>)
    ensures forall x | x in CookieEntries(parts) ::
      Clean(x.key, IsSpace) && Clean(x.value, IsSpace) && '=' !in x.key
  {
    if parts != [] {
      CookieEntriesClean(parts[..|parts| - 1]);
      CookiePartKept(parts[|parts| - 1]);
    }
  }

  /** The parsed dict has each key once, with the value of the last part that assigns it
      (a later duplicate overwrites an earlier one); keys and values are stripped. */
  lemma ParsedCookiesSpec(s: string, k: string)
    ensures var d := ParsedCookies(s);
      UniqueKeys(d) &&
      Get(d, k) == LastValue(CookieEntries(Split(s, ';')), k) &&
      forall x | x in d :: Clean(x.key, IsSpace) && Clean(x.value, IsSpace) && '=' !in x.key
  {
    var e := CookieEntries(Split(s, ';'));
    PutAllUnique([], e);
    PutAllGet([], e, k);
    PutAllEntries([], e);
    CookieEntriesClean(Split(s, ';'));
  }

  // ---------------------------------------------------------------------------------------
  // `build_cookie_header`

  /** The `k=v` parts of the header, in dict order, skipping `None` values. */
  function CookiePairs(creds: Dict<Option<string>>): seq<string>
  {
    if creds == [] then []
    else
      var init := CookiePairs(creds[..|creds| - 1]);
      var last := creds[|creds| - 1];
      if last.value.None? then init else init + [last.key + "=" + last.value.value]
  }

  /** `"; ".join(parts)` */
  function CookieHeader(creds: Dict<Option<string>>): string
  {
    Join(CookiePairs(creds), "; ")
  }

  method BuildCookieHeader(creds: Dict<Option<string>>) returns (header: string)
    ensures header == CookieHeader(creds)
  {
    var parts: seq<string> := [];
    var i := 0;
    while i < |creds|
      invariant 0 <= i <= |creds|
      invariant parts == CookiePairs(creds[..i])
    {
      assert creds[..i + 1][..i] == creds[..i];
      var e := creds[i];
      if e.value.Some? {
        parts := parts + [e.key + "=" + e.value.value];
      }
      i := i + 1;
    }
    assert creds[..i] == creds;
    header := Join(parts, "; ");
  }

  /** Every value of a parsed cookie dict is present: the dict `build_cookie_header` gets. */
  function Lift(d: Dict<string>): (r: Dict<Option<string>>)
    ensures |r| == |d| && forall i :: 0 <= i < |d| ==> r[i] == Entry(d[i].key, Some(d[i].value))
  {
    seq(|d|, i requires 0 <= i < |d| => Entry(d[i].key, Some(d[i].value)))
  }

  /** With every value present, there is one `k=v` part per entry. */
  lemma {:induction false} PairsOfLift(d: Dict<string>)
    ensures |CookiePairs(Lift(d))| == |d|
    ensures forall i :: 0 <= i < |d| ==> CookiePairs(Lift(d))[i] == d[i].key + "=" + d[i].value
  {
    if d != [] {
      var pre := d[..|d| - 1];
      assert Lift(d)[..|d| - 1] == Lift(pre);
      PairsOfLift(pre);
    }
  }

  /** A joined list is never shorter than its first part. */
  lemma JoinFirst(parts: seq<string>, sep: string)
    requires |parts| >= 1
    ensures parts[0] <= Join(parts, sep)
  {
  }

  /** The header is empty exactly when no value is present. */
  lemma {:induction false} CookieHeaderEmpty(creds: Dict<Option<string>>)
    ensures CookieHeader(creds) == "" <==> forall i :: 0 <= i < |creds| ==> creds[i].value.None?
  {
    PairsEmpty(creds);
    var pairs := CookiePairs(creds);
    if pairs != [] {
      JoinFirst(pairs, "; ");
      PairsNonEmpty(creds);
    }
  }

  lemma {:induction false} PairsEmpty(creds: Dict<Option<string>>)
    ensures CookiePairs(creds) == [] <==> forall i :: 0 <= i < |creds| ==> creds[i].value.None?
  {
    if creds != [] {
      var pre := creds[..|creds| - 1];
      PairsEmpty(pre);
      assert forall i :: 0 <= i < |pre| ==> pre[i] == creds[i];
    }
  }

  lemma {:induction false} PairsNonEmpty(creds: Dict<Option<string>>)
    ensures forall i :: 0 <= i < |CookiePairs(creds)| ==> CookiePairs(creds)[i] != ""
  {
    if creds != [] {
      PairsNonEmpty(creds[..|creds| - 1]);
    }
  }

  /** Every part but the first is preceded by `pad` once `[sep] + pad` is split at `sep`. */
  function Pad(pad: string, parts: seq<string>): seq<string>
  {
    seq(|parts|, i requires 0 <= i < |parts| => pad + parts[i])
  }

  lemma {:induction false} PadJoin(q: seq<string>, sep: char, pad: string)
    requires |q| >= 1
    ensures Join(Pad(pad, q), [sep]) == pad + Join(q, [sep] + pad)
  {
    if |q| > 1 {
      PadJoin(q[1..], sep, pad);
      assert Pad(pad, q)[1..] == Pad(pad, q[1..]);
      assert Join(Pad(pad, q), [sep]) == pad + q[0] + [sep] + (pad + Join(q[1..], [sep] + pad));
    }
  }

  lemma SepJoin(parts: seq<string>, sep: char, pad: string)
    requires |parts| >= 1
    ensures Join(parts, [sep] + pad) == Join([parts[0]] + Pad(pad, parts[1..]), [sep])
  {
    var q := parts[1..];
    var pieces := [parts[0]] + Pad(pad, q);
    if |parts| == 1 {
      assert pieces == [parts[0]];
    } else {
      PadJoin(q, sep, pad);
      assert pieces[1..] == Pad(pad, q);
      assert Join(pieces, [sep]) == parts[0] + [sep] + (pad + Join(q, [sep] + pad));
    }
  }

  /** A key that survives a round trip: non-empty, stripped, without `=` or `;`. */
  predicate CookieKey(k: string)
  {
    k != "" && Clean(k, IsSpace) && '=' !in k && ';' !in k
  }

  /** A value that survives a round trip: stripped and without `;` (it may hold `=`). */
  predicate CookieValue(v: string)
  {
    Clean(v, IsSpace) && ';' !in v
  }

  /** A dict whose every key and value survives being written as `k=v; `. */
  predicate Portable(d: Dict<string>)
  {
    forall i :: 0 <= i < |d| ==> CookieKey(d[i].key) && CookieValue(d[i].value)
  }

  /** `k=v` splits at the `=` after `k`, since `k` holds none. */
  lemma PairSplit(k: string, v: string)
    requires '=' !in k
    ensures var x := k + "=" + v;
      IndexOf(x, '=') == Some(|k|) && x[..|k|] == k && x[|k| + 1..] == v
  {
    IndexOfAfter(k, '=', v);
    var x := k + "=" + v;
    assert x[..|k|] == k;
    assert x[|k| + 1..] == v;
  }

  /** Stripping `k=v`, with an optional leading space, leaves `k=v`. */
  lemma PairStrip(k: string, v: string, pad: string)
    requires CookieKey(k) && CookieValue(v)
    requires pad == "" || pad == " "
    ensures Strip(pad + (k + "=" + v)) == k + "=" + v
  {
    var x := k + "=" + v;
    assert x[0] == k[0];
    assert x[|x| - 1] == if v == "" then '=' else v[|v| - 1];
    assert pad + x + "" == pad + x;
    StripAround(pad, x, "", IsSpace);
  }

  /** Neither the pad nor the pair holds a `;`. */
  lemma PairNoSemi(k: string, v: string, pad: string)
    requires ';' !in k && ';' !in v
    requires pad == "" || pad == " "
    ensures ';' !in pad + (k + "=" + v)
  {
  }

  /** A `k=v` part, with an optional leading space, parses back to its entry. */
  lemma PartRoundTrip(k: string, v: string, pad: string)
    requires CookieKey(k) && CookieValue(v)
    requires pad == "" || pad == " "
    ensures CookiePart(pad + (k + "=" + v)) == Some(Entry(k, v))
  {
    PairStrip(k, v, pad);
    PairSplit(k, v);
    StripClean(k, IsSpace);
    StripClean(v, IsSpace);
  }

  /** The pad before the `i`-th part of a header split at `;`. */
  function PadAt(i: nat): string
  {
    if i == 0 then "" else " "
  }

  /** The parts of `k1=v1; k2=v2; ...` split at `;` are `k1=v1`, ` k2=v2`, ... */
  lemma PiecesShape(pairs: seq<string>)
    requires |pairs| >= 1
    ensures var pieces := [pairs[0]] + Pad(" ", pairs[1..]);
      |pieces| == |pairs| && forall i :: 0 <= i < |pieces| ==> pieces[i] == PadAt(i) + pairs[i]
  {
    var pieces := [pairs[0]] + Pad(" ", pairs[1..]);
    assert pieces[0] == "" + pairs[0];
    assert forall i :: 1 <= i < |pieces| ==> pieces[i] == " " + pairs[1..][i - 1];
  }

  /** Each such part parses back to its entry. */
  lemma PiecesParse(d: Dict<string>, pieces: seq<string>)
    requires Portable(d)
    requires |pieces| == |d| && forall i :: 0 <= i < |d| ==> pieces[i] == PadAt(i) + (d[i].key + "=" + d[i].value)
    ensures forall i :: 0 <= i < |pieces| ==> ';' !in pieces[i] && CookiePart(pieces[i]) == Some(d[i])
  {
    forall i | 0 <= i < |pieces| ensures ';' !in pieces[i] && CookiePart(pieces[i]) == Some(d[i]) {
      PartRoundTrip(d[i].key, d[i].value, PadAt(i));
      PairNoSemi(d[i].key, d[i].value, PadAt(i));
    }
  }

  /** The header of a non-empty dict splits at `;` into its parts. */
  lemma HeaderPieces(d: Dict<string>, pairs: seq<string>)
    requires Portable(d)
    requires |pairs| == |d| >= 1 && forall i :: 0 <= i < |d| ==> pairs[i] == d[i].key + "=" + d[i].value
    ensures CookieEntries(Split(Join(pairs, "; "), ';')) == d
  {
    var pieces := [pairs[0]] + Pad(" ", pairs[1..]);
    assert "; " == [';'] + " ";
    SepJoin(pairs, ';', " ");
    PiecesShape(pairs);
    PiecesParse(d, pieces);
    SplitJoin(pieces, ';');
    CollectAll(CookiePart, pieces, d);
  }

  /** Building a header from a parsed dict and parsing it again gives the dict back, for
      keys and values that `k=v; ` can carry. */
  lemma CookieRoundTrip(d: Dict<string>)
    requires UniqueKeys(d)
    requires Portable(d)
    ensures ParsedCookies(CookieHeader(Lift(d))) == d
  {
    PairsOfLift(d);
    if d == [] {
      assert Split("", ';') == [""];
      assert CookiePart("") == None;
      assert CookieEntries([""]) == [];
    } else {
      HeaderPieces(d, CookiePairs(Lift(d)));
    }
    assert [] + d == d;
    PutAllFresh([], d);
  }

  // ---------------------------------------------------------------------------------------
  // `_parse_any_cookies_value`

  /** The Python scalars a configured cookie dict may hold. */
  datatype Scalar = NoneValue | BoolValue(b: bool) | IntValue(i: int) | StrValue(s: string)

  /** `str(v)` */
  function ScalarStr(v: Scalar): string
  {
    match v
    case NoneValue => "None"
    case BoolValue(b) => if b then "True" else "False"
    case IntValue(i) => IntToStr(i)
    case StrValue(s) => s
  }

  /** The configured `COOKIES` value: `None`, a dict, a string or anything else. */
  datatype Raw = RawNone | RawDict(entries: Dict<Scalar>) | RawStr(text: string) | RawOther

  /** The entries of `{str(k): str(v) for k, v in d.items()}`, in order. */
  function StrEntries(d: Dict<Scalar>): (r: Dict<string>)
    ensures |r| == |d| && forall i :: 0 <= i < |d| ==> r[i] == Entry(d[i].key, ScalarStr(d[i].value))
  {
    seq(|d|, i requires 0 <= i < |d| => Entry(d[i].key, ScalarStr(d[i].value)))
  }

  /** `{str(k): str(v) for k, v in d.items()}` */
  function StrDict(d: Dict<Scalar>): Dict<string>
  {
    PutAll([], StrEntries(d))
  }

  /** `_parse_any_cookies_value(raw)`. A string that is neither blank nor a cookie header is
      first handed to the JSON and Python-literal parsers; `foreign` is the dict they return,
      if either does. */
  function ParseAnyCookies(raw: Raw, foreign: Option<Dict<Scalar>>): Dict<string>
  {
    match raw
    case RawNone => []
    case RawDict(d) => StrDict(d)
    case RawStr(text) => ParseStripped(Strip(text), foreign)
    case RawOther => []
  }

  /** The string case once stripped: blank text gives no cookies, a dict the foreign parsers
      return is taken, and anything else is read as a cookie header. */
  function ParseStripped(r: string, foreign: Option<Dict<Scalar>>): Dict<string>
  {
    if r == "" then []
    else if foreign.Some? then StrDict(foreign.value)
    else ParsedCookies(r)
  }

  /** Nothing configured, a blank string or a value of another type gives no cookies; a dict
      keeps its keys in order and turns every value into its `str`; whatever the input, the
      result has each key once. */
  lemma ParseAnyCookiesSpec(raw: Raw, foreign: Option<Dict<Scalar>>)
    ensures var r := ParseAnyCookies(raw, foreign);
      UniqueKeys(r) &&
      ((raw.RawNone? || raw.RawOther? || (raw.RawStr? && Strip(raw.text) == "")) ==> r == []) &&
      (raw.RawDict? && UniqueKeys(raw.entries) ==> r == StrEntries(raw.entries))
  {
    match raw
    case RawDict(d) =>
      StrDictSpec(d);
    case RawStr(text) =>
      ParseStrippedUnique(Strip(text), foreign);
    case _ =>
  }

  /** `{str(k): str(v) ...}` has each key once, and keeps a dict's entries in order. */
  lemma StrDictSpec(d: Dict<Scalar>)
    ensures UniqueKeys(StrDict(d))
    ensures UniqueKeys(d) ==> StrDict(d) == StrEntries(d)
  {
    var e := StrEntries(d);
    PutAllUnique([], e);
    if UniqueKeys(d) {
      assert [] + e == e;
      PutAllFresh([], e);
    }
  }

  lemma ParseStrippedUnique(r: string, foreign: Option<Dict<Scalar>>)
    ensures UniqueKeys(ParseStripped(r, foreign))
  {
    if r != "" {
      if foreign.Some? {
        StrDictSpec(foreign.value);
      } else {
        PutAllUnique([], CookieEntries(Split(r, ';')));
      }
    }
  }

  /** The header of a non-empty dict starts with its first key and ends with its last
      value, or its `=`, so it has no surrounding white space. */
  lemma HeaderClean(d: Dict<string>)
    requires d != []
    requires Portable(d)
    ensures CookieHeader(Lift(d)) != "" && Clean(CookieHeader(Lift(d)), IsSpace)
  {
    var h := CookieHeader(Lift(d));
    PairsOfLift(d);
    var pairs := CookiePairs(Lift(d));
    JoinFirst(pairs, "; ");
    assert pairs[0][0] == d[0].key[0];
    assert h[0] == d[0].key[0];
    var last := pairs[|pairs| - 1];
    assert h[|h| - 1] == last[|last| - 1] by {
      JoinLast(pairs, "; ");
    }
  }

  /** A cookie header string built from a parsed dict is read back as that dict, when neither
      foreign parser yields a dict from it (`foreign == None`). A header that also reads as a
      JSON or Python dict literal is taken from the foreign parser instead. */
  lemma ParseAnyHeaderRoundTrip(d: Dict<string>)
    requires UniqueKeys(d) && d != []
    requires Portable(d)
    ensures ParseAnyCookies(RawStr(CookieHeader(Lift(d))), None) == d
  {
    var h := CookieHeader(Lift(d));
    HeaderClean(d);
    StripClean(h, IsSpace);
    assert ParseAnyCookies(RawStr(h), None) == ParseStripped(h, None);
    CookieRoundTrip(d);
  }

  /** A joined list ends with its last part. */
  lemma {:induction false} JoinLast(parts: seq<string>, sep: string)
    requires |parts| >= 1
    ensures Join(parts, sep) == Join(parts[..|parts| - 1], sep) + (if |parts| == 1 then "" else sep) + parts[|parts| - 1]
  {
    if |parts| > 1 {
      JoinLast(parts[1..], sep);
      assert parts[1..][..|parts| - 2] == parts[1..|parts| - 1];
      if |parts| > 2 {
        assert parts[..|parts| - 1][1..] == parts[1..|parts| - 1];
      }
    }
  }

  // ---------------------------------------------------------------------------------------
  // `build_headers` and `build_session_and_headers`

  /** The headers every request starts from. */
  const Defaults: Dict<string> := [
    Entry("authority", "www.instagram.com"),
    Entry("accept", "*/*"),
    Entry("accept-language", "id-ID,id;q=0.9,en-US;q=0.8,en;q=0.7"),
    Entry("content-type", "application/x-www-form-urlencoded"),
    Entry("user-agent", "Mozilla/5.0 (Windows NT 10.0; Win64; x64) AppleWebKit/537.36 (KHTML, like Gecko) Chrome/139.0.0.0 Safari/537.36"),
    Entry("x-fb-friendly-name", "PolarisProfilePostsQuery")
  ]

  /** `build_cookie_header(creds) if creds else ""` */
  function CookieFor(creds: Dict<string>): string
  {
    if creds != [] then CookieHeader(Lift(creds)) else ""
  }

  /** The headers before `HEADERS` is merged in: the defaults, then `cookie` when the built
      header is non-empty, then `x-csrftoken` when there is a `csrftoken` cookie. */
  function BaseHeaders(creds: Dict<string>): Dict<string>
  {
    BaseOn(Defaults, creds)
  }

  /** The same steps taken on any starting headers `d`. */
  function BaseOn(d: Dict<string>, creds: Dict<string>): Dict<string>
  {
    var h := WithCookie(d, creds);
    match Get(creds, "csrftoken")
    case Some(t) => Put(h, "x-csrftoken", t)
    case None => h
  }

  /** `for k, v in extras.items(): headers[str(k)] = str(v)`, when the setting is a dict. */
  function Merge(h: Dict<string>, extras: Option<Dict<Scalar>>): Dict<string>
  {
    match extras
    case None => h
    case Some(e) => PutAll(h, StrEntries(e))
  }

  /** The headers `build_headers` returns for the loaded `creds` and the configured `HEADERS`
      (`None` when that setting is not a dict). */
  function HeadersFor(creds: Dict<string>, extras: Option<Dict<Scalar>>): Dict<string>
  {
    Merge(BaseHeaders(creds), extras)
  }

  method BuildHeaders(creds: Dict<string>, extras: Option<Dict<Scalar>>) returns (headers: Dict<string>)
    ensures headers == HeadersFor(creds, extras)
  {
    var cookie := "";
    if creds != [] {
      cookie := BuildCookieHeader(Lift(creds));
    }
    headers := Defaults;
    if cookie != "" {
      headers := Put(headers, "cookie", cookie);
    }
    if HasKey(creds, "csrftoken") {
      headers := Put(headers, "x-csrftoken", Get(creds, "csrftoken").value);
    }
    headers := MergeExtras(headers, extras);
  }

  /** The merge loop of `build_headers`. */
  method MergeExtras(h: Dict<string>, extras: Option<Dict<Scalar>>) returns (headers: Dict<string>)
    ensures headers == Merge(h, extras)
  {
    headers := h;
    if extras.Some? {
      var x := extras.value;
      ghost var e := StrEntries(x);
      var i := 0;
      while i < |x|
        invariant 0 <= i <= |x|
        invariant headers == PutAll(h, e[..i])
      {
        assert e[..i + 1][..i] == e[..i];
        headers := Put(headers, x[i].key, ScalarStr(x[i].value));
        i := i + 1;
      }
      assert e[..i] == e;
    }
  }

  /** `HEADERS` assigns `k`. */
  predicate Overrides(extras: Option<Dict<Scalar>>, k: string)
  {
    extras.Some? && exists i :: 0 <= i < |extras.value| && extras.value[i].key == k
  }

  /** A key the extras do not assign keeps the value it had before they were merged. */
  lemma MergeKeep(h: Dict<string>, extras: Option<Dict<Scalar>>, k: string)
    requires !Overrides(extras, k)
    ensures Get(Merge(h, extras), k) == Get(h, k)
  {
    if extras.Some? {
      var e := StrEntries(extras.value);
      assert forall j :: 0 <= j < |e| ==> e[j].key != k;
      PutAllGet(h, e, k);
    }
  }

  /** A key the extras assign takes the `str` of its last value there, and keys stay unique. */
  lemma MergeOverride(h: Dict<string>, extras: Option<Dict<Scalar>>, k: string)
    requires UniqueKeys(h)
    ensures UniqueKeys(Merge(h, extras))
    ensures extras.Some? ==> match LastValue(extras.value, k)
                             case Some(v) => Get(Merge(h, extras), k) == Some(ScalarStr(v))
                             case None => true
  {
    if extras.Some? {
      var e := StrEntries(extras.value);
      PutAllUnique(h, e);
      PutAllGet(h, e, k);
      FindLastSameKeys(extras.value, e, k);
    }
  }

  lemma DefaultsUnique()
    ensures UniqueKeys(Defaults)
  {
  }

  lemma DefaultsLack(k: string)
    requires k == "cookie" || k == "x-csrftoken" || k == "referer"
    ensures Get(Defaults, k) == None
  {
  }

  /** `d` with `cookie` set when the built header is non-empty. */
  function WithCookie(d: Dict<string>, creds: Dict<string>): Dict<string>
  {
    var cookie := CookieFor(creds);
    if cookie != "" then Put(d, "cookie", cookie) else d
  }

  /** Starting headers with unique keys and neither `cookie` nor `x-csrftoken`. */
  predicate NoAuthHeaders(d: Dict<string>)
  {
    UniqueKeys(d) && Get(d, "cookie") == None && Get(d, "x-csrftoken") == None
  }

  /** `cookie` is the built header exactly when there are credentials; other keys keep their
      starting value. */
  lemma WithCookieSpec(d: Dict<string>, creds: Dict<string>, k: string)
    requires NoAuthHeaders(d)
    ensures var h := WithCookie(d, creds);
      UniqueKeys(h) &&
      (k != "cookie" ==> Get(h, k) == Get(d, k)) &&
      Get(h, "cookie") == (if creds == [] then None else Some(CookieHeader(Lift(creds))))
  {
    if creds != [] {
      CookieHeaderEmpty(Lift(creds));
    }
  }

  lemma BaseOnSpec(d: Dict<string>, creds: Dict<string>, k: string)
    requires NoAuthHeaders(d)
    ensures var h := BaseOn(d, creds);
      UniqueKeys(h) &&
      (k != "cookie" && k != "x-csrftoken" ==> Get(h, k) == Get(d, k)) &&
      Get(h, "cookie") == (if creds == [] then None else Some(CookieHeader(Lift(creds)))) &&
      Get(h, "x-csrftoken") == Get(creds, "csrftoken")
  {
    WithCookieSpec(d, creds, k);
    WithCookieSpec(d, creds, "x-csrftoken");
  }

  /** Before the extras: unique keys, the defaults, `cookie` exactly when there are
      credentials and `x-csrftoken` exactly when there is a `csrftoken` cookie. */
  lemma BaseSpec(creds: Dict<string>, k: string)
    ensures var h := BaseHeaders(creds);
      UniqueKeys(h) &&
      (k != "cookie" && k != "x-csrftoken" ==> Get(h, k) == Get(Defaults, k)) &&
      Get(h, "cookie") == (if creds == [] then None else Some(CookieHeader(Lift(creds)))) &&
      Get(h, "x-csrftoken") == Get(creds, "csrftoken")
  {
    DefaultsUnique();
    DefaultsLack("cookie");
    DefaultsLack("x-csrftoken");
    BaseOnSpec(Defaults, creds, k);
  }

  /** The headers hold each key once. Unless the extras override them, the defaults are
      kept, `cookie` is the built header exactly when there are credentials, and
      `x-csrftoken` is present exactly when a `csrftoken` cookie is, with its value. A key
      the extras assign takes the `str` of its last value there. */
  lemma HeadersSpec(creds: Dict<string>, extras: Option<Dict<Scalar>>, k: string)
    ensures var h := HeadersFor(creds, extras);
      UniqueKeys(h) &&
      (k != "cookie" && k != "x-csrftoken" && !Overrides(extras, k) ==> Get(h, k) == Get(Defaults, k)) &&
      (!Overrides(extras, "cookie") ==>
        Get(h, "cookie") == if creds == [] then None else Some(CookieHeader(Lift(creds)))) &&
      (!Overrides(extras, "x-csrftoken") ==> Get(h, "x-csrftoken") == Get(creds, "csrftoken")) &&
      (extras.Some? ==> match LastValue(extras.value, k)
                        case Some(v) => Get(h, k) == Some(ScalarStr(v))
                        case None => true)
  {
    var base := BaseHeaders(creds);
    BaseSpec(creds, k);
    MergeOverride(base, extras, k);
    if !Overrides(extras, k) {
      MergeKeep(base, extras, k);
    }
    if !Overrides(extras, "cookie") {
      MergeKeep(base, extras, "cookie");
    }
    if !Overrides(extras, "x-csrftoken") {
      MergeKeep(base, extras, "x-csrftoken");
    }
  }

  /** `FindLast` reads only the keys. */
  lemma {:induction false} FindLastSameKeys<V, W>(d: Dict<V>, e: Dict<W>, k: string)
    requires |d| == |e| && forall i :: 0 <= i < |d| ==> d[i].key == e[i].key
    ensures FindLast(d, k) == FindLast(e, k)
  {
    if d != [] {
      FindLastSameKeys(d[..|d| - 1], e[..|e| - 1], k);
    }
  }

  /** `f"https://www.instagram.com/{username}/"` */
  function RefererFor(username: string): string
  {
    "https://www.instagram.com/" + username + "/"
  }

  /** The headers of `build_session_and_headers`: `referer` is added only when absent. */
  method SessionHeaders(username: string, creds: Dict<string>, extras: Option<Dict<Scalar>>)
    returns (headers: Dict<string>)
    ensures headers == SetDefault(HeadersFor(creds, extras), "referer", RefererFor(username))
  {
    headers := BuildHeaders(creds, extras);
    if !HasKey(headers, "referer") {
      headers := Put(headers, "referer", RefererFor(username));
    }
  }

  /** The referer points at the profile unless the extras set one, which is kept. */
  lemma SessionReferer(username: string, creds: Dict<string>, extras: Option<Dict<Scalar>>)
    ensures var h := SetDefault(HeadersFor(creds, extras), "referer", RefererFor(username));
      UniqueKeys(h) &&
      Get(h, "referer") == match extras
        case Some(e) => (match LastValue(e, "referer")
          case Some(v) => Some(ScalarStr(v))
          case None => Some(RefererFor(username)))
        case None => Some(RefererFor(username))
  {
    HeadersSpec(creds, extras, "referer");
    var h := HeadersFor(creds, extras);
    if !Overrides(extras, "referer") {
      DefaultsLack("referer");
      if extras.Some? {
        assert FindLast(extras.value, "referer").None?;
      }
    } else {
      var i :| 0 <= i < |extras.value| && extras.value[i].key == "referer";
      assert FindLast(extras.value, "referer").Some?;
    }
  }
}
