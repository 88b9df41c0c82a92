/** `download_links`: every URL is fetched once; a reply with status 200 is saved under a
    fresh name in the image or the video directory. The transport is a function giving the
    reply to the i-th request, and each directory is the list of names it holds. */
module Download {
  import opened Wrappers
  import opened Seqs
  import opened Strings
  import opened Naming

  /** What a GET returns that matters here: the status code and the `content-type` header. */
  datatype Reply = Reply(status: int, contentType: Option<string>)

  /** The extensions taken to be video files. */
  const VideoExts: set<string> := {".mp4", ".mov", ".mkv", ".avi", ".webm"}

  /** `(r.headers.get("content-type") or "").lower()` */
  function ContentType(r: Reply): string
  {
    match r.contentType
    case None => ""
    case Some(t) => AsciiLower(t)
  }

  /** A download is a video when its extension or its content type says so. */
  predicate IsVideo(ext: string, r: Reply)
  {
    ext in VideoExts || StartsWith(ContentType(r), "video/")
  }

  /** `ext or (".mp4" if is_video else ".jpg")` */
  function FinalExt(ext: string, video: bool): (e: string)
    ensures e != ""
    ensures ext != "" ==> e == ext
    ensures ext == "" ==> (e in VideoExts <==> video)
  {
    if ext != "" then ext else if video then ".mp4" else ".jpg"
  }

  /** The names in the image and the video download directories. */
  datatype Folders = Folders(images: seq<string>, videos: seq<string>)

  /** The number of files saved so far and the directories after saving them. */
  datatype Downloaded = Downloaded(count: nat, folders: Folders)

  /** One saved reply: the next free name for its extension is added to its directory. */
  function Save(prefix: string, f: Folders, ext: string, r: Reply): Folders
  {
    var video := IsVideo(ext, r);
    var e := FinalExt(ext, video);
    if video then f.(videos := f.videos + [NameFor(prefix, e, NextNumber(prefix, e, f.videos))])
    else f.(images := f.images + [NameFor(prefix, e, NextNumber(prefix, e, f.images))])
  }

  /** One URL of the loop, whose lowered suffix is `ext` and whose reply is `r`. */
  function Step(prefix: string, d: Downloaded, ext: string, r: Reply): Downloaded
  {
    if r.status == 200 then Downloaded(d.count + 1, Save(prefix, d.folders, ext, r)) else d
  }

  /** `Path(urlparse(url).path).suffix.lower()`, with the suffix found by `suffix`. */
  function ExtOf(url: string, suffix: string -> string): string
  {
    AsciiLower(suffix(url))
  }

  /** The state after the loop has handled every URL of `urls`. */
  function DownloadAll(prefix: string, urls: seq<string>, suffix: string -> string, reply: nat -> Reply, start: Folders): Downloaded
  {
    if urls == [] then Downloaded(0, start)
    else
      var n := |urls| - 1;
      Step(prefix, DownloadAll(prefix, urls[..n], suffix, reply, start), ExtOf(urls[n], suffix), reply(n))
  }

  /** The number of the first `n` requests answered with status 200. */
  function Successes(reply: nat -> Reply, n: nat): nat
  {
    if n == 0 then 0 else Successes(reply, n - 1) + (if reply(n - 1).status == 200 then 1 else 0)
  }

  /** No name occurs twice in a directory listing. */
  predicate Distinct(s: seq<string>)
  {
    forall i, j :: 0 <= i < j < |s| ==> s[i] != s[j]
  }

  /** The count returned is the number of replies with status 200. */
  lemma {:induction false} DownloadCount(prefix: string, urls: seq<string>, suffix: string -> string, reply: nat -> Reply, start: Folders)
    ensures DownloadAll(prefix, urls, suffix, reply, start).count == Successes(reply, |urls|) <= |urls|
  {
    if urls != [] {
      var n := |urls| - 1;
      DownloadCount(prefix, urls[..n], suffix, reply, start);
    }
  }

  /** The directories only grow, by exactly one name per file saved. */
  lemma {:induction false} DownloadGrows(prefix: string, urls: seq<string>, suffix: string -> string, reply: nat -> Reply, start: Folders)
    ensures var d := DownloadAll(prefix, urls, suffix, reply, start);
      start.images <= d.folders.images && start.videos <= d.folders.videos &&
      |d.folders.images| + |d.folders.videos| == |start.images| + |start.videos| + d.count
  {
    if urls != [] {
      var n := |urls| - 1;
      DownloadGrows(prefix, urls[..n], suffix, reply, start);
      var d := DownloadAll(prefix, urls[..n], suffix, reply, start);
      var f := DownloadAll(prefix, urls, suffix, reply, start).folders;
      assert f.images[..|start.images|] == d.folders.images[..|start.images|];
      assert f.videos[..|start.videos|] == d.folders.videos[..|start.videos|];
    }
  }

  /** Adding the chosen name to a listing without repeats keeps it without repeats. */
  lemma AddFresh(prefix: string, ext: string, listing: seq<string>)
    requires ext != "" && Distinct(listing)
    ensures Distinct(listing + [NameFor(prefix, ext, NextNumber(prefix, ext, listing))])
  {
    NextNameFresh(prefix, ext, listing);
  }

  /** No download overwrites a file: directories that held no name twice still do not. */
  lemma {:induction false} DownloadNoOverwrite(prefix: string, urls: seq<string>, suffix: string -> string, reply: nat -> Reply, start: Folders)
    requires Distinct(start.images) && Distinct(start.videos)
    ensures var d := DownloadAll(prefix, urls, suffix, reply, start);
      Distinct(d.folders.images) && Distinct(d.folders.videos)
  {
    if urls != [] {
      var n := |urls| - 1;
      DownloadNoOverwrite(prefix, urls[..n], suffix, reply, start);
      var f := DownloadAll(prefix, urls[..n], suffix, reply, start).folders;
      var ext := ExtOf(urls[n], suffix);
      var e := FinalExt(ext, IsVideo(ext, reply(n)));
      AddFresh(prefix, e, f.images);
      AddFresh(prefix, e, f.videos);
    }
  }

  /** `download_links`: returns the count and the directories afterwards. */
  method DownloadLinks(prefix: string, urls: seq<string>, suffix: string -> string, reply: nat -> Reply, start: Folders)
    returns (count: nat, folders: Folders)
    ensures Downloaded(count, folders) == DownloadAll(prefix, urls, suffix, reply, start)
  {
    count := 0;
    folders := start;
    var i := 0;
    while i < |urls|
      invariant 0 <= i <= |urls|
      invariant Downloaded(count, folders) == DownloadAll(prefix, urls[..i], suffix, reply, start)
    {
      assert urls[..i + 1][..i] == urls[..i];
      var ext := AsciiLower(suffix(urls[i]));
      var r := reply(i);
      if r.status == 200 {
        var ctype := ContentType(r);
        var video := ext in VideoExts || StartsWith(ctype, "video/");
        var finalExt := if ext != "" then ext else if video then ".mp4" else ".jpg";
        if video {
          var path := NextFilePath(prefix, finalExt, folders.videos);
          folders := folders.(videos := folders.videos + [path]);
        } else {
          var path := NextFilePath(prefix, finalExt, folders.images);
          folders := folders.(images := folders.images + [path]);
        }
        count := count + 1;
      }
      i := i + 1;
    }
    assert urls[..i] == urls;
  }
}
