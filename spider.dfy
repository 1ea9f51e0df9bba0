/** The crawler's bookkeeping: the file name a download is saved under,
    the metadata list of downloaded files, which links are followed, and
    the final clean-up of the metadata. The network, the HTML parser, URL
    joining and the file system are parameters. */
module Spider {
  import opened Wrappers
  import opened Strings
  import opened PathNames
  import Dedup

  // ---------------------------------------------------------------------
  // File names

  /** The characters a saved file name may not contain. */
  predicate Reserved(c: char)
  {
    c == '<' || c == '>' || c == ':' || c == '"' || c == '/' || c == '\\' || c == '|' || c == '?' || c == '*'
  }

  /** `sanitize_filename`: each reserved character becomes '_'. */
  function Sanitize(name: string): string
  {
    seq(|name|, i requires 0 <= i < |name| => if Reserved(name[i]) then '_' else name[i])
  }

  predicate NoReserved(s: string)
  {
    forall i :: 0 <= i < |s| ==> !Reserved(s[i])
  }

  const MaxNameLength: nat := 200

  /** A name longer than the limit keeps only its last `MaxNameLength`
      characters. */
  function Truncate(name: string): string
  {
    if |name| > MaxNameLength then name[|name| - MaxNameLength..] else name
  }

  /** The name a download of `fileUrl` is saved under. */
  function DownloadName(fileUrl: string): string
  {
    Truncate(Sanitize(Basename(fileUrl)))
  }

  /** The path recorded in the metadata for a saved file. */
  function MetadataPath(filename: string): string
  {
    "/files/" + filename
  }

  /** Sanitizing keeps the length and every unreserved character, replaces
      only reserved ones, leaves none behind, and changes nothing the
      second time. */
  lemma SanitizeSpec(name: string)
    ensures |Sanitize(name)| == |name|
    ensures forall i :: 0 <= i < |name| ==> !Reserved(name[i]) ==> Sanitize(name)[i] == name[i]
    ensures forall i :: 0 <= i < |name| ==> Reserved(name[i]) ==> Sanitize(name)[i] == '_'
    ensures NoReserved(Sanitize(name))
    ensures Sanitize(Sanitize(name)) == Sanitize(name)
  {
  }

  /** Truncation keeps a suffix of at most `MaxNameLength` characters,
      changes exactly the names that are longer, and leaves those with
      their last `MaxNameLength` characters. */
  lemma TruncateSpec(name: string)
    ensures |Truncate(name)| <= MaxNameLength
    ensures EndsWith(name, Truncate(name))
    ensures Truncate(name) == name <==> |name| <= MaxNameLength
    ensures |name| > MaxNameLength ==> Truncate(name) == name[|name| - MaxNameLength..]
  {
  }

  lemma {:induction false} BasenameAfterSlash(dir: string, name: string)
    requires dir != [] && dir[|dir| - 1] == '/' && '/' !in name
    ensures Basename(dir + name) == name
    decreases |name|
  {
    var p := dir + name;
    if name == [] {
      assert p == dir;
    } else {
      var init, last := name[..|name| - 1], name[|name| - 1];
      assert p[..|p| - 1] == dir + init;
      assert p[|p| - 1] == last && last != '/';
      BasenameAfterSlash(dir, init);
      assert Basename(p) == init + [last];
      assert name == init + [last];
    }
  }

  /** A saved name is short, has no reserved character, and is what the
      clean-up finds again as the base name of its recorded path. */
  lemma DownloadNameSpec(fileUrl: string)
    ensures var name := DownloadName(fileUrl);
      |name| <= MaxNameLength && NoReserved(name) && Basename(MetadataPath(name)) == name
  {
    var s := Sanitize(Basename(fileUrl));
    SanitizeSpec(Basename(fileUrl));
    TruncateSpec(s);
    TruncateKeepsNoReserved(s);
    SavedNameRecovered(Truncate(s));
  }

  /** The clean-up's base name of a recorded path is the saved name. */
  lemma SavedNameRecovered(name: string)
    requires NoReserved(name)
    ensures Basename(MetadataPath(name)) == name
  {
    assert forall k :: 0 <= k < |name| ==> name[k] != '/';
    BasenameAfterSlash("/files/", name);
  }

  lemma TruncateKeepsNoReserved(s: string)
    requires NoReserved(s)
    ensures NoReserved(Truncate(s))
  {
    var t := Truncate(s);
    assert forall i :: 0 <= i < |t| ==> t[i] == s[|s| - |t| + i];
  }

  // ---------------------------------------------------------------------
  // The metadata list

  /** One entry of the metadata list; a missing path is "". */
  datatype FileRecord = FileRecord(url: string, path: string, downloadTime: string)

  function PathOf(r: FileRecord): string
  {
    r.path
  }

  predicate HasPath(data: seq<FileRecord>, path: string)
  {
    exists i :: 0 <= i < |data| && data[i].path == path
  }

  /** The metadata after recording `filename` downloaded from `url`. */
  function AddRecord(data: seq<FileRecord>, url: string, filename: string, now: string): seq<FileRecord>
  {
    var path := MetadataPath(filename);
    if HasPath(data, path) then data else data + [FileRecord(url, path, now)]
  }

  predicate PathsDistinct(data: seq<FileRecord>)
  {
    forall i, j :: 0 <= i < j < |data| ==> data[i].path != data[j].path
  }

  /** Recording keeps every earlier entry, adds at most one at the end,
      adds one exactly when the path was new, leaves the path recorded, and
      keeps recorded paths unique. */
  lemma AddRecordSpec(data: seq<FileRecord>, url: string, filename: string, now: string)
    ensures var r := AddRecord(data, url, filename, now);
      data <= r && |r| <= |data| + 1 &&
      (|r| == |data| + 1 <==> !HasPath(data, MetadataPath(filename))) &&
      HasPath(r, MetadataPath(filename)) &&
      (PathsDistinct(data) ==> PathsDistinct(r))
  {
    var r := AddRecord(data, url, filename, now);
    if !HasPath(data, MetadataPath(filename)) {
      assert r[|data|].path == MetadataPath(filename);
    }
  }

  /** The metadata after `download_file(fileUrl)`: recorded when the file
      is already saved or the request answers 200 (`status` is `None` when
      the request raises). */
  function DownloadSpec(data: seq<FileRecord>, fileUrl: string, saved: string -> bool,
                        status: Option<int>, now: string): seq<FileRecord>
  {
    var name := DownloadName(fileUrl);
    if saved(name) || status == Some(200) then AddRecord(data, fileUrl, name, now) else data
  }

  /** The download targets among the links of a page, in page order. */
  predicate Followed(href: string)
  {
    !StartsWith(href, "javascript") && !StartsWith(href, "#")
  }

  const TargetExtensions: seq<string> := [".pdf", ".doc", ".docx", ".csv", ".pptx", ".xlsx"]

  predicate IsTarget(url: string)
  {
    exists k :: 0 <= k < |TargetExtensions| && EndsWith(LowerStr(url), TargetExtensions[k])
  }

  function Targets(hrefs: seq<string>, baseUrl: string, join: (string, string) -> string): seq<string>
  {
    if hrefs == [] then []
    else
      var h := hrefs[|hrefs| - 1];
      Targets(hrefs[..|hrefs| - 1], baseUrl, join) +
        (if Followed(h) && IsTarget(join(baseUrl, h)) then [join(baseUrl, h)] else [])
  }

  /** The metadata after downloading each of `urls` in turn. */
  function DownloadAll(data: seq<FileRecord>, urls: seq<string>, saved: string -> bool,
                       status: string -> Option<int>, now: string): seq<FileRecord>
  {
    if urls == [] then data
    else
      var u := urls[|urls| - 1];
      DownloadSpec(DownloadAll(data, urls[..|urls| - 1], saved, status, now), u, saved, status(u), now)
  }

  lemma TargetsStep(hrefs: seq<string>, i: nat, baseUrl: string, join: (string, string) -> string)
    requires i < |hrefs|
    ensures Targets(hrefs[..i + 1], baseUrl, join) == Targets(hrefs[..i], baseUrl, join) +
      (if Followed(hrefs[i]) && IsTarget(join(baseUrl, hrefs[i])) then [join(baseUrl, hrefs[i])] else [])
  {
    assert hrefs[..i + 1][..i] == hrefs[..i];
  }

  lemma DownloadAllSnoc(data: seq<FileRecord>, urls: seq<string>, u: string, saved: string -> bool,
                        status: string -> Option<int>, now: string)
    ensures DownloadAll(data, urls + [u], saved, status, now) ==
      DownloadSpec(DownloadAll(data, urls, saved, status, now), u, saved, status(u), now)
  {
    assert (urls + [u])[..|urls|] == urls;
  }

  /** One anchor of the page loop: the count of targets grows by one and
      one more download is done exactly when the anchor is taken. */
  lemma ParseStep(start: seq<FileRecord>, hrefs: seq<string>, i: nat, baseUrl: string,
                  join: (string, string) -> string, saved: string -> bool,
                  status: string -> Option<int>, now: string)
    requires i < |hrefs|
    ensures var done := Targets(hrefs[..i], baseUrl, join);
      var next := Targets(hrefs[..i + 1], baseUrl, join);
      var u := join(baseUrl, hrefs[i]);
      if Followed(hrefs[i]) && IsTarget(u) then
        |next| == |done| + 1 &&
        DownloadAll(start, next, saved, status, now) ==
          DownloadSpec(DownloadAll(start, done, saved, status, now), u, saved, status(u), now)
      else
        next == done
  {
    TargetsStep(hrefs, i, baseUrl, join);
    var done := Targets(hrefs[..i], baseUrl, join);
    var u := join(baseUrl, hrefs[i]);
    if Followed(hrefs[i]) && IsTarget(u) {
      DownloadAllSnoc(start, done, u, saved, status, now);
    }
  }

  /** A url is downloaded exactly when it is the joined form of a link that
      is not a script or fragment link and ends with a target extension. */
  lemma {:induction false} TargetsMember(hrefs: seq<string>, baseUrl: string, join: (string, string) -> string, u: string)
    ensures u in Targets(hrefs, baseUrl, join) <==>
      exists i :: 0 <= i < |hrefs| && Followed(hrefs[i]) && u == join(baseUrl, hrefs[i]) && IsTarget(u)
    decreases |hrefs|
  {
    if hrefs != [] {
      var init := hrefs[..|hrefs| - 1];
      var n := |hrefs| - 1;
      var last := if Followed(hrefs[n]) && IsTarget(join(baseUrl, hrefs[n])) then [join(baseUrl, hrefs[n])] else [];
      assert Targets(hrefs, baseUrl, join) == Targets(init, baseUrl, join) + last;
      TargetsMember(init, baseUrl, join, u);
      if u in Targets(init, baseUrl, join) {
        var i :| 0 <= i < |init| && Followed(init[i]) && u == join(baseUrl, init[i]) && IsTarget(u);
        assert hrefs[i] == init[i];
      } else if u in last {
        assert Followed(hrefs[n]) && u == join(baseUrl, hrefs[n]) && IsTarget(u);
      }
      if exists i :: 0 <= i < |hrefs| && Followed(hrefs[i]) && u == join(baseUrl, hrefs[i]) && IsTarget(u) {
        var i :| 0 <= i < |hrefs| && Followed(hrefs[i]) && u == join(baseUrl, hrefs[i]) && IsTarget(u);
        if i < |init| {
          assert init[i] == hrefs[i];
        }
      }
    }
  }

  /** Downloads keep every earlier entry and keep recorded paths unique. */
  lemma {:induction false} DownloadAllSpec(data: seq<FileRecord>, urls: seq<string>, saved: string -> bool,
                                           status: string -> Option<int>, now: string)
    ensures data <= DownloadAll(data, urls, saved, status, now)
    ensures PathsDistinct(data) ==> PathsDistinct(DownloadAll(data, urls, saved, status, now))
    decreases |urls|
  {
    if urls != [] {
      var u := urls[|urls| - 1];
      var prev := DownloadAll(data, urls[..|urls| - 1], saved, status, now);
      DownloadAllSpec(data, urls[..|urls| - 1], saved, status, now);
      AddRecordSpec(prev, u, DownloadName(u), now);
    }
  }

  // ---------------------------------------------------------------------
  // The clean-up

  /** Whether the saved file of an item, found by the base name of its
      path, still exists. */
  function FileSaved(saved: string -> bool): FileRecord -> bool
  {
    (x: FileRecord) => saved(Basename(x.path))
  }

  /** The items that `keep` accepts, in order. */
  function Existing(xs: seq<FileRecord>, keep: FileRecord -> bool): seq<FileRecord>
  {
    if xs == [] then []
    else
      var x := xs[|xs| - 1];
      Existing(xs[..|xs| - 1], keep) + (if keep(x) then [x] else [])
  }

  /** `post_process_data` on loaded metadata: the first item for each
      non-empty path, when its file exists. */
  function PostProcessed(data: seq<FileRecord>, saved: string -> bool): seq<FileRecord>
  {
    Existing(Dedup.FirstByKey(data, PathOf), FileSaved(saved))
  }

  lemma ExistingSnoc(xs: seq<FileRecord>, x: FileRecord, keep: FileRecord -> bool)
    ensures Existing(xs + [x], keep) == Existing(xs, keep) + (if keep(x) then [x] else [])
  {
    assert (xs + [x])[..|xs|] == xs;
  }

  lemma {:induction false} ExistingMember(xs: seq<FileRecord>, keep: FileRecord -> bool, y: FileRecord)
    ensures y in Existing(xs, keep) <==> y in xs && keep(y)
    decreases |xs|
  {
    if xs != [] {
      var init := xs[..|xs| - 1];
      ExistingMember(init, keep, y);
      assert xs == init + [xs[|xs| - 1]];
    }
  }

  lemma {:induction false} ExistingDistinct(xs: seq<FileRecord>, keep: FileRecord -> bool)
    requires Dedup.DistinctKeys(xs, PathOf)
    ensures Dedup.DistinctKeys(Existing(xs, keep), PathOf)
    decreases |xs|
  {
    if xs != [] {
      var init := xs[..|xs| - 1];
      var x := xs[|xs| - 1];
      assert forall i :: 0 <= i < |init| ==> init[i] == xs[i];
      ExistingDistinct(init, keep);
      var e := Existing(init, keep);
      if keep(x) {
        forall i | 0 <= i < |e| ensures e[i].path != x.path {
          ExistingMember(init, keep, e[i]);
          var j :| 0 <= j < |init| && init[j] == e[i];
          assert PathOf(xs[j]) != PathOf(xs[|xs| - 1]);
        }
        var r := e + [x];
        assert forall i :: 0 <= i < |e| ==> r[i] == e[i];
      }
    }
  }

  /** Every kept item has a non-empty path and an existing file, and no two
      kept items share a path. */
  lemma PostProcessSound(data: seq<FileRecord>, saved: string -> bool)
    ensures var r := PostProcessed(data, saved);
      PathsDistinct(r) && forall k :: 0 <= k < |r| ==> r[k].path != "" && saved(Basename(r[k].path))
  {
    var f := Dedup.FirstByKey(data, PathOf);
    var r := PostProcessed(data, saved);
    Dedup.FirstByKeyDistinct(data, PathOf);
    ExistingDistinct(f, FileSaved(saved));
    forall k | 0 <= k < |r| ensures r[k].path != "" && saved(Basename(r[k].path)) {
      ExistingMember(f, FileSaved(saved), r[k]);
      var j :| 0 <= j < |f| && f[j] == r[k];
      assert PathOf(f[j]) != "";
    }
    assert forall i, j :: 0 <= i < j < |r| ==> PathOf(r[i]) != PathOf(r[j]);
  }

  /** The first item with a given non-empty path is kept whenever its file
      exists. */
  lemma PostProcessComplete(data: seq<FileRecord>, saved: string -> bool, i: nat)
    requires i < |data| && data[i].path != "" && saved(Basename(data[i].path))
    requires forall j :: 0 <= j < i ==> data[j].path != data[i].path
    ensures data[i] in PostProcessed(data, saved)
  {
    Dedup.FirstOccurrenceKept(data, PathOf, i);
    ExistingMember(Dedup.FirstByKey(data, PathOf), FileSaved(saved), data[i]);
  }

  /** The kept items are in their original order. */
  lemma {:induction false} PostProcessOrder(data: seq<FileRecord>, saved: string -> bool)
    ensures Dedup.Subseq(PostProcessed(data, saved), data)
    decreases |data|
  {
    if data != [] {
      var init := data[..|data| - 1];
      var x := data[|data| - 1];
      PostProcessOrder(init, saved);
      var f := Dedup.FirstByKey(init, PathOf);
      var p := PostProcessed(init, saved);
      if x.path != "" && x.path !in Dedup.Keys(init, PathOf) {
        assert Dedup.FirstByKey(data, PathOf) == f + [x];
        ExistingSnoc(f, x, FileSaved(saved));
        if FileSaved(saved)(x) {
          assert PostProcessed(data, saved) == p + [x];
          assert (p + [x])[..|p|] == p;
        } else {
          assert PostProcessed(data, saved) == p;
          Dedup.SubseqWeaken(p, data);
        }
      } else {
        assert Dedup.FirstByKey(data, PathOf) == f;
        Dedup.SubseqWeaken(p, data);
      }
    }
  }

  /** One item of the clean-up loop: a non-empty path not seen before
      joins the seen paths, and its item is kept when its file exists. */
  lemma PostProcessStep(data: seq<FileRecord>, i: nat, saved: string -> bool)
    requires i < |data|
    ensures var x := data[i];
      var seen := Dedup.Keys(data[..i], PathOf);
      if x.path != "" && x.path !in seen then
        Dedup.Keys(data[..i + 1], PathOf) == seen + {x.path} &&
        PostProcessed(data[..i + 1], saved) ==
          PostProcessed(data[..i], saved) + (if saved(Basename(x.path)) then [x] else [])
      else
        Dedup.Keys(data[..i + 1], PathOf) == seen &&
        PostProcessed(data[..i + 1], saved) == PostProcessed(data[..i], saved)
  {
    assert data[..i + 1][..i] == data[..i];
    var x := data[i];
    if x.path != "" && x.path !in Dedup.Keys(data[..i], PathOf) {
      ExistingSnoc(Dedup.FirstByKey(data[..i], PathOf), x, FileSaved(saved));
    }
  }

  /** The crawler's state: its metadata list. */
  class Crawler {
    var fileData: seq<FileRecord>

    /** The metadata saved by an earlier run, or nothing when there is none
        or it does not decode. */
    constructor (stored: Option<seq<FileRecord>>)
      ensures fileData == (if stored.Some? then stored.value else [])
    {
      fileData := if stored.Some? then stored.value else [];
    }

    /** `_add_to_metadata`. */
    method AddToMetadata(url: string, filename: string, now: string)
      modifies this
      ensures fileData == AddRecord(old(fileData), url, filename, now)
    {
      var relativePath := "/files/" + filename;
      var i := 0;
      while i < |fileData|
        invariant 0 <= i <= |fileData|
        invariant forall k :: 0 <= k < i ==> fileData[k].path != relativePath
      {
        if fileData[i].path == relativePath {
          return;
        }
        i := i + 1;
      }
      fileData := fileData + [FileRecord(url, relativePath, now)];
    }

    /** The file name `download_file` derives from the url. */
    static method NameFor(fileUrl: string) returns (filename: string)
      ensures filename == DownloadName(fileUrl)
    {
      filename := Sanitize(Basename(fileUrl));
      if |filename| > MaxNameLength {
        filename := filename[|filename| - MaxNameLength..];
      }
    }

    /** `download_file`: `saved` says which files are already saved and
        `status` is the answer to the request. */
    method DownloadFile(fileUrl: string, saved: string -> bool, status: Option<int>, now: string)
      modifies this
      ensures fileData == DownloadSpec(old(fileData), fileUrl, saved, status, now)
    {
      var filename := NameFor(fileUrl);
      if saved(filename) {
        AddToMetadata(fileUrl, filename, now);
        return;
      }
      if status == Some(200) {
        AddToMetadata(fileUrl, filename, now);
      }
    }

    /** One anchor of `parse_and_download`: script and fragment links are
        skipped, and a joined url with a target extension is downloaded. */
    method Visit(href: string, baseUrl: string, join: (string, string) -> string,
                 saved: string -> bool, status: string -> Option<int>, now: string)
      returns (took: bool)
      modifies this
      ensures took == (Followed(href) && IsTarget(join(baseUrl, href)))
      ensures fileData == if took then DownloadSpec(old(fileData), join(baseUrl, href), saved, status(join(baseUrl, href)), now)
                          else old(fileData)
    {
      took := false;
      if StartsWith(href, "javascript") || StartsWith(href, "#") {
        return;
      }
      var fullUrl := join(baseUrl, href);
      if IsTarget(fullUrl) {
        DownloadFile(fullUrl, saved, status(fullUrl), now);
        took := true;
      }
    }

    /** `parse_and_download` over the hrefs of a page's anchors; returns how
        many files it went after. */
    method ParseAndDownload(hrefs: seq<string>, baseUrl: string, join: (string, string) -> string,
                            saved: string -> bool, status: string -> Option<int>, now: string)
      returns (found: nat)
      modifies this
      ensures found == |Targets(hrefs, baseUrl, join)|
      ensures fileData == DownloadAll(old(fileData), Targets(hrefs, baseUrl, join), saved, status, now)
    {
      ghost var start := fileData;
      found := 0;
      var i := 0;
      assert hrefs[..0] == [];
      while i < |hrefs|
        invariant 0 <= i <= |hrefs|
        invariant found == |Targets(hrefs[..i], baseUrl, join)|
        invariant fileData == DownloadAll(start, Targets(hrefs[..i], baseUrl, join), saved, status, now)
      {
        ParseStep(start, hrefs, i, baseUrl, join, saved, status, now);
        var took := Visit(hrefs[i], baseUrl, join, saved, status, now);
        if took {
          found := found + 1;
        }
        i := i + 1;
      }
      assert hrefs[..i] == hrefs;
    }

    /** `post_process_data` on the metadata file's contents (`None` when
        the file is missing, which leaves the metadata alone). */
    method PostProcessData(stored: Option<seq<FileRecord>>, saved: string -> bool)
      modifies this
      ensures fileData == if stored.Some? then PostProcessed(stored.value, saved) else old(fileData)
    {
      if stored.None? {
        return;
      }
      var data := stored.value;
      var uniquePaths: set<string> := {};
      var validItems: seq<FileRecord> := [];
      var i := 0;
      while i < |data|
        invariant 0 <= i <= |data|
        invariant uniquePaths == Dedup.Keys(data[..i], PathOf)
        invariant validItems == PostProcessed(data[..i], saved)
      {
        PostProcessStep(data, i, saved);
        var item := data[i];
        var path := item.path;
        if path != "" && path !in uniquePaths {
          uniquePaths := uniquePaths + {path};
          if saved(Basename(path)) {
            validItems := validItems + [item];
          }
        }
        i := i + 1;
      }
      assert data[..i] == data;
      fileData := validItems;
    }
  }
}
