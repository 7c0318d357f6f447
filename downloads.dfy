/**
 * The rest of the fetcher job: for every chosen resource that has a url,
 * derive the path it is saved to under data/raw, transfer it unless a
 * non-empty file is already there, and record it in the manifest.
 * The filesystem is a value (path to contents) threaded through the run,
 * and the server is a function from url to its answer.
 */
module Downloads {

  import opened Options
  import opened Text
  import opened Seqs
  import opened Fetcher

  /** The folder files are saved into, with its trailing separator. */
  const RawFolder := "data/raw/"

  type Bytes = seq<bv8>

  /** Files by path. Directories are not modelled: a path names a file. */
  type Disk = map<string, Bytes>

  /** What a GET of a url yields: an error status, or the body in chunks. */
  datatype Response = Failed | Body(chunks: seq<Bytes>)

  /** One manifest record; the optional fields are JSON null when None. */
  datatype Entry = Entry(
    name: Option<string>,
    format: Option<string>,
    created: Option<string>,
    lastModified: Option<string>,
    url: string,
    savedTo: string)

  /** The resource has a truthy url, so main downloads it. */
  predicate HasUrl(r: Resource)
  {
    Truthy(r.url)
  }

  /** The file name stem: the name ("resource" when it is missing or empty) with '/' turned into '-'. */
  function Stem(r: Resource): (s: string)
    ensures s != []
    ensures '/' !in s
    ensures |s| == |OrElse(r.name, "resource")|
    ensures forall i :: 0 <= i < |s| && OrElse(r.name, "resource")[i] != '/' ==>
              s[i] == OrElse(r.name, "resource")[i]
    ensures forall i :: 0 <= i < |s| && OrElse(r.name, "resource")[i] == '/' ==> s[i] == '-'
  {
    var s := ReplaceChar(OrElse(r.name, "resource"), '/', '-');
    assert forall i :: 0 <= i < |s| ==> s[i] != '/';
    s
  }

  /** The file extension: the format ("file" when it is missing or empty), lower-cased. */
  function Extension(r: Resource): (e: string)
    ensures e != []
    ensures forall i :: 0 <= i < |e| ==> !IsUpperAscii(e[i])
    ensures IsZip(r) ==> e == "zip"
    ensures !Truthy(r.format) ==> e == "file"
    ensures Truthy(r.format) ==> e == Lower(r.format.value)
  {
    Lower(OrElse(r.format, "file"))
  }

  /** raw_folder / f"{name}.{fmt}" */
  function SavePath(r: Resource): string
  {
    RawFolder + Stem(r) + "." + Extension(r)
  }

  /** The saved file lies in the raw folder, and directly in it unless the format holds a '/'. */
  lemma SavePathInRawFolder(r: Resource)
    ensures StartsWith(SavePath(r), RawFolder)
    ensures SavePath(r)[|RawFolder|..] == Stem(r) + "." + Extension(r)
    ensures '/' !in Extension(r) ==> '/' !in SavePath(r)[|RawFolder|..]
  {
    var tail := Stem(r) + "." + Extension(r);
    assert SavePath(r) == RawFolder + tail;
    assert SavePath(r)[..|RawFolder|] == RawFolder;
    assert SavePath(r)[|RawFolder|..] == tail;
    if '/' !in Extension(r) {
      forall i | 0 <= i < |tail|
        ensures tail[i] != '/'
      {
        if i < |Stem(r)| {
          assert tail[i] == Stem(r)[i];
        } else if i > |Stem(r)| {
          assert tail[i] == Extension(r)[i - |Stem(r)| - 1];
        }
      }
    }
  }

  /** A manifest timestamp is the text the catalog sent. */
  function StampText(f: Option<Stamp>): (t: Option<string>)
    ensures t.Some? <==> f.Some?
    ensures f.Some? ==> t.value == f.value.text
  {
    if f.Some? then Some(f.value.text) else None
  }

  /** The manifest record main appends for a downloaded resource. */
  function EntryFor(r: Resource): (e: Entry)
    ensures HasUrl(r) ==> Some(e.url) == r.url
    ensures e.savedTo == SavePath(r)
    ensures e.name == r.name && e.format == r.format
    ensures e.created == StampText(r.created) && e.lastModified == StampText(r.lastModified)
  {
    Entry(r.name, r.format, StampText(r.created), StampText(r.lastModified),
          OrElse(r.url, ""), SavePath(r))
  }

  /** The file exists and is not empty, so download skips it. */
  predicate Present(disk: Disk, path: string)
  {
    path in disk && disk[path] != []
  }

  /** The bytes written for a body: its chunks in order (empty chunks add nothing). */
  function Concat(chunks: seq<Bytes>): (b: Bytes)
    ensures b == [] <==> forall i :: 0 <= i < |chunks| ==> chunks[i] == []
    decreases |chunks|
  {
    if chunks == [] then []
    else
      var init := chunks[..|chunks| - 1];
      var b := Concat(init) + chunks[|chunks| - 1];
      assert forall i :: 0 <= i < |init| ==> init[i] == chunks[i];
      b
  }

  /**
   * download(url, save_as), stated as a function: a non-empty file is left
   * alone; otherwise an error status fails the run (no file is opened), and
   * a body is written to the path, replacing an empty file.
   */
  function Save(disk: Disk, path: string, resp: Response): (r: Option<Disk>)
    ensures Present(disk, path) ==> r == Some(disk)
    ensures r.None? <==> !Present(disk, path) && resp.Failed?
    ensures r.Some? ==> path in r.value
    ensures r.Some? && resp.Body? && !Present(disk, path) ==> r.value[path] == Concat(resp.chunks)
    ensures r.Some? ==> forall p :: p != path ==>
              (p in r.value <==> p in disk) && (p in disk ==> r.value[p] == disk[p])
  {
    if Present(disk, path) then Some(disk)
    else if resp.Failed? then None
    else Some(disk[path := Concat(resp.chunks)])
  }

  /** A file left empty (an empty body) is fetched again on the next run. */
  lemma EmptyFileRetried(disk: Disk, path: string, chunks: seq<Bytes>)
    requires path in disk && disk[path] == []
    requires exists i :: 0 <= i < |chunks| && chunks[i] != []
    ensures Save(disk, path, Body(chunks)).Some?
    ensures Save(disk, path, Body(chunks)).value[path] != []
  {
  }

  /** download: the skip test, then the chunk loop writing non-empty chunks. */
  method Download(disk: Disk, path: string, resp: Response) returns (r: Option<Disk>)
    ensures r == Save(disk, path, resp)
  {
    if path in disk && |disk[path]| > 0 {
      return Some(disk);
    }
    if resp.Failed? {
      return None;
    }
    var chunks := resp.chunks;
    var data: Bytes := [];
    for i := 0 to |chunks|
      invariant data == Concat(chunks[..i])
    {
      assert chunks[..i + 1][..i] == chunks[..i];
      if chunks[i] != [] {
        data := data + chunks[i];
      }
    }
    assert chunks[..|chunks|] == chunks;
    return Some(disk[path := data]);
  }

  /** The state of main after some of the chosen resources: disk, manifest so far, and no error yet. */
  datatype Run = Run(disk: Disk, entries: seq<Entry>, ok: bool)

  /** One turn of main's loop; after an error nothing more happens. */
  function Step(prev: Run, r: Resource, served: string -> Response): Run
  {
    if !prev.ok || !HasUrl(r) then prev
    else match Save(prev.disk, SavePath(r), served(r.url.value))
      case None => prev.(ok := false)
      case Some(d) => Run(d, prev.entries + [EntryFor(r)], true)
  }

  /** main's loop over the chosen resources, stated from the last one back. */
  function RunAll(disk: Disk, chosen: seq<Resource>, served: string -> Response): Run
    decreases |chosen|
  {
    if chosen == [] then Run(disk, [], true)
    else Step(RunAll(disk, chosen[..|chosen| - 1], served), chosen[|chosen| - 1], served)
  }

  lemma RunSnoc(disk: Disk, chosen: seq<Resource>, i: int, served: string -> Response)
    requires 0 <= i < |chosen|
    ensures RunAll(disk, chosen[..i + 1], served) ==
            Step(RunAll(disk, chosen[..i], served), chosen[i], served)
  {
    assert chosen[..i + 1][..i] == chosen[..i];
  }

  /** Once a download fails, the rest of the loop is never reached. */
  lemma {:induction false} FailureStops(disk: Disk, chosen: seq<Resource>, k: int, served: string -> Response)
    requires 0 <= k <= |chosen|
    requires !RunAll(disk, chosen[..k], served).ok
    ensures RunAll(disk, chosen, served) == RunAll(disk, chosen[..k], served)
    decreases |chosen|
  {
    if k == |chosen| {
      assert chosen[..k] == chosen;
    } else {
      var init := chosen[..|chosen| - 1];
      assert init[..k] == chosen[..k];
      FailureStops(disk, init, k, served);
    }
  }

  /** A run that succeeds lists exactly the chosen resources with a url, in order. */
  lemma {:induction false} RunManifest(disk: Disk, chosen: seq<Resource>, served: string -> Response)
    ensures RunAll(disk, chosen, served).ok ==>
              RunAll(disk, chosen, served).entries == Map(EntryFor, Filter(HasUrl, chosen))
    decreases |chosen|
  {
    if chosen != [] {
      var init := chosen[..|chosen| - 1];
      var last := chosen[|chosen| - 1];
      assert chosen == init + [last];
      RunManifest(disk, init, served);
      FilterSnoc(HasUrl, init, last);
      var prev := RunAll(disk, init, served);
      if RunAll(disk, chosen, served).ok && HasUrl(last) {
        assert prev.ok;
        MapSnoc(EntryFor, Filter(HasUrl, init), last);
      }
    }
  }

  /** A run fails only on a resource whose url answers with an error status. */
  lemma {:induction false} RunFailureCause(disk: Disk, chosen: seq<Resource>, served: string -> Response)
    ensures !RunAll(disk, chosen, served).ok ==>
              exists i :: 0 <= i < |chosen| && HasUrl(chosen[i]) && served(chosen[i].url.value).Failed?
    decreases |chosen|
  {
    if chosen != [] {
      var init := chosen[..|chosen| - 1];
      RunFailureCause(disk, init, served);
      if !RunAll(disk, init, served).ok {
        var i :| 0 <= i < |init| && HasUrl(init[i]) && served(init[i].url.value).Failed?;
        assert init[i] == chosen[i];
      }
    }
  }

  /** A file that was already non-empty is never rewritten. */
  lemma {:induction false} RunKeepsPresent(disk: Disk, chosen: seq<Resource>, served: string -> Response, p: string)
    requires Present(disk, p)
    ensures p in RunAll(disk, chosen, served).disk
    ensures RunAll(disk, chosen, served).disk[p] == disk[p]
    decreases |chosen|
  {
    if chosen != [] {
      RunKeepsPresent(disk, chosen[..|chosen| - 1], served, p);
    }
  }

  /** Only the save paths of the chosen resources change. */
  lemma {:induction false} RunTouchesOnlySavePaths(disk: Disk, chosen: seq<Resource>, served: string -> Response, p: string)
    requires forall r :: r in chosen ==> SavePath(r) != p
    ensures p in RunAll(disk, chosen, served).disk <==> p in disk
    ensures p in disk ==> RunAll(disk, chosen, served).disk[p] == disk[p]
    decreases |chosen|
  {
    if chosen != [] {
      var init := chosen[..|chosen| - 1];
      assert forall r :: r in init ==> r in chosen;
      RunTouchesOnlySavePaths(disk, init, served, p);
    }
  }

  /** Every file the manifest names exists once the run is over. */
  lemma {:induction false} RunSavedExist(disk: Disk, chosen: seq<Resource>, served: string -> Response)
    ensures forall e :: e in RunAll(disk, chosen, served).entries ==> e.savedTo in RunAll(disk, chosen, served).disk
    decreases |chosen|
  {
    if chosen != [] {
      RunSavedExist(disk, chosen[..|chosen| - 1], served);
    }
  }

  /**
   * Resuming: when every chosen file is already present, a run succeeds,
   * changes nothing and needs no answer from the server at all.
   */
  lemma {:induction false} ResumeNeedsNoNetwork(disk: Disk, chosen: seq<Resource>, served: string -> Response)
    requires forall r :: r in chosen && HasUrl(r) ==> Present(disk, SavePath(r))
    ensures RunAll(disk, chosen, served) == Run(disk, Map(EntryFor, Filter(HasUrl, chosen)), true)
    decreases |chosen|
  {
    if chosen != [] {
      var init := chosen[..|chosen| - 1];
      var last := chosen[|chosen| - 1];
      assert chosen == init + [last];
      assert forall r :: r in init ==> r in chosen;
      ResumeNeedsNoNetwork(disk, init, served);
      FilterSnoc(HasUrl, init, last);
      MapSnoc(EntryFor, Filter(HasUrl, init), last);
    }
  }

  /**
   * Running main again after a successful run whose files all came out
   * non-empty transfers nothing and writes the same manifest.
   */
  lemma Rerun(disk: Disk, chosen: seq<Resource>, served: string -> Response, again: string -> Response)
    requires RunAll(disk, chosen, served).ok
    requires forall e :: e in RunAll(disk, chosen, served).entries ==>
               Present(RunAll(disk, chosen, served).disk, e.savedTo)
    ensures RunAll(RunAll(disk, chosen, served).disk, chosen, again) == RunAll(disk, chosen, served)
  {
    var run := RunAll(disk, chosen, served);
    RunManifest(disk, chosen, served);
    forall r | r in chosen && HasUrl(r)
      ensures Present(run.disk, SavePath(r))
    {
      var hs := Filter(HasUrl, chosen);
      var k :| 0 <= k < |hs| && hs[k] == r;
      assert run.entries[k] == EntryFor(r);
    }
    ResumeNeedsNoNetwork(run.disk, chosen, again);
  }

  /**
   * main's loop: skip resources without a url, download the rest, and
   * return the manifest to be written, or None when a download raised.
   */
  method SaveChosen(chosen: seq<Resource>, disk0: Disk, served: string -> Response)
    returns (manifest: Option<seq<Entry>>, disk: Disk)
    ensures disk == RunAll(disk0, chosen, served).disk
    ensures manifest.Some? <==> RunAll(disk0, chosen, served).ok
    ensures manifest.Some? ==> manifest.value == RunAll(disk0, chosen, served).entries
  {
    disk := disk0;
    var entries: seq<Entry> := [];
    var i := 0;
    assert chosen[..0] == [];
    while i < |chosen|
      invariant 0 <= i <= |chosen|
      invariant RunAll(disk0, chosen[..i], served) == Run(disk, entries, true)
    {
      var res := chosen[i];
      RunSnoc(disk0, chosen, i, served);
      if res.url.None? || res.url.value == "" {
        i := i + 1;
        continue;
      }
      var url := res.url.value;
      var name := ReplaceChar(OrElse(res.name, "resource"), '/', '-');
      var fmt := Lower(OrElse(res.format, "file"));
      var saveAs := RawFolder + name + "." + fmt;
      assert saveAs == SavePath(res);
      var saved := Download(disk, saveAs, served(url));
      if saved.None? {
        FailureStops(disk0, chosen, i + 1, served);
        return None, disk;
      }
      disk := saved.value;
      entries := entries + [Entry(res.name, res.format, StampText(res.created),
                                  StampText(res.lastModified), url, saveAs)];
      i := i + 1;
    }
    assert chosen[..i] == chosen;
    manifest := Some(entries);
  }

  /**
   * main: pick the newest files, save them, and return the manifest (None
   * when a download raised before the manifest was written).
   */
  method FetchLatest(resources: seq<Resource>, months: int, disk0: Disk, served: string -> Response)
    returns (chosen: seq<Resource>, manifest: Option<seq<Entry>>, disk: Disk)
    ensures chosen == Selection(NewestFirst(resources), months)
    ensures disk == RunAll(disk0, chosen, served).disk
    ensures manifest.Some? <==> RunAll(disk0, chosen, served).ok
    ensures manifest.Some? ==> manifest.value == Map(EntryFor, Filter(HasUrl, chosen))
    ensures manifest.None? ==>
              exists i :: 0 <= i < |chosen| && HasUrl(chosen[i]) && served(chosen[i].url.value).Failed?
  {
    chosen := PickLatest(resources, months);
    manifest, disk := SaveChosen(chosen, disk0, served);
    RunManifest(disk0, chosen, served);
    RunFailureCause(disk0, chosen, served);
  }
}
