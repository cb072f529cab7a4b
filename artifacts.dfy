/** `ArticfactFetcher._downloadInfoArtifacts` and `_getArtifact`: for one selected release, the
    directory to create, how its creation failing is judged, and the three downloads that follow
    one after the other.  The network and the file system are parameters: `path.join` is an
    abstract function, and whether the fetch of one artifact fails is another. */
module Artifacts {
  import opened Wrappers
  import opened Requests
  import opened Selection

  // ---------------------------------------------------------------------------------------
  // The download plan of one version.

  const Checksums: string := "SHASUMS256.txt"

  function HeadersGz(version: string): string
  {
    "node-" + version + "-headers.tar.gz"
  }

  function HeadersXz(version: string): string
  {
    "node-" + version + "-headers.tar.xz"
  }

  /** The three artifacts of a version, in the order in which they are fetched; no two are the
      same file. */
  function ArtifactNames(version: string): (names: seq<string>)
    ensures |names| == 3
    ensures names[0] == Checksums && names[1] == HeadersGz(version) && names[2] == HeadersXz(version)
    ensures forall i, j :: 0 <= i < j < 3 ==> names[i] != names[j]
  {
    var gz, xz := HeadersGz(version), HeadersXz(version);
    assert Checksums[0] != gz[0] && Checksums[0] != xz[0];
    assert gz[|gz| - 2] != xz[|xz| - 2];
    [Checksums, gz, xz]
  }

  /** The path requested for one artifact, relative to the base URL: `/<version>/<filename>`. */
  function RequestPath(version: string, filename: string): (p: string)
    ensures |p| == |version| + |filename| + 2
    ensures p[0] == '/' && p[|version| + 1] == '/'
    ensures p[1..|version| + 1] == version && p[|version| + 2..] == filename
  {
    "/" + version + "/" + filename
  }

  /** `path.join`, not modelled. */
  type Join = (string, string) -> string

  /** One artifact to fetch: the path to request and the file the response body is piped into. */
  datatype Download = Download(request: string, file: string)

  /** The downloads of one version, in order: each artifact is requested under `/<version>/`
      and its body is piped into a file in the version's own directory `join(outdir, version)`. */
  function Plan(join: Join, outdir: string, version: string): (p: seq<Download>)
    ensures |p| == 3
    ensures forall i, j :: 0 <= i < j < 3 ==> p[i].request != p[j].request
  {
    var names := ArtifactNames(version);
    var dir := join(outdir, version);
    var p := seq(3, i requires 0 <= i < 3 => Download(RequestPath(version, names[i]), join(dir, names[i])));
    forall i, j | 0 <= i < j < 3
      ensures p[i].request != p[j].request
    {
      var prefix := "/" + version + "/";
      assert p[i] == Download(RequestPath(version, names[i]), join(dir, names[i]));
      assert p[j] == Download(RequestPath(version, names[j]), join(dir, names[j]));
      assert p[i].request == prefix + names[i] && p[j].request == prefix + names[j];
      assert (prefix + names[i])[|prefix|..] == names[i] && (prefix + names[j])[|prefix|..] == names[j];
    }
    p
  }

  // ---------------------------------------------------------------------------------------
  // Reading a request path back: the inverse of RequestPath for versions without a '/'.

  /** Splits a string at its first '/'. */
  function SplitAtSlash(s: string): (r: Option<(string, string)>)
    ensures r.Some? ==> '/' !in r.value.0 && r.value.0 + "/" + r.value.1 == s
    ensures r.None? <==> '/' !in s
  {
    if s == [] then None
    else if s[0] == '/' then Some(([], s[1..]))
    else
      match SplitAtSlash(s[1..])
      case None => None
      case Some((a, b)) => Some(([s[0]] + a, b))
  }

  function ParseRequestPath(p: string): Option<(string, string)>
  {
    if |p| > 0 && p[0] == '/' then SplitAtSlash(p[1..]) else None
  }

  lemma {:induction false} SplitAtSlashOfJoined(a: string, b: string)
    requires '/' !in a
    ensures SplitAtSlash(a + "/" + b) == Some((a, b))
    decreases |a|
  {
    if a == [] {
      assert a + "/" + b == ['/'] + b;
    } else {
      assert (a + "/" + b)[1..] == a[1..] + "/" + b;
      SplitAtSlashOfJoined(a[1..], b);
      assert [a[0]] + a[1..] == a;
    }
  }

  /** The version and the file name can be read back from a request path. */
  lemma RequestPathRoundTrip(version: string, filename: string)
    requires '/' !in version
    ensures ParseRequestPath(RequestPath(version, filename)) == Some((version, filename))
  {
    assert RequestPath(version, filename)[1..] == version + "/" + filename;
    SplitAtSlashOfJoined(version, filename);
  }

  /** So two versions without '/' never share a request path. */
  lemma RequestPathInjective(v1: string, f1: string, v2: string, f2: string)
    requires '/' !in v1 && '/' !in v2 && RequestPath(v1, f1) == RequestPath(v2, f2)
    ensures v1 == v2 && f1 == f2
  {
    RequestPathRoundTrip(v1, f1);
    RequestPathRoundTrip(v2, f2);
  }

  /** Every download of a version asks for `<base path>/<version>/<file name>`: the base URL's path
      is kept in front and the rest reads back as the version and the artifact's name. */
  lemma PlanRequestUrl(base: Url, join: Join, outdir: string, version: string, i: nat)
    requires '/' !in version && i < 3
    ensures var u := AppendPath(base, Plan(join, outdir, version)[i].request);
            && u.pathname[..|base.pathname|] == base.pathname
            && ParseRequestPath(u.pathname[|base.pathname|..]) == Some((version, ArtifactNames(version)[i]))
  {
    RequestPathRoundTrip(version, ArtifactNames(version)[i]);
  }

  /** For version 12.22.12 the three request paths, in order. */
  lemma PlanExample(join: Join, outdir: string)
    ensures var p := Plan(join, outdir, "12.22.12");
            && p[0].request == "/12.22.12/SHASUMS256.txt"
            && p[1].request == "/12.22.12/node-12.22.12-headers.tar.gz"
            && p[2].request == "/12.22.12/node-12.22.12-headers.tar.xz"
  {
    var p := Plan(join, outdir, "12.22.12");
    assert p[0].request == RequestPath("12.22.12", Checksums);
    assert p[1].request == RequestPath("12.22.12", HeadersGz("12.22.12"));
    assert p[2].request == RequestPath("12.22.12", HeadersXz("12.22.12"));
    ExampleChecksumsPath();
    ExampleGzPath();
    ExampleXzPath();
  }

  lemma ExampleChecksumsPath()
    ensures RequestPath("12.22.12", Checksums) == "/12.22.12/SHASUMS256.txt"
  {
    ExampleDirectoryPrefix();
  }

  lemma ExampleDirectoryPrefix()
    ensures "/" + "12.22.12" + "/" == "/12.22.12/"
  {
  }

  lemma ExampleGzPath()
    ensures RequestPath("12.22.12", HeadersGz("12.22.12")) == "/12.22.12/node-12.22.12-headers.tar.gz"
  {
    ExampleGzName();
    ExampleDirectoryPrefix();
  }

  lemma ExampleGzName()
    ensures HeadersGz("12.22.12") == "node-12.22.12-headers.tar.gz"
  {
  }

  lemma ExampleXzPath()
    ensures RequestPath("12.22.12", HeadersXz("12.22.12")) == "/12.22.12/node-12.22.12-headers.tar.xz"
  {
    ExampleXzName();
    ExampleDirectoryPrefix();
  }

  lemma ExampleXzName()
    ensures HeadersXz("12.22.12") == "node-12.22.12-headers.tar.xz"
  {
  }

  // ---------------------------------------------------------------------------------------
  // Creating the version's directory.

  /** The error a failed `fs.mkdir` rejects with; `code` is absent when the error carries none. */
  datatype FsError = FsError(code: Option<string>)

  datatype Outcome = Pass | Fail(error: FsError)

  /** The `.catch` after `mkdir(infoOutdir)`: a directory that already exists is fine, any other
      failure is passed on unchanged. */
  function TolerateExisting(err: Option<FsError>): (o: Outcome)
    ensures o.Pass? <==> (err.None? || err.value.code == Some("EEXIST"))
    ensures o.Fail? ==> err == Some(o.error)
  {
    match err
    case None => Pass
    case Some(e) => if e.code == Some("EEXIST") then Pass else Fail(e)
  }

  // ---------------------------------------------------------------------------------------
  // Running the downloads of one version.

  /** Why a version's downloads stopped: its directory could not be created, or the fetch of one
      artifact failed (the request itself rejected, a non-ok response, an `error` event on the
      response body). */
  datatype Failure = Filesystem(fs: FsError) | Transfer(reason: string)

  /** Either the body of every download of the plan was read to its end, or the run stopped with
      a failure after the downloads whose files are listed in `fetched`. */
  datatype RunResult = Completed(files: seq<string>) | Aborted(failure: Failure, fetched: seq<string>)

  /** The failure, if any, of one `_getArtifact` step: the request itself rejecting (no
      connection, an invalid URL, too many redirects), a non-ok response status, or an `error`
      event on the response body before its `end`. */
  type Fetcher = Download -> Option<string>

  /** The files of a plan, collected front to back as the chain reaches them. */
  function Files(plan: seq<Download>): (fs: seq<string>)
    ensures |fs| == |plan| && forall i :: 0 <= i < |plan| ==> fs[i] == plan[i].file
    decreases |plan|
  {
    if plan == [] then [] else [plan[0].file] + Files(plan[1..])
  }

  /** The `.then` chain: each download starts when the previous one has finished, and the first
      failure ends the chain. */
  function FetchAll(plan: seq<Download>, fetch: Fetcher): RunResult
    decreases |plan|
  {
    if plan == [] then Completed([])
    else
      match fetch(plan[0])
      case Some(e) => Aborted(Transfer(e), [])
      case None =>
        match FetchAll(plan[1..], fetch)
        case Completed(fs) => Completed([plan[0].file] + fs)
        case Aborted(f, w) => Aborted(f, [plan[0].file] + w)
  }

  /** The chain completes exactly when no download fails, and then every file of the plan was
      fetched, in order. */
  lemma {:induction false} FetchAllCompleted(plan: seq<Download>, fetch: Fetcher)
    ensures FetchAll(plan, fetch).Completed? <==> forall k :: 0 <= k < |plan| ==> fetch(plan[k]).None?
    ensures FetchAll(plan, fetch).Completed? ==> FetchAll(plan, fetch).files == Files(plan)
    decreases |plan|
  {
    if plan != [] && fetch(plan[0]).None? {
      var rest := plan[1..];
      FetchAllCompleted(rest, fetch);
      assert forall k :: 0 <= k < |rest| ==> rest[k] == plan[k + 1];
      if forall k :: 0 <= k < |rest| ==> fetch(rest[k]).None? {
        forall k | 1 <= k < |plan|
          ensures fetch(plan[k]).None?
        {
          assert plan[k] == rest[k - 1];
        }
      }
      var tail := FetchAll(rest, fetch);
      if tail.Completed? {
        assert FetchAll(plan, fetch) == Completed([plan[0].file] + tail.files);
        assert Files(plan) == [plan[0].file] + Files(rest);
      }
    }
  }

  /** Otherwise the chain stops on a transfer failure before the end of the plan. */
  lemma {:induction false} FetchAllAborted(plan: seq<Download>, fetch: Fetcher)
    ensures FetchAll(plan, fetch).Aborted? ==>
              FetchAll(plan, fetch).failure.Transfer? && |FetchAll(plan, fetch).fetched| < |plan|
    decreases |plan|
  {
    if plan != [] && fetch(plan[0]).None? {
      FetchAllAborted(plan[1..], fetch);
    }
  }

  /** When the download at index `k` is the first to fail, its failure is the run's, the downloads
      before it have been fetched and none after it is attempted. */
  lemma {:induction false} FetchAllFirstFailure(plan: seq<Download>, fetch: Fetcher, k: nat)
    requires k < |plan| && fetch(plan[k]).Some?
    requires forall j :: 0 <= j < k ==> fetch(plan[j]).None?
    ensures FetchAll(plan, fetch) == Aborted(Transfer(fetch(plan[k]).value), Files(plan[..k]))
    decreases k
  {
    if k > 0 {
      FetchAllFirstFailure(plan[1..], fetch, k - 1);
      assert Files(plan[..k]) == [plan[0].file] + Files(plan[1..][..k - 1]);
    }
  }

  /** `_downloadInfoArtifacts` for one release. */
  function DownloadInfoArtifacts(join: Join, outdir: string, info: Release, mkdirError: Option<FsError>,
                                 fetch: Fetcher): (r: RunResult)
    ensures mkdirError.Some? && mkdirError.value.code != Some("EEXIST") ==> r == Aborted(Filesystem(mkdirError.value), [])
    ensures (mkdirError.None? || mkdirError.value.code == Some("EEXIST")) ==>
              r == FetchAll(Plan(join, outdir, info.version), fetch)
  {
    match TolerateExisting(mkdirError)
    case Fail(e) => Aborted(Filesystem(e), [])
    case Pass => FetchAll(Plan(join, outdir, info.version), fetch)
  }

  /** A release's downloads complete exactly when its directory exists or was created and all
      three artifacts were fetched; the files then are the three artifacts, in order, inside
      `join(outdir, version)`. */
  lemma DownloadCompleted(join: Join, outdir: string, info: Release, mkdirError: Option<FsError>, fetch: Fetcher)
    ensures var r := DownloadInfoArtifacts(join, outdir, info, mkdirError, fetch);
            var p := Plan(join, outdir, info.version);
            && (r.Completed? <==> (TolerateExisting(mkdirError).Pass? && forall k :: 0 <= k < 3 ==> fetch(p[k]).None?))
            && (r.Completed? ==> r.files == [join(join(outdir, info.version), Checksums),
                                             join(join(outdir, info.version), HeadersGz(info.version)),
                                             join(join(outdir, info.version), HeadersXz(info.version))])
  {
    FetchAllCompleted(Plan(join, outdir, info.version), fetch);
  }

  // ---------------------------------------------------------------------------------------
  // All selected versions (`infos.map(info => this._downloadInfoArtifacts(info, this._outdir))`).

  /** The selected versions never request the same path twice: versions differ across the
      selection, and within a version the three names differ. */
  lemma SelectedRequestsDistinct(parse: Parser, infos: seq<Release>, selected: seq<Release>,
                                 join: Join, outdir: string, i: nat, j: nat, a: nat, b: nat)
    requires AllParse(parse, infos) && IsLatestSelection(parse, infos, selected)
    requires forall k :: 0 <= k < |selected| ==> '/' !in selected[k].version
    requires i < |selected| && j < |selected| && a < 3 && b < 3 && (i, a) != (j, b)
    ensures Plan(join, outdir, selected[i].version)[a].request != Plan(join, outdir, selected[j].version)[b].request
  {
    SelectionFromInput(parse, infos, selected);
    SelectionOnePerMajor(parse, infos, selected);
    var vi, vj := selected[i].version, selected[j].version;
    assert '/' !in vi && '/' !in vj;
    var names_i, names_j := ArtifactNames(vi), ArtifactNames(vj);
    if Plan(join, outdir, vi)[a].request == Plan(join, outdir, vj)[b].request {
      RequestPathInjective(vi, names_i[a], vj, names_j[b]);
    }
  }
}
