# crispy-succotash release selection and download plan, in Dafny

The fetcher reads the Node.js release index. It keeps the newest release of every major version
line from 4.0.0 up. For each kept release it creates `<outdir>/<version>/` and downloads
`SHASUMS256.txt`, `node-<version>-headers.tar.gz` and `node-<version>-headers.tar.xz` into it,
one after the other. This project models the decision logic of the class `ArticfactFetcher`
in `index.js` and proves its properties:

- `versions.dfy` (module `Versions`): parsed versions and the precedence order behind `semver.lt`
  and `semver.gt`. The order compares major, minor and patch, then the prerelease list. A number
  identifier is below a string identifier, and a release is above its prereleases. The module
  proves that this order is a strict total order.
- `selection.dfy` (module `Selection`): `_getLatestInfos`. This is an imperative method. Its loop
  updates a map keyed by major plus the map's key insertion order, as the JavaScript `Map` does.
  The method is proved against a declarative characterization, `IsLatestSelection`. Lemmas then
  derive each promised property from that characterization: floor, one entry per major, coverage,
  maximality, unchanged entries, first-wins on ties, first-appearance order, uniqueness and
  idempotence.
- `requests.dfy` (module `Requests`): `_makeRequest`'s path composition. The request path is
  appended to the base URL's own path and does not replace it.
- `artifacts.dfy` (module `Artifacts`): `_downloadInfoArtifacts` and `_getArtifact`. It covers the
  per-version plan of request paths and file paths, and the rule that `EEXIST` counts as success.
  It also models the sequential chain of the three downloads, where the first failure ends the
  chain. A download counts as done once its response body has been read to its end. Lemmas
  show that request paths can be read back, so no two selected versions share one.
- `wrappers.dfy` (module `Wrappers`): the `Option` type.

Things the model takes as parameters, because the code calls into libraries or I/O:
- `semver.parse` is a parameter `parse: string -> Option<Version>`. Every version in the index
  must parse, because the library throws on a malformed version and nothing in the fetcher
  catches the error, so the whole run fails.
- `path.join` is a parameter `join`.
- Whether the fetch of one artifact fails is a parameter `fetch`. It covers the three failures
  that reject the chain: the request itself rejecting (no connection, an invalid URL, too many
  redirects), a non-ok HTTP status, and an `error` event on the response body.
- Whether `fs.mkdir` failed, and with which code, is a parameter `mkdirError`.

The selection returns the map's values in key insertion order. On equal versions it keeps the
earlier entry, because `semver.gt` is false. `SelectionOrder` and `SelectionFirstWins` prove both.

## Model

| member | source | states |
|---|---|---|
| Selection.GetLatestInfos | index.js:102-120 | for every list whose versions all parse, the result satisfies `IsLatestSelection`: one entry per qualifying major, in the order the majors first qualify, each entry the earliest input release of that major that no qualifying release of the major exceeds |
| Selection.Qualifies | index.js:106-108 | a release takes part exactly when its version is not below 4.0.0 |
| Selection.Majors | index.js:109-111 | the majors that act as map keys never repeat |
| Selection.MajorsComplete | index.js:109-111 | every release at or above 4.0.0 puts its major into the key list |
| Selection.MajorsSound | index.js:106-111 | every key comes from some release at or above 4.0.0 with that major |
| Selection.MajorsFirstAppearance | index.js:110-111 | keys are ordered by their first qualifying appearance in the input |
| Selection.SelectionAboveFloor | index.js:106-108 | no selected release is strictly below 4.0.0 |
| Selection.SelectionOnePerMajor | index.js:109-117 | the selected releases have pairwise distinct majors, so also pairwise distinct version strings |
| Selection.SelectionCoversMajors | index.js:109-111 | every major with a release at or above 4.0.0 in the input has a selected release |
| Selection.SelectionMaximal | index.js:113-116 | the selected release of a major is not below any qualifying input release of that major, under the full version order |
| Selection.SelectionFromInput | index.js:111-119 | every selected entry is an input entry, unchanged |
| Selection.SelectionFirstWins | index.js:113-116 | on equal versions the earlier entry is kept: the selected one occurs no later than any qualifying entry with an equal version |
| Selection.SelectionOrder | index.js:110-119 | output order is the order of first appearance of the majors: replacing a stored release does not move its key |
| Selection.SelectionUnique | index.js:102-120 | the characterization determines the output, so the properties above specify it completely |
| Selection.SelectionIdempotent | index.js:102-120 | selecting again from a selection gives the same selection |
| Selection.ExampleSelection | index.js:102-120 | from 10.0.0, 10.24.1, 12.22.12 and 3.9.9 the selection is exactly 10.24.1 then 12.22.12 |
| Selection.ReplaceChosen | index.js:113-116 | a strictly newer release becomes the choice for its major and stays strictly newer than every earlier qualifying release of it |
| Versions.Less | index.js:106-114 | semver precedence: major, minor, patch, then a release above its prereleases and prerelease lists compared identifier by identifier; `LessIrreflexive`, `LessTransitive` and `LessTotal` make it a strict total order |
| Versions.LessTransitive | index.js:113-116 | the order `semver.gt` compares with is transitive |
| Versions.LessTotal | index.js:113-116 | any two versions are equal or ordered one way or the other |
| Versions.LessIrreflexive | index.js:114 | no version is greater than itself, so an equal version never replaces the stored one |
| Versions.LessAsymmetric | index.js:114 | `gt(a, b)` and `gt(b, a)` never both hold |
| Versions.FloorExamples | index.js:106 | 4.0.0 prereleases and 3.9.9 are below the floor; 4.0.0 and 10.0.0 are not |
| Requests.AppendPath | index.js:44-47 | the resulting URL path is the base path followed by the requested path, and no other field of the URL changes |
| Requests.AppendPathInjective | index.js:45-47 | different request paths on one base give different URLs |
| Requests.IndexPathExamples | index.js:97-99 | the index is fetched from `/dist/index.json` for the default base; a root base path gives `//index.json` |
| Artifacts.ArtifactNames | index.js:131-133 | exactly three artifacts, `SHASUMS256.txt`, the `.tar.gz` headers and the `.tar.xz` headers, in that order and pairwise distinct |
| Artifacts.Plan | index.js:122-133 | three downloads whose request paths are pairwise distinct |
| Artifacts.RequestPath | index.js:64 | the request path is `/`, the version, `/`, then the file name; `ParseRequestPath` inverts it (`RequestPathRoundTrip`) |
| Artifacts.SplitAtSlash | index.js:64 | when the result is defined, its first part holds no `/` and the parts joined with `/` give the input; otherwise the input holds no `/` |
| Artifacts.RequestPathRoundTrip | index.js:64 | for a version without `/`, the request path `/<version>/<filename>` reads back as that version and file name |
| Artifacts.RequestPathInjective | index.js:64 | two versions without `/` never share a request path |
| Artifacts.PlanRequestUrl | index.js:63-64 | each artifact's URL path starts with the base path and the rest reads back as the version and the artifact name |
| Artifacts.PlanExample | index.js:131-133 | for 12.22.12 the request paths are `/12.22.12/SHASUMS256.txt`, `/12.22.12/node-12.22.12-headers.tar.gz`, `/12.22.12/node-12.22.12-headers.tar.xz`, in that order |
| Artifacts.TolerateExisting | index.js:125-130 | directory creation counts as success exactly when it succeeded or failed with `EEXIST`; any other error is passed on unchanged |
| Artifacts.FetchAll | index.js:131-133 | no contract of its own: each download starts after the previous one and the first failure ends the chain; `FetchAllCompleted`, `FetchAllAborted` and `FetchAllFirstFailure` state it |
| Artifacts.FetchAllCompleted | index.js:131-133 | the chain completes exactly when no download fails, and then every file of the plan was fetched, in order |
| Artifacts.FetchAllAborted | index.js:131-133 | a chain that does not complete stops on a transfer failure before the end of the plan |
| Artifacts.FetchAllFirstFailure | index.js:131-133 | when download `k` is the first to fail, its failure is the chain's, the downloads before it were fetched and nothing after it is attempted |
| Artifacts.DownloadInfoArtifacts | index.js:122-134 | a directory error other than `EEXIST` aborts before any download; otherwise the three downloads run |
| Artifacts.DownloadCompleted | index.js:122-134 | a release's downloads complete exactly when the directory step passes and all three fetches succeed; the files are then the three artifacts inside `join(outdir, version)` |
| Artifacts.SelectedRequestsDistinct | index.js:91-94 | across all selected releases, if no selected version contains `/`, no two downloads request the same path |

## Left out

- `cli.js`: argument parsing, console output and printing the error of a failed run.
- The constructor and `run()`'s output-root handling (index.js:36-42, 82-89). This is resolving a relative `outdir`, and creating a temporary directory with `mkdtemp` and storing it in `this._outdir`. It is file-system glue, so the model takes `outdir` as given.
- The promise wrappers `mkdir` and `mkdtemp` (index.js:11-33). These are system calls; their failure is the `mkdirError` parameter.
- HTTP through `node-fetch`, the response status check and the logging of headers (index.js:49-60). A non-ok response is one of the failures the `fetch` parameter can report.
- Streaming a response body to a file and the `error`/`end` listeners (index.js:66-75). These are event-driven I/O; an `error` event on the response body is another failure the `fetch` parameter can report.
- Timeouts: no timeout is set on the request or the body, so one that never finishes leaves the chain pending forever. The model's `fetch` always answers, so it does not represent a run that never settles.
- Write-stream errors (index.js:68): the file stream has no `error` listener, so a failed open or write is not a rejection of the chain; it escapes as an uncaught error and the chain never settles. The model does not represent it.
- File flushing: each step settles on the response body's `end` (index.js:70-73), not on the file stream's `finish`, so a completed chain does not promise that the last file is fully on disk. `Completed` lists the files whose bodies were read to the end.
- The JSON decoding of the index in `_getInfos` (index.js:97-100). The model takes an already-decoded list of releases; only the index path is modelled.
- `Promise.all` across versions (index.js:93). It runs concurrent I/O, so each version's plan and run are modelled independently.
- Version string parsing, leading `v` handling, loose mode and build metadata: these belong to the semver library, which is not part of this model.
- `url.parse` and `url.format`: a URL is the record between the two. The legacy parser leaves `pathname` null for some URLs, and appending to null gives the text `null` followed by the path; the model's `pathname` is always a string.
- `path.join` and `path.resolve`: `path.join` is the abstract `join` parameter, so the model does not prove that file paths are distinct on disk.
- Large numeric prerelease identifiers: the library keeps a digit-only identifier at or above `Number.MAX_SAFE_INTEGER` as a string and compares digit-only text as doubles, so `4.0.0-9007199254740992` and `4.0.0-9007199254740993` compare equal there. `Versions.Identifier` holds such an identifier as an exact `Numeric` and orders it exactly, and `Alphanumeric` stands only for text that is not all digits.
- String order in `Versions.StringLess` compares Unicode scalar values, while JavaScript compares UTF-16 code units. The two agree on the ASCII characters that prerelease identifiers may contain.
- All `console.log` output.
