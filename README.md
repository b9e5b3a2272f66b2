# pypiprivate: a Dafny model of publishing to a private package index

pypiprivate publishes the built artifacts of one version of a Python
package (source archives and wheels in a distribution directory) to a
"private PyPI". The index is a static tree on an object store, with one
`index.html` per package (PEP 503 "simple" layout) and a root
`index.html`. This project models the core of that tool and proves its
properties:

- **publish** (`pypiprivate/publish.py`):
  - picks the artifacts of the version;
  - computes the storage key of each;
  - uploads the ones not yet stored;
  - rewrites the package page and the root page, but only when something
    was uploaded.
- **storage** (`pypiprivate/storage.py`):
  - the path arithmetic shared by the object-store backends;
  - the S3 backend, with its bucket modelled as a map from key to object;
  - the key stripping of a delimited S3 listing. What the service returns
    for such a listing is stated by `ContentsOf` and `CommonPrefixesOf`,
    the model's description of S3's `list_objects` with delimiter `/`;
  - configuration resolution;
  - the backend selection of `load_storage`.
- **azure** (`pypiprivate/azure.py`):
  - the Azure Blob backend;
  - its recursive listing;
  - its prefix-match `path_exists`;
  - its two service clients, made on first use and then cached.

Files:

- `wrappers.dfy`: `Option` and `Result`.
- `text.dfy`: string prefixes and sub-lists, Python's code-point order on
  strings, `sorted()` as an ordered permutation, and the enumeration of a
  finite set in arbitrary order.
- `char_runs.dfy`: `re.sub(r"[...]+", c, s, count)` for the two character
  classes the publisher uses, including the meaning of `count`.
- `storage.dfy`: the module `Storage` and the class `AWSS3Storage`. The
  class keeps a ghost log of every `put_object` call.
- `azure.dfy`: the module `Azure` and the class `AzureBlobStorage`.
- `loader.dfy`: `load_storage`.
- `publish.dfy`: the module `Publish`. The publish loop is a `for` loop
  proved against `Pending`, a specification of which artifacts it uploads.
  `Pending` is proved equal to `Unpublished` (the artifacts absent at the
  start) whenever the keys are distinct, and `FindPkgDistsDistinctKeys`
  shows that one directory listing always gives distinct keys.

## Model

| member | source | states |
|---|---|---|
| Publish.NormalizedName | pypiprivate/publish.py:17-22 | The normalised name is empty only for the empty name, is no longer than the name, and contains no `_`, `.`, upper-case letter or two adjacent `-` |
| Publish.NormalizedNameIdempotent | pypiprivate/publish.py:17-22 | Normalising a normalised name returns it unchanged |
| Publish.NormalizedFixed | pypiprivate/publish.py:22 | A lower-case name whose only separators are single `-` is its own normal form |
| Publish.NormalizedNameOneDashPerRun | pypiprivate/publish.py:22 | The normal form has exactly one separator per maximal run of `-`, `_` and `.` in the name |
| Publish.NormalizedNameKeepsOtherChars | pypiprivate/publish.py:22 | Every other character survives, in order and lower-cased |
| Publish.NormalizedNameAppend | pypiprivate/publish.py:22 | Cut where no run of separators is split, the name normalises part by part: the normal form of `a + b` is that of `a` followed by that of `b` |
| Publish.NormalizedNameRun | pypiprivate/publish.py:22 | A whole run of `-`, `_` and `.` becomes a single `-` |
| Publish.NormalizedNameChar | pypiprivate/publish.py:22 | Any other character becomes its lower-case form, in its place. With the two lemmas above this fixes the normal form of every name |
| Publish.LowerChar | pypiprivate/publish.py:22 | `lower()` of one character: each of `A`-`Z` becomes the lower-case letter 32 code points above it, and every other character is unchanged |
| Publish.Lower | pypiprivate/publish.py:22 | `lower()` keeps the length and lower-cases each character in its place |
| Publish.NormalizedNameFooBar | tests/test_publish.py:45-50 | `FooBar` normalises to `foobar` |
| Publish.LowerUnchanged | pypiprivate/publish.py:22 | `lower()` leaves a string without upper-case letters unchanged |
| Publish.LowerCommutesWithKept | pypiprivate/publish.py:22 | Lower-casing commutes with dropping the separators |
| Publish.WheelName | pypiprivate/publish.py:28 | The wheel spelling keeps every letter, digit and `.` in order; with at most 32 runs to escape, it contains only `\w` characters and `.` |
| Publish.WheelNameCapped | pypiprivate/publish.py:28 | With more than 32 runs, an unescaped character is left (re.UNICODE is passed as the `count`) |
| Publish.WheelNameAppend | pypiprivate/publish.py:28 | With at most 32 runs to escape, cut where no run is split, the wheel spelling of `a + b` is that of `a` followed by that of `b` |
| Publish.WheelNameRun | pypiprivate/publish.py:28 | A whole run of characters other than `\w` and `.` becomes a single `_` |
| Publish.WheelNameFirstRuns | pypiprivate/publish.py:28 | Exactly the first 32 runs are escaped: when `a` holds 32 runs and ends where a run ends, the wheel spelling of `a + b` is `a` fully escaped followed by `b` unchanged |
| Publish.WheelNameChar | pypiprivate/publish.py:28 | A letter, digit, `_` or `.` stays as it is, in its place. With the two lemmas above this fixes the wheel spelling of every name with at most 32 runs |
| Publish.WheelNameAbc | pypiprivate/publish.py:28 | A name made only of letters is its own wheel spelling |
| Publish.MatchesCandidate | pypiprivate/publish.py:31-33 | A match for one candidate name means the file name starts with `candidate-version` and has at least one more character (the `[.-]`) |
| Publish.MatchesCandidateAt | pypiprivate/publish.py:31-33 | The pattern `candidate-version[.-]`, matched at the start of a file name, holds exactly when the name has, position by position, the candidate, `-`, the version, then `.` or `-` |
| Publish.IsPkgDist | pypiprivate/publish.py:29-33 | For a name that needs no escaping, a file is an artifact of the version exactly when it matches the name itself |
| Publish.FilterPkgDists | pypiprivate/publish.py:25-33 | The result is a sub-list of the listing, in order, holding exactly the files that start with the name or its wheel spelling, then `-`, the version, and `.` or `-` |
| Publish.FilterPkgDistsRelease | tests/test_publish.py:15-21 | Among the four test files, version 0.1.0 selects the wheel and the source archive, in listing order |
| Publish.FilterPkgDistsBeta | tests/test_publish.py:23-24 | Among the same files, version 0.1.0b1 selects only its own archive |
| Publish.AbcMatches | tests/test_publish.py:15-24 | File by file: the wheel and the archive of 0.1.0 belong to 0.1.0 only, the archive of 0.0.1 to neither version, the archive of 0.1.0b1 to 0.1.0b1 only |
| Publish.VersionPrefixMatches | pypiprivate/publish.py:32-33 | Version 0.1 also selects `abc-0.1.0.tar.gz`: the version is matched as a prefix followed by `.` |
| Publish.PathJoin | pypiprivate/publish.py:37 | `os.path.join(a, b)` ends with `b` |
| Publish.FindPkgDists | pypiprivate/publish.py:36-45 | One record per selected artifact, in listing order, carrying the package name, its normalised form, the file name and the joined path |
| Publish.FindPkgDistsDistinctKeys | pypiprivate/publish.py:36-45 | Artifacts from one directory listing get pairwise distinct storage keys |
| Publish.DistKey | pypiprivate/publish.py:71 | An artifact's key is its normalised package name, then `/`, then the artifact's file name |
| Publish.DistKeyNotRoot | pypiprivate/publish.py:71 | An artifact's key is never the root path `.` |
| Publish.UploadKeyUnderPrefix | pypiprivate/publish.py:78-79 | The upload key is the artifact key under the storage prefix directory when a prefix is set, and the artifact key itself otherwise |
| Publish.UploadKeyEndsWithArtifact | pypiprivate/publish.py:78-79 | Either way the upload key ends in `/` and the artifact's file name |
| Publish.UploadKeyInjective | pypiprivate/publish.py:78-79 | Two records of one package share a key exactly when they name the same artifact |
| Publish.IsDistPublished | pypiprivate/publish.py:71-74 | The result is true exactly when the artifact's prefixed key is in the bucket |
| Publish.UploadDist | pypiprivate/publish.py:77-80 | The file is stored under the key that `is_dist_published` checks, with one write, and the artifact then counts as published |
| Publish.PkgIndexItems | pypiprivate/publish.py:85 | A sub-list of the listing holding every entry except `index.html` |
| Publish.RootIndexItems | pypiprivate/publish.py:94 | A sorted permutation of those entries |
| Publish.UpdatePkgIndex | pypiprivate/publish.py:83-89 | `PathNotFound`, with nothing written, exactly when nothing is stored under the package. Otherwise one write of the package page listing the package directory, at `<pkg>/index.html` |
| Publish.UpdateRootIndex | pypiprivate/publish.py:92-98 | `PathNotFound`, with nothing written, exactly when nothing is stored under the prefix. Otherwise one write of the sorted root page at `index.html` |
| Publish.Pending | pypiprivate/publish.py:109-117 | The artifacts the loop uploads form a sub-list of the selected ones |
| Publish.PendingIsUnpublished | pypiprivate/publish.py:109-117 | When the keys are distinct, the loop uploads exactly the artifacts whose key was absent at the start, in order |
| Publish.PublishIfMissing | pypiprivate/publish.py:110-113 | An artifact is uploaded exactly when its key is absent. Then the bucket gains that one object and the log that one write; otherwise nothing changes |
| Publish.LoopStep | pypiprivate/publish.py:109-117 | One turn of the loop preserves the loop invariant `LoopState` |
| Publish.UploadMissing | pypiprivate/publish.py:108-117 | The loop performs the uploads of `Pending`, in order, and sets `rebuild_index` exactly when there was at least one |
| Publish.UpdateIndexes | pypiprivate/publish.py:118-121 | After an upload neither listing can fail, and both pages are written, the package page first |
| Publish.UploadUnderPackage | pypiprivate/publish.py:120 | An uploaded artifact lies under its package's listing prefix |
| Publish.UploadUnderRoot | pypiprivate/publish.py:121 | An uploaded artifact lies under the root listing prefix |
| Publish.PublishPackage | pypiprivate/publish.py:101-123 | No artifact: `DistNotFound`, with storage untouched. Otherwise success, after the uploads of `Pending` and, if there were any, both index pages |
| CharRuns.SubAll | pypiprivate/publish.py:22 | `re.sub` with count 0: empty only for the empty input and no longer than it. An input that starts with a class character gives a result that starts with the replacement; any other input gives a result that starts with the same character |
| CharRuns.SubAllShape | pypiprivate/publish.py:22 | Every class character in the result is the replacement, and no two class characters are adjacent |
| CharRuns.SkipRunSuffix | pypiprivate/publish.py:22 | What is left after a leading run is a suffix of the input, and everything before it is in the class |
| CharRuns.SubAllAppend | pypiprivate/publish.py:22 | Substitution works run by run: cut where no run is split, `SubAll(a + b)` is `SubAll(a) + SubAll(b)` |
| CharRuns.SubAllRun | pypiprivate/publish.py:22 | A whole maximal run becomes exactly one replacement character, and counts as one run |
| CharRuns.SubAllOther | pypiprivate/publish.py:22 | A character outside the class stays as it is, and is no run |
| CharRuns.RunsAppend | pypiprivate/publish.py:28 | Cut where no run is split, the numbers of runs of the two parts add up |
| CharRuns.SubAllKeeps | pypiprivate/publish.py:22 | Substitution leaves the characters outside the class in order |
| CharRuns.SubAllOnePerRun | pypiprivate/publish.py:22 | When the replacement is itself a class character, the result has exactly one class character per maximal run of the input. Where each one stands is fixed by `SubAllAppend`, `SubAllRun` and `SubAllOther` |
| CharRuns.SubAllFixpoint | pypiprivate/publish.py:22 | A string already in substituted form is unchanged |
| CharRuns.SubFirst | pypiprivate/publish.py:28 | `re.sub` with a positive count leaves the characters outside the class in order |
| CharRuns.SubFirstAppend | pypiprivate/publish.py:28 | Exactly the first `n` runs are replaced: when `a` holds `n` runs and ends where a run ends, `SubFirst(a + b, n)` is `SubAll(a)` followed by `b` unchanged |
| CharRuns.SubFirstEnough | pypiprivate/publish.py:28 | With a count of at least the number of runs, it equals the unlimited substitution |
| CharRuns.SubFirstShort | pypiprivate/publish.py:28 | With fewer than the number of runs, a class character remains |
| CharRuns.Sub | pypiprivate/publish.py:28 | `re.sub` with its `count`: 0, or a count no smaller than the number of runs, replaces every run; a smaller positive count leaves a class character in the result |
| CharRuns.SubCountCut | pypiprivate/publish.py:28 | `re.sub` with a positive count replaces exactly the first `count` runs and copies the rest of the input unchanged |
| Storage.JoinPath | pypiprivate/storage.py:151-152 | Joining one part gives that part; joining two puts `/` between them |
| Storage.PrefixedPath | pypiprivate/storage.py:154-160 | `.` maps to the prefix alone (or `''`). Any other path maps to `prefix/path`, or to the path itself when the prefix is None or empty. The Azure backend's `prefixed_path` (pypiprivate/azure.py:59-65) is identical and uses this function |
| Storage.PrefixedPathInjective | pypiprivate/storage.py:154-160 | Distinct paths other than `.` get distinct keys |
| Storage.ListPrefix | pypiprivate/storage.py:164-167 | The listing prefix is the path plus `/`, unless the path is empty or already ends in `/` |
| Storage.Present | pypiprivate/storage.py:174-175 | Only present search results are kept |
| Storage.StripAll | pypiprivate/storage.py:179-181 | Each key loses the listing prefix |
| Storage.NonEmpty | pypiprivate/storage.py:180 | Empty file names are dropped, order kept |
| Storage.UpToSlash | pypiprivate/storage.py:170-173 | The delimiter cut: the first segment with its `/`, or the whole rest when it has no `/` |
| Storage.ContentsOf | pypiprivate/storage.py:170-174 | The `Contents` of a listing with delimiter `/`: stored keys under the prefix whose remainder has no `/` |
| Storage.CommonPrefixesOf | pypiprivate/storage.py:170-175 | The `CommonPrefixes`: each starts with the listing prefix, ends in its first `/` below it, and begins some stored key |
| Storage.ListingOf | pypiprivate/storage.py:162-182 | Every expected entry is non-empty, has no `/` except possibly a final one, and put after the prefix begins some stored key |
| Storage.S3ListdirEntries | pypiprivate/storage.py:174-182 | `PathNotFound(prefix)` exactly when both parts of the response are empty. Otherwise the stripped, non-empty file names, then the stripped common prefixes |
| Storage.S3ListdirRoundTrip | pypiprivate/storage.py:174-182 | Each entry plus the prefix is a returned key. Each returned key, stripped, is an entry, except the prefix itself |
| Storage.S3ListdirOfKeys | pypiprivate/storage.py:162-182 | For a bucket: `PathNotFound` exactly when no key lies under the prefix; otherwise the entries are exactly the first segments below it |
| Storage.S3ListdirNotFound | pypiprivate/storage.py:176-178 | The error case of that statement |
| Storage.S3ListdirEntriesListed | pypiprivate/storage.py:179-182 | Every entry is a first segment below the prefix |
| Storage.S3ListdirListedEntries | pypiprivate/storage.py:179-182 | Every first segment below the prefix is an entry |
| Storage.S3FromConfig | pypiprivate/storage.py:124-149 | `bucket` is required, and its absence is the error `MissingKey("bucket")`. `acl` defaults to `private`. Explicit credentials hold the two key variables exactly when both are set, and the session token exactly when it is set. `prefix`, `endpoint` and `region` are `None` when absent and the configured value otherwise |
| Storage.S3FromConfigWithEndpoint | tests/test_storage.py:62-115 | A configuration with endpoint and region resolves to those values and `private`, with explicit credentials from three environment variables and with none from an empty environment |
| Storage.LocalFromConfig | pypiprivate/storage.py:51-54 | `base_path` is required and passed through |
| Storage.ResourceKwargs | pypiprivate/storage.py:114-118 | `endpoint_url` and `region_name` are passed exactly when set, and nothing else is |
| Storage.AWSS3Storage.constructor | pypiprivate/storage.py:101-122 | The session carries the given access key, secret key and session token, or is boto3's default when no credentials are given. The resource arguments are `endpoint_url = endpoint` and `region_name = region`, each only when set. The settings are stored and the write log starts empty |
| Storage.AWSS3Storage.FromConfig | pypiprivate/storage.py:124-149 | A configuration error is returned unchanged. Otherwise the storage holds the resolved settings; its session uses `PP_S3_ACCESS_KEY`, `PP_S3_SECRET_KEY` and the optional `PP_S3_SESSION_TOKEN` when both keys are set and is the default session otherwise; `endpoint_url` and `region_name` are the configured `endpoint` and `region`, each only when set |
| Storage.AWSS3Storage.PathExists | pypiprivate/storage.py:184-194 | True exactly when the raw key is stored: `prefix/path`, or `path` without a prefix, and the prefix alone (or `''`) for `.` |
| Storage.AWSS3Storage.Listdir | pypiprivate/storage.py:162-182 | `PathNotFound(lp)` exactly when no stored key lies under the listing prefix; otherwise the entries are exactly `ListingOf` the bucket |
| Storage.AWSS3Storage.PutContents | pypiprivate/storage.py:196-207 | One object is written or overwritten at the prefixed key, with the storage's ACL; one write is logged |
| Storage.AWSS3Storage.PutFile | pypiprivate/storage.py:209-221 | The same, with the file's bytes as the body |
| Text.Sort | pypiprivate/publish.py:94 | `sorted()` gives an ordered permutation |
| Text.SortedUnique | pypiprivate/publish.py:94 | Two ordered permutations of one list are equal, so the sorted order is unique |
| Text.Enumerate | pypiprivate/azure.py:76 | A set is listed with each member once, in an unspecified order |
| Azure.AzureFromConfig | pypiprivate/azure.py:48-54 | The `container` entry is required first, then `PP_AZURE_CONN_STR` in the environment; the prefix is optional |
| Azure.Dirname | pypiprivate/azure.py:76 | `os.path.dirname` gives a prefix of the path, and `''` for a path without `/` |
| Azure.DirnameOfJoin | pypiprivate/azure.py:76 | The directory name of `dir/name` is `dir` |
| Azure.BlobFiles | pypiprivate/azure.py:74-75 | A name is listed exactly when the prefix followed by it is a stored blob |
| Azure.BlobDirs | pypiprivate/azure.py:76 | The directories are exactly the directory names of the listed names: each listed name contributes its `dirname`, and every directory is the `dirname` of some listed name |
| Azure.BlobDirsBeginNames | pypiprivate/azure.py:76 | Every directory begins some listed name |
| Azure.TopLevelBlobListsEmptyDir | pypiprivate/azure.py:76 | A blob directly under the prefix puts `''` among the listed directories |
| Azure.BlobPathExists | pypiprivate/azure.py:79-82 | A key exists exactly when it is stored or a longer stored name begins with it; in particular every stored key exists |
| Azure.LongerNameExists | pypiprivate/azure.py:79-82 | A key that is not stored exists too, when a stored name merely starts with it |
| Azure.AzureBlobStorage.constructor | pypiprivate/azure.py:44-46 | The settings are stored and both cached clients start empty |
| Azure.AzureBlobStorage.FromConfig | pypiprivate/azure.py:48-54 | The configuration is resolved, then the constructor runs; a configuration error passes through |
| Azure.AzureBlobStorage.GetBlobServiceClient | pypiprivate/azure.py:24-29 | The client is made on first use, for the storage's connection string; every later use returns the same object |
| Azure.AzureBlobStorage.GetContainerClient | pypiprivate/azure.py:31-39 | The client is made on first use from the service client, for the storage's container; every later use returns the same object |
| Azure.AzureBlobStorage.Listdir | pypiprivate/azure.py:67-77 | All stripped blob names under the prefix, each once, then their directory names, each once. No error. Both clients are cached afterwards, and a client already cached is kept |
| Azure.AzureBlobStorage.PathExists | pypiprivate/azure.py:79-82 | True exactly when some blob name starts with the prefixed key. Both clients are cached afterwards, and a client already cached is kept |
| Azure.AzureBlobStorage.PutContents | pypiprivate/azure.py:84-89 | The blob at the prefixed key is replaced by the text. Both clients are cached afterwards, and a client already cached is kept |
| Azure.AzureBlobStorage.PutFile | pypiprivate/azure.py:91-97 | The blob at the prefixed key is replaced by the file's bytes. Both clients are cached afterwards, and a client already cached is kept |
| StorageLoader.LoadStorage | pypiprivate/storage.py:229-238 | `local-filesystem`, `aws-s3` and `azure` select their backend's configuration, whose error passes through. Any other name is `Unsupported storage`. The backend built matches the name |

## Left out

- `build_index` and the Jinja template are not modelled. A page is kept as the values it is rendered from: title, items and kind. The HTML text and its escaping are left out.
- Logging is left out.
- `guess_content_type` (the `ContentType` of uploads) is left out.
- The `sync` waiters of `put_contents` and `put_file` are left out: waiting for the object does not change the bucket.
- The local file system, the network and the SDKs are state rather than calls:
  - the distribution directory is the list of names `os.listdir` returns, passed as a parameter;
  - a bucket or container is a map from key to object;
  - an uploaded file is named by its local path, not read.
- `packaging.version.Version` is left out. The version is taken as its normalised string (`0.1.0-beta1` is given as `0.1.0b1`).
- Publish.LowerChar: `str.lower()` is modelled for ASCII letters only, and `\w` covers ASCII letters, digits and `_` only. Non-ASCII names are outside the model.
- The order of a listing from the service, and the order of a Python `set`, are left unspecified. Listings are stated by membership: `AWSS3Storage.Listdir` states its entries as a set, and `AzureBlobStorage.Listdir` states each half of its result.
- Storage.AWSS3Storage.Listdir: repeated entries from several response pages are not modelled, because a delimited listing returns each key or common prefix once.
- Pagination itself is not modelled: the pages are concatenated into one response.
- `LocalFileSystemStorage` is modelled only through `from_config` and its place in `load_storage`. Its `listdir`, `path_exists`, `put_contents` and `put_file` work directly on the local file system.
- `publish_package` is modelled on the S3 backend only. The Azure backend's operations are modelled on their own. `LongerNameExists` shows how its prefix-match `path_exists` would make the loop skip an artifact when another stored name merely starts with its key.
- A `ClientError` from `head_object` other than "not found" (for example, access denied) is not distinguished: `path_exists` is key membership.
- Other storage exceptions from the SDK (network failures) are not modelled. The one storage error the code raises itself, `PathNotFound`, is modelled, and `UpdateIndexes` proves that `publish_package` cannot hit it.
- The `__repr__` methods are left out.
- The `Storage` base class with its `NotImplementedError` stubs is left out.
- `pypiprivate/cli.py` and `pypiprivate/config.py` (argument parsing, reading the configuration file) are not part of this model. Their results are the parameters of `LoadStorage` and `FromConfig`.
